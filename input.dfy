// Navigation actions produced by keyboard and gamepad input.
module Input {
  datatype Action =
    | Up | Down | Left | Right | Select | Back
    | NextCategory | PrevCategory | ContextMenu | AddApp | Quit | ShowHelp
}
