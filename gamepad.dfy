// src/gamepad.rs: turning controller events into navigation actions. Axis
// values are reals (only their comparisons with the dead zone matter), the
// clock is integer milliseconds, and the gilrs polling loop, haptics and
// battery reports are not modelled.
module Gamepad {
  import opened Options
  import opened Strings
  import opened Input

  const REPEAT_DELAY_MS := 400
  const REPEAT_INTERVAL_MS := 100
  const DEADZONE: real := 0.6

  datatype GamepadInput = Press(action: Action) | Release(action: Action)

  // ---------------------------------------------------------------- classification

  /** What `from_gamepad` reads off a device. */
  datatype GamepadCapabilities = GamepadCapabilities(
    isSdlMapped: bool,
    hasLeftStick: bool,
    hasDpad: bool,
    hasFaceButtons: bool,
    name: string)

  /** The name check of `classify_as_keyboard`, on the lower-cased name. */
  predicate NamedLikeKeyboard(name: string)
  {
    var lower := ToLower(name);
    Contains(lower, "keyboard") || Contains(lower, "system control") || Contains(lower, "consumer control")
  }

  /** `classify_as_keyboard`. */
  function ClassifyAsKeyboard(caps: GamepadCapabilities): bool
  {
    if caps.isSdlMapped then false
    else
      var hasNavigation := caps.hasLeftStick || caps.hasDpad;
      var functionalGamepad := hasNavigation && caps.hasFaceButtons;
      if !functionalGamepad then true
      else NamedLikeKeyboard(caps.name)
  }

  /**
   * An SDL-mapped device is a gamepad; otherwise a device without navigation
   * (stick or D-pad) and South is a keyboard; otherwise the name decides.
   */
  lemma ClassificationRules(caps: GamepadCapabilities)
    ensures caps.isSdlMapped ==> !ClassifyAsKeyboard(caps)
    ensures (!caps.isSdlMapped && !((caps.hasLeftStick || caps.hasDpad) && caps.hasFaceButtons)) ==>
      ClassifyAsKeyboard(caps)
    ensures (!caps.isSdlMapped && (caps.hasLeftStick || caps.hasDpad) && caps.hasFaceButtons) ==>
      (ClassifyAsKeyboard(caps) <==> NamedLikeKeyboard(caps.name))
    ensures ClassifyAsKeyboard(caps) ==> !caps.isSdlMapped
  {
  }

  /** The five devices of the classification test. */
  lemma ClassificationExamples()
    ensures !ClassifyAsKeyboard(GamepadCapabilities(true, true, true, true, "Xbox 360 Controller"))
    ensures ClassifyAsKeyboard(GamepadCapabilities(false, false, false, false, "Keychron Q3 Pro System Control"))
    ensures !ClassifyAsKeyboard(GamepadCapabilities(false, true, true, true, "Generic USB Gamepad"))
    ensures ClassifyAsKeyboard(GamepadCapabilities(false, true, false, true, "Wooting Keyboard"))
    ensures ClassifyAsKeyboard(GamepadCapabilities(false, true, true, false, "Unknown Device"))
  {
    GenericGamepadName();
    WootingName();
  }

  lemma GenericGamepadName()
    ensures !NamedLikeKeyboard("Generic USB Gamepad")
  {
    GenericLower();
    NoKeywordWithout("generic usb gamepad");
  }

  /** A lower-cased name without 'k', 'y' and 't' names none of the keyboard words. */
  lemma NoKeywordWithout(lower: string)
    requires 'k' !in lower && 'y' !in lower && 't' !in lower
    ensures !(Contains(lower, "keyboard") || Contains(lower, "system control") || Contains(lower, "consumer control"))
  {
    NotContainsChar(lower, "keyboard", 0);
    NotContainsChar(lower, "system control", 1);
    NotContainsChar(lower, "consumer control", 12);
  }

  lemma GenericLower()
    ensures ToLower("Generic USB Gamepad") == "generic usb gamepad"
  {
  }

  lemma WootingName()
    ensures NamedLikeKeyboard("Wooting Keyboard")
  {
    var lower := ToLower("Wooting Keyboard");
    assert lower == "wooting keyboard";
    ContainsAt(lower, "keyboard", 8);
  }

  // ---------------------------------------------------------------- events

  /** `map_axis_value`: -1, 0 or 1 by the dead zone. */
  function MapAxisValue(value: real): (r: int)
    ensures -1 <= r <= 1
    ensures r == -1 <==> value <= -DEADZONE
    ensures r == 1 <==> value >= DEADZONE
    ensures r == 0 <==> -DEADZONE < value < DEADZONE
  {
    if value <= -DEADZONE then -1
    else if value >= DEADZONE then 1
    else 0
  }

  datatype Button =
    | South | East | West | North
    | DPadUp | DPadDown | DPadLeft | DPadRight
    | LeftTrigger | RightTrigger | LeftTrigger2 | RightTrigger2
    | SelectButton | OtherButton

  datatype Axis = LeftStickX | LeftStickY | OtherAxis

  /** The gilrs events `process_event` looks at; everything else is `OtherEvent`. */
  datatype EventType =
    | ButtonPressed(button: Button)
    | ButtonReleased(button: Button)
    | AxisChanged(axis: Axis, value: real)
    | OtherEvent

  /** The action a pressed button stands for. */
  function PressAction(b: Button): Option<Action>
  {
    match b
    case South => Some(Select)
    case East => Some(Back)
    case West => Some(ContextMenu)
    case North => Some(AddApp)
    case DPadUp => Some(Up)
    case DPadDown => Some(Down)
    case DPadLeft => Some(Left)
    case DPadRight => Some(Right)
    case LeftTrigger => Some(PrevCategory)
    case RightTrigger => Some(NextCategory)
    case LeftTrigger2 => Some(PrevCategory)
    case RightTrigger2 => Some(NextCategory)
    case SelectButton => Some(ShowHelp)
    case OtherButton => None
  }

  /** The action a released button ends: only the navigation buttons report releases. */
  function ReleaseAction(b: Button): Option<Action>
  {
    match b
    case DPadUp => Some(Up)
    case DPadDown => Some(Down)
    case DPadLeft => Some(Left)
    case DPadRight => Some(Right)
    case LeftTrigger => Some(PrevCategory)
    case RightTrigger => Some(NextCategory)
    case LeftTrigger2 => Some(PrevCategory)
    case RightTrigger2 => Some(NextCategory)
    case _ => None
  }

  /** `is_nav_action`. */
  predicate IsNavAction(a: Action)
  {
    a == Up || a == Down || a == Left || a == Right || a == NextCategory || a == PrevCategory
  }

  /**
   * One axis moving from `oldDir` to `newDir`: entering -1 or 1 presses that
   * direction, returning to 0 releases the old one, and no change reports
   * nothing.
   */
  function AxisInput(newDir: int, oldDir: int, negative: Action, positive: Action): Option<GamepadInput>
  {
    if newDir == oldDir then None
    else if newDir == -1 then Some(Press(negative))
    else if newDir == 1 then Some(Press(positive))
    else if newDir == 0 then
      if oldDir == -1 then Some(Release(negative))
      else if oldDir == 1 then Some(Release(positive))
      else None
    else None
  }

  /** `AxisState`: the last direction of each stick axis. */
  class AxisState {
    var dirX: int
    var dirY: int

    /** `AxisState::new`. */
    constructor ()
      ensures dirX == 0 && dirY == 0
    {
      dirX, dirY := 0, 0;
    }
  }

  /** `process_event`: the input an event stands for, recording stick directions in `state`. */
  method ProcessEvent(event: EventType, state: AxisState) returns (r: Option<GamepadInput>)
    modifies state
    ensures r == EventInput(event, old(state.dirX), old(state.dirY))
    ensures (event.AxisChanged? && event.axis == LeftStickX) ==> state.dirX == MapAxisValue(event.value)
    ensures !(event.AxisChanged? && event.axis == LeftStickX) ==> state.dirX == old(state.dirX)
    ensures (event.AxisChanged? && event.axis == LeftStickY) ==> state.dirY == MapAxisValue(event.value)
    ensures !(event.AxisChanged? && event.axis == LeftStickY) ==> state.dirY == old(state.dirY)
  {
    match event
    case ButtonPressed(b) =>
      r := match PressAction(b) case Some(a) => Some(Press(a)) case None => None;
    case ButtonReleased(b) =>
      r := match ReleaseAction(b) case Some(a) => Some(Release(a)) case None => None;
    case AxisChanged(LeftStickX, value) =>
      var newDir := MapAxisValue(value);
      if newDir != state.dirX {
        var oldDir := state.dirX;
        state.dirX := newDir;
        r := AxisInput(newDir, oldDir, Left, Right);
      } else {
        r := None;
      }
    case AxisChanged(LeftStickY, value) =>
      var newDir := MapAxisValue(value);
      if newDir != state.dirY {
        var oldDir := state.dirY;
        state.dirY := newDir;
        r := AxisInput(newDir, oldDir, Up, Down);
      } else {
        r := None;
      }
    case _ =>
      r := None;
  }

  /** What `process_event` reports for an event, given the stick directions before it. */
  function EventInput(event: EventType, dirX: int, dirY: int): Option<GamepadInput>
  {
    match event
    case ButtonPressed(b) => (match PressAction(b) case Some(a) => Some(Press(a)) case None => None)
    case ButtonReleased(b) => (match ReleaseAction(b) case Some(a) => Some(Release(a)) case None => None)
    case AxisChanged(LeftStickX, value) => AxisInput(MapAxisValue(value), dirX, Left, Right)
    case AxisChanged(LeftStickY, value) => AxisInput(MapAxisValue(value), dirY, Up, Down)
    case _ => None
  }

  /** Every release `process_event` reports is of a navigation action. */
  lemma ReleasesAreNavigation(event: EventType, dirX: int, dirY: int)
    ensures var r := EventInput(event, dirX, dirY);
      r.Some? && r.value.Release? ==> IsNavAction(r.value.action)
  {
  }

  /**
   * The stick X axis: no change reports nothing; entering -1 or 1 presses
   * Left or Right; returning to 0 releases the old direction; going from one
   * end to the other presses the new direction and releases nothing.
   */
  lemma StickXTransitions(value: real, oldDir: int)
    requires -1 <= oldDir <= 1
    ensures var newDir := MapAxisValue(value); var r := EventInput(AxisChanged(LeftStickX, value), oldDir, 0);
      (newDir == oldDir ==> r == None) &&
      (newDir != oldDir && newDir == -1 ==> r == Some(Press(Left))) &&
      (newDir != oldDir && newDir == 1 ==> r == Some(Press(Right))) &&
      (newDir == 0 && oldDir == -1 ==> r == Some(Release(Left))) &&
      (newDir == 0 && oldDir == 1 ==> r == Some(Release(Right)))
  {
  }

  /** The stick Y axis behaves the same way with Up for -1 and Down for 1, whatever the X axis did. */
  lemma StickYTransitions(value: real, dirX: int, oldDir: int)
    requires -1 <= oldDir <= 1
    ensures var newDir := MapAxisValue(value); var r := EventInput(AxisChanged(LeftStickY, value), dirX, oldDir);
      (newDir == oldDir ==> r == None) &&
      (newDir != oldDir && newDir == -1 ==> r == Some(Press(Up))) &&
      (newDir != oldDir && newDir == 1 ==> r == Some(Press(Down))) &&
      (newDir == 0 && oldDir == -1 ==> r == Some(Release(Up))) &&
      (newDir == 0 && oldDir == 1 ==> r == Some(Release(Down)))
  {
  }

  /** The buttons and the actions they press. */
  lemma ButtonMapping()
    ensures PressAction(South) == Some(Select) && PressAction(East) == Some(Back)
    ensures PressAction(West) == Some(ContextMenu) && PressAction(North) == Some(AddApp)
    ensures PressAction(SelectButton) == Some(ShowHelp)
    ensures PressAction(LeftTrigger) == PressAction(LeftTrigger2) == Some(PrevCategory)
    ensures PressAction(RightTrigger) == PressAction(RightTrigger2) == Some(NextCategory)
    ensures forall b :: ReleaseAction(b).Some? ==> ReleaseAction(b) == PressAction(b) && IsNavAction(ReleaseAction(b).value)
  {
  }

  // ---------------------------------------------------------------- repeater

  /** The held navigation action, when it was pressed and when it was last re-sent. */
  datatype Held = Held(action: Action, start: int, lastEmit: int)

  /** The loop's `current_repeater` update for one input (lines 120-133). */
  function RepeaterOnInput(current: Option<Held>, input: GamepadInput, now: int): Option<Held>
  {
    match input
    case Press(a) => if IsNavAction(a) then Some(Held(a, now, now)) else current
    case Release(a) => if current.Some? && current.value.action == a then None else current
  }

  /** The repeat check of each loop turn (lines 139-147): the new repeater and what it re-sends. */
  function RepeaterTick(current: Option<Held>, now: int): (Option<Held>, Option<Action>)
  {
    match current
    case None => (None, None)
    case Some(h) =>
      if now - h.start >= REPEAT_DELAY_MS && now - h.lastEmit >= REPEAT_INTERVAL_MS then
        (Some(Held(h.action, h.start, now)), Some(h.action))
      else (current, None)
  }

  /**
   * Only a navigation press arms the repeater, at the time of the press, and
   * only a release of the held action clears it.
   */
  lemma RepeaterInputRules(current: Option<Held>, input: GamepadInput, now: int)
    ensures var next := RepeaterOnInput(current, input, now);
      (next.Some? && next != current ==> input.Press? && IsNavAction(input.action) && next == Some(Held(input.action, now, now))) &&
      (next.None? && current.Some? ==> input == Release(current.value.action)) &&
      (input.Press? && IsNavAction(input.action) ==> next == Some(Held(input.action, now, now)))
  {
  }

  /**
   * A tick re-sends the held action exactly when 400 ms have passed since the
   * press and 100 ms since the last send; it keeps the action and the press
   * time, and moves the last send to now.
   */
  lemma RepeaterTickRules(current: Option<Held>, now: int)
    ensures var (next, emit) := RepeaterTick(current, now);
      (emit.Some? <==> current.Some? && now - current.value.start >= REPEAT_DELAY_MS &&
                       now - current.value.lastEmit >= REPEAT_INTERVAL_MS) &&
      (emit.Some? ==> emit.value == current.value.action && next == Some(Held(current.value.action, current.value.start, now))) &&
      (emit.None? ==> next == current)
  {
  }

  /** A freshly armed repeater stays silent for the first 400 ms. */
  lemma NoRepeatBeforeDelay(a: Action, pressed: int, now: int)
    requires IsNavAction(a) && now - pressed < REPEAT_DELAY_MS
    ensures RepeaterTick(RepeaterOnInput(None, Press(a), pressed), now).1 == None
  {
  }
}
