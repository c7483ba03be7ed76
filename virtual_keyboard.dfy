// src/virtual_keyboard.rs: the on-screen keyboard's state. `value.len()` is
// the UTF-8 byte length, as in Rust; the widget view is not modelled.
module VirtualKeyboard {
  import opened Options
  import opened Strings
  import Utf8

  /** `KeyboardOutput`: `None` is `Idle` here. */
  datatype KeyboardOutput = Idle | Input(value: string) | Submitted

  datatype LayoutType = Qwerty | Symbols
  {
    /** The layout the toggle key switches to. */
    function Toggled(): (r: LayoutType)
      ensures r != this
    {
      match this
      case Qwerty => Symbols
      case Symbols => Qwerty
    }
  }

  /** Toggling twice restores the layout. */
  lemma ToggleTwice(l: LayoutType)
    ensures l.Toggled().Toggled() == l
  {
  }

  datatype KeyType = Char(c: char) | ShiftKey | LayoutToggle | SpaceKey | BackspaceKey | SubmitKey

  datatype KeyDef = KeyDef(keyLabel: string, keyType: KeyType, widthUnits: nat)

  function CharKey(c: char): KeyDef
  {
    KeyDef("", Char(c), 1)
  }

  const QWERTY_LAYOUT: seq<seq<KeyDef>> := [
    [CharKey('1'), CharKey('2'), CharKey('3'), CharKey('4'), CharKey('5'),
     CharKey('6'), CharKey('7'), CharKey('8'), CharKey('9'), CharKey('0')],
    [CharKey('q'), CharKey('w'), CharKey('e'), CharKey('r'), CharKey('t'),
     CharKey('y'), CharKey('u'), CharKey('i'), CharKey('o'), CharKey('p')],
    [CharKey('a'), CharKey('s'), CharKey('d'), CharKey('f'), CharKey('g'),
     CharKey('h'), CharKey('j'), CharKey('k'), CharKey('l')],
    [KeyDef("Shift", ShiftKey, 2), CharKey('z'), CharKey('x'), CharKey('c'), CharKey('v'),
     CharKey('b'), CharKey('n'), CharKey('m'), KeyDef("Bksp", BackspaceKey, 2)],
    [KeyDef("Sym", LayoutToggle, 2), KeyDef("Space", SpaceKey, 5), KeyDef("OK", SubmitKey, 2)]
  ]

  const SYMBOLS_LAYOUT: seq<seq<KeyDef>> := [
    [CharKey('1'), CharKey('2'), CharKey('3'), CharKey('4'), CharKey('5'),
     CharKey('6'), CharKey('7'), CharKey('8'), CharKey('9'), CharKey('0')],
    [CharKey('!'), CharKey('@'), CharKey('#'), CharKey('$'), CharKey('%'),
     CharKey('^'), CharKey('&'), CharKey('*'), CharKey('('), CharKey(')')],
    [CharKey('-'), CharKey('_'), CharKey('='), CharKey('+'), CharKey('['),
     CharKey(']'), CharKey('{'), CharKey('}'), CharKey('\\')],
    [KeyDef("Shift", ShiftKey, 2), CharKey(';'), CharKey(':'), CharKey('\''), CharKey('"'),
     CharKey(','), CharKey('.'), CharKey('?'), KeyDef("Bksp", BackspaceKey, 2)],
    [KeyDef("ABC", LayoutToggle, 2), KeyDef("Space", SpaceKey, 5), KeyDef("OK", SubmitKey, 2)]
  ]

  /** `current_layout`. */
  function Rows(layout: LayoutType): seq<seq<KeyDef>>
  {
    match layout
    case Qwerty => QWERTY_LAYOUT
    case Symbols => SYMBOLS_LAYOUT
  }

  /**
   * Both layouts have the same shape: five rows of 10, 10, 9, 9 and 3 keys,
   * with the special keys in the same places.
   */
  lemma LayoutShape(layout: LayoutType)
    ensures |Rows(layout)| == 5
    ensures |Rows(layout)[0]| == 10 && |Rows(layout)[1]| == 10 && |Rows(layout)[2]| == 9
    ensures |Rows(layout)[3]| == 9 && |Rows(layout)[4]| == 3
    ensures Rows(layout)[3][0].keyType == ShiftKey && Rows(layout)[3][8].keyType == BackspaceKey
    ensures Rows(layout)[4][0].keyType == LayoutToggle && Rows(layout)[4][1].keyType == SpaceKey
    ensures Rows(layout)[4][2].keyType == SubmitKey
  {
  }

  /** The cursor names a key of the layout. */
  predicate InBounds(rows: seq<seq<KeyDef>>, row: nat, col: nat)
  {
    row < |rows| && col < |rows[row]|
  }

  /** `"*".repeat(n)`. */
  function Stars(n: nat): (r: string)
    ensures |r| == n && forall i :: 0 <= i < n ==> r[i] == '*'
  {
    if n == 0 then [] else Stars(n - 1) + "*"
  }

  class VirtualKeyboard {
    var value: string
    var cursorRow: nat
    var cursorCol: nat
    var layout: LayoutType
    var shift: bool
    var maxLength: Option<nat>
    var passwordMode: bool

    predicate CursorValid()
      reads this
    {
      InBounds(Rows(layout), cursorRow, cursorCol)
    }

    /** `VirtualKeyboard::new`: the cursor on `q`, Qwerty, shift off. */
    constructor (initialValue: string)
      ensures value == initialValue && cursorRow == 1 && cursorCol == 0
      ensures layout == Qwerty && !shift && maxLength == None && !passwordMode
      ensures CursorValid()
    {
      value := initialValue;
      cursorRow, cursorCol := 1, 0;
      layout := Qwerty;
      shift := false;
      maxLength := None;
      passwordMode := false;
      new;
      LayoutShape(Qwerty);
    }

    /** `with_max_length`. */
    method WithMaxLength(max: nat)
      modifies this
      ensures maxLength == Some(max)
      ensures value == old(value) && cursorRow == old(cursorRow) && cursorCol == old(cursorCol)
      ensures layout == old(layout) && shift == old(shift) && passwordMode == old(passwordMode)
    {
      maxLength := Some(max);
    }

    /** `password`. */
    method Password()
      modifies this
      ensures passwordMode
      ensures value == old(value) && cursorRow == old(cursorRow) && cursorCol == old(cursorCol)
      ensures layout == old(layout) && shift == old(shift) && maxLength == old(maxLength)
    {
      passwordMode := true;
    }

    /** `set_value`. */
    method SetValue(v: string)
      modifies this
      ensures value == v
      ensures cursorRow == old(cursorRow) && cursorCol == old(cursorCol)
      ensures layout == old(layout) && shift == old(shift) && maxLength == old(maxLength) && passwordMode == old(passwordMode)
    {
      value := v;
    }

    /** `display_value`: one `*` per byte in password mode, else the value. */
    function DisplayValue(): (r: string)
      reads this
      ensures passwordMode ==> |r| == Utf8.Len(value) && forall i :: 0 <= i < |r| ==> r[i] == '*'
      ensures !passwordMode ==> r == value
    {
      if passwordMode then Stars(Utf8.Len(value)) else value
    }

    /** `move_up`: one row up, then clamp the column to that row. */
    method MoveUp()
      modifies this
      ensures value == old(value) && layout == old(layout) && shift == old(shift)
      ensures maxLength == old(maxLength) && passwordMode == old(passwordMode)
      ensures old(cursorRow) == 0 ==> cursorRow == 0 && cursorCol == old(cursorCol)
      ensures old(cursorRow) > 0 && old(cursorRow) <= |Rows(layout)| ==>
        cursorRow == old(cursorRow) - 1 &&
        cursorCol == (if old(cursorCol) < |Rows(layout)[cursorRow]| then old(cursorCol) else |Rows(layout)[cursorRow]| - 1)
      ensures old(CursorValid()) ==> CursorValid()
    {
      if cursorRow > 0 {
        cursorRow := cursorRow - 1;
        ClampCursor();
      }
    }

    /** `move_down`: one row down if there is one, then clamp the column. */
    method MoveDown()
      modifies this
      ensures value == old(value) && layout == old(layout) && shift == old(shift)
      ensures maxLength == old(maxLength) && passwordMode == old(passwordMode)
      ensures old(cursorRow) + 1 >= |Rows(layout)| ==> cursorRow == old(cursorRow) && cursorCol == old(cursorCol)
      ensures old(cursorRow) + 1 < |Rows(layout)| ==>
        cursorRow == old(cursorRow) + 1 &&
        cursorCol == (if old(cursorCol) < |Rows(layout)[cursorRow]| then old(cursorCol) else |Rows(layout)[cursorRow]| - 1)
      ensures old(CursorValid()) ==> CursorValid()
    {
      var rows := Rows(layout);
      if cursorRow + 1 < |rows| {
        cursorRow := cursorRow + 1;
        ClampCursor();
      }
    }

    /** `move_left`. */
    method MoveLeft()
      modifies this
      ensures value == old(value) && layout == old(layout) && shift == old(shift)
      ensures maxLength == old(maxLength) && passwordMode == old(passwordMode)
      ensures cursorRow == old(cursorRow)
      ensures cursorCol == if old(cursorCol) > 0 then old(cursorCol) - 1 else 0
      ensures old(CursorValid()) ==> CursorValid()
    {
      if cursorCol > 0 {
        cursorCol := cursorCol - 1;
      }
    }

    /** `move_right`: one key right within the current row. */
    method MoveRight()
      modifies this
      ensures value == old(value) && layout == old(layout) && shift == old(shift)
      ensures maxLength == old(maxLength) && passwordMode == old(passwordMode)
      ensures cursorRow == old(cursorRow)
      ensures cursorRow < |Rows(layout)| && old(cursorCol) + 1 < |Rows(layout)[cursorRow]| ==>
        cursorCol == old(cursorCol) + 1
      ensures !(cursorRow < |Rows(layout)| && old(cursorCol) + 1 < |Rows(layout)[cursorRow]|) ==>
        cursorCol == old(cursorCol)
      ensures old(CursorValid()) ==> CursorValid()
    {
      var rows := Rows(layout);
      if cursorRow < |rows| {
        if cursorCol + 1 < |rows[cursorRow]| {
          cursorCol := cursorCol + 1;
        }
      }
    }

    /** `select_current`: press the key under the cursor, if there is one. */
    method SelectCurrent() returns (out: KeyboardOutput)
      modifies this
      ensures !old(CursorValid()) ==>
        out == Idle && value == old(value) && cursorRow == old(cursorRow) && cursorCol == old(cursorCol) &&
        layout == old(layout) && shift == old(shift)
      ensures old(CursorValid()) ==>
        KeyPressed(Rows(old(layout))[old(cursorRow)][old(cursorCol)], old(cursorRow), old(cursorCol), out)
      ensures maxLength == old(maxLength) && passwordMode == old(passwordMode)
    {
      var rows := Rows(layout);
      if cursorRow < |rows| {
        if cursorCol < |rows[cursorRow]| {
          out := HandleKeyPress(rows[cursorRow][cursorCol]);
          return;
        }
      }
      return Idle;
    }

    /** `backspace`: drop the last character, if any. */
    method Backspace() returns (out: KeyboardOutput)
      modifies this
      ensures old(value) == [] ==> out == Idle && value == []
      ensures old(value) != [] ==> value == old(value)[..|old(value)| - 1] && out == Input(value)
      ensures cursorRow == old(cursorRow) && cursorCol == old(cursorCol) && layout == old(layout) && shift == old(shift)
      ensures maxLength == old(maxLength) && passwordMode == old(passwordMode)
    {
      if value != [] {
        value := value[..|value| - 1];
        return Input(value);
      }
      return Idle;
    }

    /** `handle_message`: move the cursor to the pressed key and press it. */
    method HandleMessage(row: nat, col: nat) returns (out: KeyboardOutput)
      modifies this
      ensures !InBounds(Rows(old(layout)), row, col) ==>
        out == Idle && cursorRow == row && cursorCol == col &&
        value == old(value) && layout == old(layout) && shift == old(shift)
      ensures InBounds(Rows(old(layout)), row, col) ==> KeyPressed(Rows(old(layout))[row][col], row, col, out)
      ensures maxLength == old(maxLength) && passwordMode == old(passwordMode)
    {
      cursorRow, cursorCol := row, col;
      out := SelectCurrent();
    }

    /** `clamp_cursor`: pull an out-of-range row and column back to the last one. */
    method ClampCursor()
      modifies this
      ensures value == old(value) && layout == old(layout) && shift == old(shift)
      ensures maxLength == old(maxLength) && passwordMode == old(passwordMode)
      ensures cursorRow == if old(cursorRow) < |Rows(layout)| then old(cursorRow) else |Rows(layout)| - 1
      ensures cursorCol == if old(cursorCol) < |Rows(layout)[cursorRow]| then old(cursorCol) else |Rows(layout)[cursorRow]| - 1
      ensures CursorValid()
    {
      LayoutShape(layout);
      var rows := Rows(layout);
      if cursorRow >= |rows| {
        cursorRow := |rows| - 1;
      }
      if cursorCol >= |rows[cursorRow]| {
        cursorCol := |rows[cursorRow]| - 1;
      }
    }

    /**
     * What pressing `key` with the cursor at (`row0`, `col0`) does. A
     * character or space is refused at the length limit; shift and the
     * layout persist until their own keys are pressed.
     */
    twostate predicate KeyPressed(key: KeyDef, row0: nat, col0: nat, out: KeyboardOutput)
      reads this
    {
      && maxLength == old(maxLength) && passwordMode == old(passwordMode)
      && (key.keyType != ShiftKey ==> shift == old(shift))
      && (key.keyType != LayoutToggle ==> layout == old(layout) && cursorRow == row0 && cursorCol == col0)
      && ((key.keyType.Char? || key.keyType == SpaceKey) ==>
        if old(maxLength).Some? && Utf8.Len(old(value)) >= old(maxLength).value then
          out == Idle && value == old(value)
        else
          value == old(value) + [if key.keyType == SpaceKey then ' ' else if old(shift) then UpperChar(key.keyType.c) else key.keyType.c] &&
          out == Input(value))
      && (key.keyType == BackspaceKey ==>
        (old(value) == [] ==> out == Idle && value == []) &&
        (old(value) != [] ==> value == old(value)[..|old(value)| - 1] && out == Input(value)))
      && (key.keyType == SubmitKey ==> out == Submitted && value == old(value))
      && (key.keyType == ShiftKey ==> out == Idle && shift == !old(shift) && value == old(value))
      && (key.keyType == LayoutToggle ==>
        out == Idle && value == old(value) && layout == old(layout).Toggled() &&
        cursorRow == (if row0 < |Rows(layout)| then row0 else |Rows(layout)| - 1) &&
        cursorCol == (if col0 < |Rows(layout)[cursorRow]| then col0 else |Rows(layout)[cursorRow]| - 1) &&
        CursorValid())
    }

    /** `handle_key_press`. */
    method HandleKeyPress(key: KeyDef) returns (out: KeyboardOutput)
      modifies this
      ensures KeyPressed(key, old(cursorRow), old(cursorCol), out)
    {
      match key.keyType
      case Char(c) =>
        if maxLength.Some? && Utf8.Len(value) >= maxLength.value {
          return Idle;
        }
        var ch := if shift then UpperChar(c) else c;
        value := value + [ch];
        return Input(value);
      case SpaceKey =>
        if maxLength.Some? && Utf8.Len(value) >= maxLength.value {
          return Idle;
        }
        value := value + [' '];
        return Input(value);
      case BackspaceKey =>
        out := Backspace();
      case SubmitKey =>
        return Submitted;
      case ShiftKey =>
        shift := !shift;
        return Idle;
      case LayoutToggle =>
        layout := layout.Toggled();
        ClampCursor();
        return Idle;
    }
  }
}
