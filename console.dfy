// The drop-down console of src/ui/console.cpp.
//
// Line 0 is the input line and lines 1.. are the history, newest first.  Each
// line is shown by one label attached to a vertical ColoredBoard; the model
// keeps the labels' texts.  A wide character is a 16-bit code (wchar_t on
// Windows).  The key codes of input/keys.h are not part of this model: a key
// is one of the three the console reacts to, or another one.

module Consoles {
  import Boards

  newtype WChar = x: int | 0 <= x < 0x1_0000
  type WString = seq<WChar>

  datatype ConsoleKey = GraveAccent | Backspace | Enter | OtherKey

  /** What `Render` draws: the whole widget tree, or only the board's rectangle. */
  datatype RenderScope = WholeTree | BoardOnly

  /** `static_cast<U32>(height / text_height + 0.5f)`: the line count rounded to nearest. */
  function LineCount(height: real, textHeight: real): int
    requires textHeight > 0.0
  {
    (height / textHeight + 0.5).Floor
  }

  /** The lines once `AddString(text)` has run: the input line stays, `text` becomes the newest history line. */
  function Added(lines: seq<WString>, text: WString): (r: seq<WString>)
    requires |lines| >= 2
    ensures |r| == |lines| && r[0] == lines[0] && r[1] == text
    ensures forall i :: 2 <= i < |r| ==> r[i] == lines[i - 1]
  {
    [lines[0], text] + lines[1..|lines| - 1]
  }

  /** The lines once `InsertString` has run: every line moves down one, the last is dropped, input is empty. */
  function Inserted(lines: seq<WString>): (r: seq<WString>)
    requires |lines| >= 1
    ensures |r| == |lines| && r[0] == []
    ensures forall i :: 1 <= i < |r| ==> r[i] == lines[i - 1]
  {
    [[]] + lines[..|lines| - 1]
  }

  class Console {
    const board: Boards.ColoredBoard
    const maxLines: nat
    var lines: seq<WString>
    /** The text each label shows. */
    var labelText: seq<WString>
    var needToUpdateInput: bool
    var needToUpdateAll: bool

    ghost predicate Valid()
      reads this
    {
      maxLines > 0 && |lines| == maxLines && |labelText| == maxLines
    }

    /**
     * The constructor builds a vertical board that rests at the top of the
     * window (its maximum, 1.0) and slides down to `bottom`; it holds
     * `LineCount(1 - bottom, textHeight)` empty lines and as many empty
     * labels.  The count must be positive.
     */
    constructor (bottom: real, textHeight: real, velocity: real)
      requires textHeight > 0.0 && LineCount(1.0 - bottom, textHeight) > 0
      ensures Valid() && fresh(board)
      ensures maxLines == LineCount(1.0 - bottom, textHeight)
      ensures forall i :: 0 <= i < maxLines ==> lines[i] == [] && labelText[i] == []
      ensures board.minValue == bottom && board.maxValue == 1.0 && board.isVertical && board.IsPosMax()
      ensures !needToUpdateInput && !needToUpdateAll
    {
      board := new Boards.ColoredBoard(0.0, bottom, 1.0, velocity, false, true);
      maxLines := LineCount(1.0 - bottom, textHeight);
      lines := seq(LineCount(1.0 - bottom, textHeight), _ => []);
      labelText := seq(LineCount(1.0 - bottom, textHeight), _ => []);
      needToUpdateInput, needToUpdateAll := false, false;
    }

    /** `IsActive`: the console is down and at rest. */
    function IsActive(): (r: bool)
      reads this, board
      ensures r <==> !board.moveActive && board.movePositive
    {
      board.IsPosMin()
    }

    method Move()
      modifies board
      ensures board.moveActive && board.position == old(board.position) && board.movePositive == old(board.movePositive)
    {
      board.Move();
    }

    /** `AddString(text)`: `text` becomes the newest history line; it needs at least two lines. */
    method AddString(text: WString)
      requires Valid() && maxLines >= 2
      modifies this
      ensures Valid() && lines == Added(old(lines), text)
      ensures labelText == old(labelText) && needToUpdateAll && needToUpdateInput == old(needToUpdateInput)
    {
      var i := 0;
      while i < maxLines - 2
        invariant 0 <= i <= maxLines - 2 && |lines| == maxLines
        invariant forall j :: 0 <= j < maxLines - i ==> lines[j] == old(lines)[j]
        invariant forall j :: maxLines - i <= j < maxLines ==> lines[j] == old(lines)[j - 1]
        invariant labelText == old(labelText) && needToUpdateInput == old(needToUpdateInput)
      {
        var index := maxLines - 1 - i;
        lines := lines[index := lines[index - 1]];
        i := i + 1;
      }
      lines := lines[1 := text];
      needToUpdateAll := true;
    }

    /**
     * `Update(sec)`: when all lines are pending every label is refreshed and
     * that flag cleared; otherwise a pending input line refreshes label 0
     * and clears its flag.  The board then takes its own step.
     */
    method Update(sec: real)
      requires Valid()
      modifies this, board
      ensures Valid() && lines == old(lines)
      ensures old(needToUpdateAll) ==> labelText == lines && !needToUpdateAll && needToUpdateInput == old(needToUpdateInput)
      ensures !old(needToUpdateAll) && old(needToUpdateInput) ==>
        labelText == old(labelText)[0 := lines[0]] && !needToUpdateInput && !needToUpdateAll
      ensures !old(needToUpdateAll) && !old(needToUpdateInput) ==> labelText == old(labelText) && !needToUpdateAll && !needToUpdateInput
      ensures !old(board.moveActive) ==>
        board.position == old(board.position) && !board.moveActive && board.movePositive == old(board.movePositive)
      ensures old(board.moveActive) ==>
        Boards.Axis(board.position, board.isVertical) ==
        board.Slide(Boards.Axis(old(board.position), board.isVertical), old(board.movePositive), sec)
    {
      if needToUpdateAll {
        var i := 0;
        while i < maxLines
          invariant 0 <= i <= maxLines && |labelText| == maxLines && lines == old(lines)
          invariant labelText[..i] == lines[..i] && labelText[i..] == old(labelText)[i..]
          invariant needToUpdateInput == old(needToUpdateInput) && unchanged(board)
        {
          labelText := labelText[i := lines[i]];
          i := i + 1;
        }
        needToUpdateAll := false;
      } else if needToUpdateInput {
        labelText := labelText[0 := lines[0]];
        needToUpdateInput := false;
      }
      board.Update(sec);
    }

    /** `Render`: the whole tree while the console is down and at rest, otherwise only the board. */
    function Render(): (scope: RenderScope)
      reads this, board
      ensures scope == WholeTree <==> IsActive()
    {
      if board.IsPosMin() then WholeTree else BoardOnly
    }

    /**
     * `ProcessKeyInput`: the grave accent without shift moves the console,
     * backspace removes a symbol, enter pushes the input line; other keys
     * change nothing.
     */
    method ProcessKeyInput(key: ConsoleKey, shift: bool)
      requires Valid()
      modifies this, board
      ensures Valid()
      ensures key == GraveAccent && !shift ==>
        board.moveActive && lines == old(lines) && needToUpdateInput == old(needToUpdateInput)
      ensures key == Backspace ==> lines == old(lines)[0 := Dropped(old(lines)[0])] && unchanged(board)
      ensures key == Enter ==> lines == Inserted(old(lines)) && needToUpdateAll && unchanged(board)
      ensures (key == GraveAccent && shift) || key == OtherKey ==>
        lines == old(lines) && needToUpdateInput == old(needToUpdateInput) && needToUpdateAll == old(needToUpdateAll) && unchanged(board)
    {
      if key == GraveAccent && !shift {
        Move();
      } else if key == Backspace {
        RemoveSymbol();
      } else if key == Enter {
        PushString();
      }
    }

    /** `ProcessCharInput`: the character is appended to the input line. */
    method ProcessCharInput(code: WChar)
      requires Valid()
      modifies this
      ensures Valid() && lines == old(lines)[0 := old(lines)[0] + [code]] && needToUpdateInput
      ensures needToUpdateAll == old(needToUpdateAll) && labelText == old(labelText)
    {
      InsertSymbol(code);
    }

    method InsertSymbol(symbol: WChar)
      requires Valid()
      modifies this
      ensures Valid() && lines == old(lines)[0 := old(lines)[0] + [symbol]] && needToUpdateInput
      ensures needToUpdateAll == old(needToUpdateAll) && labelText == old(labelText)
    {
      lines := lines[0 := lines[0] + [symbol]];
      needToUpdateInput := true;
    }

    /** `RemoveSymbol`: the last symbol of a non-empty input line goes; an empty one stays as it is. */
    method RemoveSymbol()
      requires Valid()
      modifies this
      ensures Valid() && lines == old(lines)[0 := Dropped(old(lines)[0])]
      ensures needToUpdateInput == (old(needToUpdateInput) || old(lines)[0] != [])
      ensures needToUpdateAll == old(needToUpdateAll) && labelText == old(labelText)
    {
      if lines[0] != [] {
        lines := lines[0 := lines[0][..|lines[0]| - 1]];
        needToUpdateInput := true;
      }
    }

    /** `PushString`: `RecognizeString` (which does nothing here) and then `InsertString`. */
    method PushString()
      requires Valid()
      modifies this
      ensures Valid() && lines == Inserted(old(lines)) && needToUpdateAll
      ensures needToUpdateInput == old(needToUpdateInput) && labelText == old(labelText)
    {
      RecognizeString();
      InsertString();
    }

    method RecognizeString()
    {
    }

    method InsertString()
      requires Valid()
      modifies this
      ensures Valid() && lines == Inserted(old(lines)) && needToUpdateAll
      ensures needToUpdateInput == old(needToUpdateInput) && labelText == old(labelText)
    {
      var i := 0;
      while i < maxLines - 1
        invariant 0 <= i <= maxLines - 1 && |lines| == maxLines
        invariant forall j :: 0 <= j < maxLines - i ==> lines[j] == old(lines)[j]
        invariant forall j :: maxLines - i <= j < maxLines ==> lines[j] == old(lines)[j - 1]
        invariant labelText == old(labelText) && needToUpdateInput == old(needToUpdateInput)
      {
        var index := maxLines - 1 - i;
        lines := lines[index := lines[index - 1]];
        i := i + 1;
      }
      lines := lines[0 := []];
      needToUpdateAll := true;
    }
  }

  /** A string with its last symbol removed; the empty string stays empty. */
  function Dropped(s: WString): (r: WString)
    ensures s == [] ==> r == []
    ensures s != [] ==> r + [s[|s| - 1]] == s
  {
    if s == [] then [] else s[..|s| - 1]
  }

  /** Typing a symbol and then removing it gives back the input line. */
  lemma DroppedUndoesAppend(s: WString, c: WChar)
    ensures Dropped(s + [c]) == s
  {
    assert (s + [c])[..|s|] == s;
  }

  /** Typed text, once entered, becomes the newest history line and the input is empty again. */
  method ConsoleScenario()
  {
    var c := new Console(0.0, 0.25, 1.0);
    assert LineCount(1.0, 0.25) == 4;
    c.ProcessCharInput(104);
    c.ProcessCharInput(105);
    c.ProcessKeyInput(Backspace, false);
    assert c.lines[0] == [104];
    c.ProcessKeyInput(Enter, false);
    assert c.lines == [[], [104], [], []];
    c.AddString([120]);
    assert c.lines == [[], [120], [104], []];
    c.Update(0.0);
    assert c.labelText == c.lines;
    assert c.Render() == BoardOnly;
  }
}
