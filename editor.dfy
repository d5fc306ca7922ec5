/** What one key does inside `Repl::next` (`src/repl.rs`): the key-dispatch body of the input
    loop as a function from the state before the key to the state after it and the outcome.
    The language's indent rule is a parameter. */
module Editor {
  import opened Text
  import HS = HistoryStore
  import opened EditorState
  import opened Navigation
  import opened Prompt

  /** The key events the loop distinguishes; `ctrl` is whether Control was held. */
  datatype Key =
    | Char(ch: char, ctrl: bool)
    | Tab | Enter | Backspace | Delete
    | Home | End | Left | Right | Up | Down | PageUp | PageDown
    | Esc
    | Other

  /** A key that moves the cursor without editing or switching commands. */
  predicate IsMotion(key: Key)
  {
    key.Home? || key.End? || key.Left? || key.Right? || key.Up? || key.Down?
  }

  /** A printable character: at char position `charno` (clamped to the line), then one right. */
  function InsertChar(ed: Ed, ch: char): (r: Stepped)
    requires Inv(ed)
    ensures r.out.Continue? && Inv(r.ed)
    ensures ColumnOk(ed) ==> ColumnOk(r.ed)
  {
    var e := Materialise(ed);
    var k := e.c.lineno;
    Stepped(e.(lines := e.lines[k := InsertAt(e.lines[k], e.c.charno, ch)],
               c := e.c.(charno := e.c.charno + 1)), Continue)
  }

  /** Tab: four spaces at `charno` taken as a byte offset, then four right; a byte offset
      that is not a character boundary of the line panics. */
  function InsertTab(ed: Ed): (r: Stepped)
    requires Inv(ed)
    ensures r.out.Continue? || r.out.Panic?
    ensures r.out.Continue? ==> Inv(r.ed) && (ColumnOk(ed) ==> ColumnOk(r.ed))
    ensures r.out.Panic? <==> CharAtByte(CurLine(ed), ed.c.charno).None?
    ensures r.out.Panic? ==> r.ed == ed
    ensures var at := CharAtByte(CurLine(ed), ed.c.charno);
      var a := Active(ed);
      var k := ed.c.lineno;
      at.Some? ==>
        r.ed.lines == a[k := a[k][..at.value] + "    " + a[k][at.value..]] &&
        r.ed.c == Cursor(false, k, ed.c.charno + 4) &&
        r.ed.h.buffer == ed.h.buffer
  {
    var e := Materialise(ed);
    var k := e.c.lineno;
    var line := e.lines[k];
    match CharAtByte(line, e.c.charno)
    case None => Stepped(ed, Panic)
    case Some(j) =>
      assert ColumnOk(ed) ==> j <= e.c.charno by {
        ByteLenVersusCount(line[..j]);
      }
      Stepped(e.(lines := e.lines[k := line[..j] + "    " + line[j..]],
                 c := e.c.(charno := e.c.charno + 4)), Continue)
  }

  /** Backspace inside a line: the character before the cursor goes; one past the end of the
      line panics. */
  function DeletePrevChar(ed: Ed): (r: Stepped)
    requires Inv(ed) && ed.c.charno > 0
    ensures r.out.Continue? || r.out.Panic?
    ensures r.out.Panic? <==> ed.c.charno > |CurLine(ed)|
    ensures r.out.Continue? ==> Inv(r.ed) && ColumnOk(r.ed)
  {
    var e := Materialise(ed);
    var k := e.c.lineno;
    var line := e.lines[k];
    var i := e.c.charno - 1;
    if i < |line| then
      Stepped(e.(lines := e.lines[k := RemoveAt(line, i)], c := e.c.(charno := i)), Continue)
    else Stepped(ed, Panic)
  }

  /** Backspace at column 0 of a line below the first: the line is appended to the one above. */
  function JoinWithPrevious(ed: Ed): (r: Stepped)
    requires Inv(ed) && ed.c.lineno > 0
    ensures r.out.Continue? && Inv(r.ed) && ColumnOk(r.ed)
  {
    var e := Materialise(ed);
    var k := e.c.lineno;
    var joined := e.lines[k - 1] + e.lines[k];
    var lines := e.lines[..k - 1] + [joined] + e.lines[k + 1..];
    Stepped(e.(lines := lines, c := PrintClamp(lines, Cursor(false, k - 1, |e.lines[k - 1]|))),
            Continue)
  }

  /** Delete inside a line: the character under the cursor goes. */
  function DeleteChar(ed: Ed): (r: Stepped)
    requires Inv(ed) && ed.c.charno < |CurLine(ed)|
    ensures r.out.Continue? && Inv(r.ed) && ColumnOk(r.ed)
  {
    var e := Materialise(ed);
    var k := e.c.lineno;
    Stepped(e.(lines := e.lines[k := RemoveAt(e.lines[k], e.c.charno)]), Continue)
  }

  /** Delete at the end of a line above the last: the next line is appended to it. */
  function JoinWithNext(ed: Ed): (r: Stepped)
    requires Inv(ed) && ed.c.lineno + 1 < |Active(ed)|
    ensures r.out.Continue? && Inv(r.ed) && ColumnOk(r.ed)
  {
    var e := Materialise(ed);
    var k := e.c.lineno;
    var joined := e.lines[k] + e.lines[k + 1];
    var lines := e.lines[..k] + [joined] + e.lines[k + 2..];
    Stepped(e.(lines := lines, c := PrintClamp(lines, e.c)), Continue)
  }

  /** Ctrl-L: the screen is redrawn, which clamps the column against the first line and then
      against the cursor's own line. */
  function Redraw(ed: Ed): (r: Stepped)
    requires Inv(ed)
    ensures r.out.Continue? && Inv(r.ed) && ColumnOk(r.ed)
    ensures r.ed.lines == ed.lines && r.ed.h == ed.h
    ensures r.ed.c ==
      ed.c.(charno := Min(Min(ed.c.charno, |Active(ed)[0]|), |Active(ed)[ed.c.lineno]|))
  {
    var a := Active(ed);
    var shown := PrintClamp(a, ed.c.(lineno := 0));
    Stepped(ed.(c := shown.(lineno := ed.c.lineno, charno := Min(shown.charno, |a[ed.c.lineno]|))),
            Continue)
  }

  /** Up below the first line: one line up, the column clamped to it. */
  function LineUp(ed: Ed): (r: Stepped)
    requires Inv(ed) && ed.c.lineno > 0
    ensures r.out.Continue? && Inv(r.ed) && ColumnOk(r.ed)
    ensures r.ed.lines == ed.lines && r.ed.h == ed.h
    ensures r.ed.c == ed.c.(lineno := ed.c.lineno - 1,
                            charno := Min(|Active(ed)[ed.c.lineno - 1]|, ed.c.charno))
  {
    var ln := ed.c.lineno - 1;
    Stepped(ed.(c := ed.c.(lineno := ln, charno := Min(|Active(ed)[ln]|, ed.c.charno))), Continue)
  }

  /** Down above the last line: one line down, the column clamped to it. */
  function LineDown(ed: Ed): (r: Stepped)
    requires Inv(ed) && ed.c.lineno + 1 < |Active(ed)|
    ensures r.out.Continue? && Inv(r.ed) && ColumnOk(r.ed)
    ensures r.ed.lines == ed.lines && r.ed.h == ed.h
    ensures r.ed.c == ed.c.(lineno := ed.c.lineno + 1,
                            charno := Min(|Active(ed)[ed.c.lineno + 1]|, ed.c.charno))
  {
    var ln := ed.c.lineno + 1;
    Stepped(ed.(c := ed.c.(lineno := ln, charno := Min(|Active(ed)[ln]|, ed.c.charno))), Continue)
  }

  /** The end of the input cycle: the shown lines are joined with newlines and returned, pushed
      to the history, and the live lines and cursor are reset. */
  function Submit(ed: Ed): (r: Stepped)
    requires Inv(ed)
    ensures r.out.Return? && r.ed.lines == [] && r.ed.c == Origin && EntryOk(r.ed.h)
    ensures r.out == Return(Join(Active(ed), '\n')) && r.ed.h == HS.Push(ed.h, Active(ed))
  {
    var a := Active(ed);
    Stepped(Ed([], Origin, HS.Push(ed.h, a)), Return(Join(a, '\n')))
  }

  /** Enter that continues the command: a new line of `k` spaces below the cursor's line,
      with the cursor at its end. */
  function OpenLine(ed: Ed, k: nat): (r: Stepped)
    requires Inv(ed)
    ensures r.out.Continue? && Inv(r.ed) && ColumnOk(r.ed)
  {
    var e := Materialise(ed);
    var n := e.c.lineno + 1;
    var lines := e.lines[..n] + [Spaces(k)] + e.lines[n..];
    Stepped(e.(lines := lines, c := PrintClamp(lines, Cursor(false, n, k))), Continue)
  }

  /** Enter: detach when attached; nothing on a blank first line; the clear keyword empties the
      line; otherwise submit on the last line of a browsed command, or on the last live line
      when the indent rule gives 0, and open an indented line everywhere else. */
  function EnterKey(cfg: Config, ed: Ed, indent: seq<string> -> nat): (r: Stepped)
    requires Inv(ed)
    ensures !r.out.Panic?
    ensures r.out.Continue? ==> Inv(r.ed) && (ColumnOk(ed) ==> ColumnOk(r.ed))
    ensures r.out.Return? ==> r.ed.lines == [] && r.ed.c == Origin && EntryOk(r.ed.h)
    ensures r.out.Continue? ==> r.ed.h.buffer == ed.h.buffer
    ensures r.out.Return? && cfg.attached.None? ==> r.ed.h == HS.Push(ed.h, Active(ed))
  {
    var a := Active(ed);
    if cfg.attached.Some? then Stepped(Reset(ed), Return("detach"))
    else if IsBlank(a[0]) then Stepped(ed, Continue)
    else if !ed.c.useHistory && |ed.lines| == 1 && ed.lines[0] == cfg.clearKeyword then
      Stepped(ed.(lines := [""], c := ed.c.(charno := 0)), Continue)
    else if ed.c.useHistory && ed.c.lineno + 1 == |a| then Submit(ed)
    else
      var k := indent(a[..ed.c.lineno + 1]);
      if !ed.c.useHistory && ed.c.lineno + 1 == |ed.lines| && k == 0 then Submit(ed)
      else OpenLine(ed, k)
  }

  /** One key of the input loop. */
  function Step(cfg: Config, ed: Ed, key: Key, indent: seq<string> -> nat): (r: Stepped)
    requires Inv(ed)
    ensures r.out.Continue? ==> Inv(r.ed)
    ensures r.out.Return? ==> r.ed.lines == [] && r.ed.c == Origin && SessionInv(r.ed)
    ensures r.out.Continue? && ColumnOk(ed) && !key.PageUp? && !key.PageDown? ==> ColumnOk(r.ed)
  {
    match key
    case Char(ch, ctrl) =>
      if ctrl && ch == 'c' then Stepped(Reset(ed), Return("exit"))
      else if ctrl && ch == 'd' then Stepped(Reset(ed), Return("detach"))
      else if ctrl && ch == 'l' then Redraw(ed)
      else InsertChar(ed, ch)
    case Esc => Stepped(Reset(ed), Return("back"))
    case Tab => InsertTab(ed)
    case Home => Stepped(ed.(c := ed.c.(charno := 0)), Continue)
    case End => Stepped(ed.(c := ed.c.(charno := |CurLine(ed)|)), Continue)
    case Left =>
      if ed.c.charno > 0 then Stepped(ed.(c := ed.c.(charno := ed.c.charno - 1)), Continue)
      else Stepped(ed, Continue)
    case Right =>
      if ed.c.charno < |CurLine(ed)| then Stepped(ed.(c := ed.c.(charno := ed.c.charno + 1)), Continue)
      else Stepped(ed, Continue)
    case PageUp => HistoryUpRetain(ed)
    case Up => if ed.c.lineno == 0 then HistoryUp(ed) else LineUp(ed)
    case PageDown => HistoryDownRetain(ed)
    case Down =>
      if ed.c.useHistory && ed.c.lineno + 1 == |Active(ed)| then HistoryDown(ed)
      else if !ed.c.useHistory && ed.c.lineno + 1 == |ed.lines| then Stepped(ed, Continue)
      else LineDown(ed)
    case Backspace =>
      if ed.c.charno > 0 then DeletePrevChar(ed)
      else if ed.c.lineno > 0 then JoinWithPrevious(ed)
      else Stepped(ed, Continue)
    case Delete =>
      if ed.c.charno < |CurLine(ed)| then DeleteChar(ed)
      else if ed.c.lineno + 1 < |Active(ed)| then JoinWithNext(ed)
      else Stepped(ed, Continue)
    case Enter => EnterKey(cfg, ed, indent)
    case Other => Stepped(ed, Continue)
  }

  /** What `next` does before its loop: an empty set of live lines gets one empty line. */
  function Begin(ed: Ed): (r: Ed)
    requires SessionInv(ed)
    ensures Inv(r) && r.h == ed.h && r.c == ed.c
    ensures ed.lines == [] ==> r.lines == [""]
    ensures ed.lines != [] ==> r.lines == ed.lines
  {
    if ed.lines == [] then ed.(lines := [""]) else ed
  }

  /** How one call of `next` ends on a finite list of keys: it returns, a key panics, or the
      keys run out while it is still waiting for the next one. */
  datatype Ending = Returned(value: string) | Panicked | Pending

  /** The state the call leaves, how it ended, and how many keys it read. */
  datatype Run = Run(ed: Ed, ending: Ending, used: nat)

  /** The input loop of `next` over `keys`, from a running state. */
  function RunKeys(cfg: Config, ed: Ed, keys: seq<Key>, indent: seq<string> -> nat): (r: Run)
    requires Inv(ed)
    ensures r.used <= |keys|
    ensures r.ending.Pending? ==> Inv(r.ed) && r.used == |keys|
    ensures !r.ending.Pending? ==> r.used >= 1
    ensures r.ending.Returned? ==> r.ed.lines == [] && r.ed.c == Origin && SessionInv(r.ed)
    decreases |keys|
  {
    if keys == [] then Run(ed, Pending, 0)
    else
      var s := Step(cfg, ed, keys[0], indent);
      match s.out
      case Continue =>
        var r := RunKeys(cfg, s.ed, keys[1..], indent);
        r.(used := r.used + 1)
      case Return(v) => Run(s.ed, Returned(v), 1)
      case Panic => Run(s.ed, Panicked, 1)
  }
}
