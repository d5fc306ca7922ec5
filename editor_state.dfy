/** The logical state of one input cycle of the REPL (`src/repl.rs`): the live lines, the
    cursor, and the history it may be browsing. Terminal painting is not part of it. */
module EditorState {
  import opened Text
  import HS = HistoryStore

  /** `Cursor`: whether a history entry is shown instead of the live lines, and the line and
      character (not byte) the cursor is on. */
  datatype Cursor = Cursor(useHistory: bool, lineno: nat, charno: nat)

  /** `Cursor::default()`. */
  const Origin := Cursor(false, 0, 0)

  /** The live lines, the cursor and the history store. */
  datatype Ed = Ed(lines: seq<string>, c: Cursor, h: HS.Store)

  /** What one key does to the input cycle: it goes on, it returns a string (a submitted
      command or a sentinel), or the source panics (an index out of range). */
  datatype Outcome = Continue | Return(value: string) | Panic

  datatype Stepped = Stepped(ed: Ed, out: Outcome)

  /** While browsing, the history index points at an entry. */
  predicate Browsable(ed: Ed)
  {
    HS.Valid(ed.h) && (ed.c.useHistory ==> ed.h.index >= 0)
  }

  /** `cur`: the lines the cursor is on, the browsed entry or the live lines. */
  function Active(ed: Ed): (r: seq<string>)
    requires Browsable(ed)
    ensures ed.c.useHistory ==> HS.Cur(ed.h) == Some(r)
    ensures !ed.c.useHistory ==> r == ed.lines
  {
    if ed.c.useHistory then ed.h.buffer[ed.h.index] else ed.lines
  }

  /** The entry under the history index, if any, has a line (landing on an empty entry panics). */
  predicate EntryOk(h: HS.Store)
  {
    HS.Valid(h) && (h.index >= 0 ==> |h.buffer[h.index]| >= 1)
  }

  /** The invariant of a running input cycle. The column is not part of it: the retaining
      history jumps can leave it past the end of the line. */
  predicate Inv(ed: Ed)
  {
    Browsable(ed) && EntryOk(ed.h) && |ed.lines| >= 1 && ed.c.lineno < |Active(ed)|
  }

  /** The cursor column is within the active line. */
  predicate ColumnOk(ed: Ed)
    requires Inv(ed)
  {
    ed.c.charno <= |Active(ed)[ed.c.lineno]|
  }

  /** `cur_str`: the line the cursor is on. */
  function CurLine(ed: Ed): (r: string)
    requires Inv(ed)
    ensures ColumnOk(ed) <==> ed.c.charno <= |r|
    ensures ed.c.useHistory ==> r == HS.Cur(ed.h).value[ed.c.lineno]
    ensures !ed.c.useHistory ==> r == ed.lines[ed.c.lineno]
  {
    Active(ed)[ed.c.lineno]
  }

  /** Between input cycles the lines are empty and the cursor is at its default. */
  predicate SessionInv(ed: Ed)
  {
    EntryOk(ed.h) && (ed.lines == [] ==> ed.c == Origin) && (ed.lines != [] ==> Inv(ed))
  }

  /** `reset_lines`. */
  function Reset(ed: Ed): (r: Ed)
    ensures r.lines == [] && r.c == Origin && r.h == ed.h
  {
    ed.(lines := [], c := Origin)
  }

  /** What every edit does first while browsing (`replace_with_history` and clearing
      `use_history`): the live lines become an exact copy of the browsed entry, browsing
      stops, and the entry itself is left as it was. */
  function Materialise(ed: Ed): (r: Ed)
    requires Browsable(ed)
    ensures r.lines == Active(ed) && !r.c.useHistory
    ensures r.c.lineno == ed.c.lineno && r.c.charno == ed.c.charno
    ensures r.h.buffer == ed.h.buffer && r.h.cap == ed.h.cap && HS.Valid(r.h)
    ensures ed.c.useHistory ==> r.h.index == -1
    ensures !ed.c.useHistory ==> r == ed
  {
    if ed.c.useHistory then
      Ed(Active(ed), ed.c.(useHistory := false), HS.ResetIter(ed.h))
    else ed
  }

  lemma MaterialiseKeepsInv(ed: Ed)
    requires Inv(ed)
    ensures Inv(Materialise(ed)) && Active(Materialise(ed)) == Active(ed)
    ensures ColumnOk(ed) ==> ColumnOk(Materialise(ed))
  {
  }

  /** The column snap of the history macros: the end of the target line when the column was
      0 or past that end. */
  function Snap(charno: nat, n: nat): (r: nat)
    ensures r <= n
    ensures 0 < charno <= n ==> r == charno
    ensures charno == 0 || charno > n ==> r == n
  {
    if charno == 0 || charno > n then n else charno
  }

  /** The column clamp `print_lines` applies against the line the cursor is on in `lines`. */
  function PrintClamp(lines: seq<string>, c: Cursor): (r: Cursor)
    requires c.lineno < |lines|
    ensures r.useHistory == c.useHistory && r.lineno == c.lineno
    ensures r.charno <= |lines[c.lineno]| && r.charno <= c.charno
    ensures c.charno <= |lines[c.lineno]| ==> r == c
  {
    c.(charno := Min(c.charno, |lines[c.lineno]|))
  }
}
