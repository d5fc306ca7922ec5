/** The history navigation macros of `src/macros.rs`: `history_up!` and `history_down!`, each
    with its `retain` form, which keeps the cursor's line where the target allows. They move
    the history index and the cursor; they never touch the live lines. */
module Navigation {
  import opened Text
  import HS = HistoryStore
  import opened EditorState

  /** `history_up!`, used by Up on the first line: show the next older command with the cursor
      on its last line, or stay on the browsed one, or on the live lines when there is none.
      Landing on an empty command panics in `print_lines`. */
  function HistoryUp(ed: Ed): (r: Stepped)
    requires Inv(ed) && ed.c.lineno == 0
    ensures r.ed.lines == ed.lines && r.ed.h.buffer == ed.h.buffer && r.ed.h.cap == ed.h.cap
    ensures r.out.Continue? || r.out.Panic?
    ensures r.out.Continue? ==> Inv(r.ed) && ColumnOk(r.ed)
    ensures r.out.Continue? && ed.c.charno == 0 ==> r.ed.c.charno == |CurLine(r.ed)|
    ensures var nav := HS.Prev(ed.h);
      nav.got.Some? ==>
        (r.out.Panic? <==> nav.got.value == []) &&
        (r.out.Continue? ==>
          r.ed.c.useHistory && r.ed.h == nav.store && Active(r.ed) == nav.got.value &&
          r.ed.c.lineno == |nav.got.value| - 1 &&
          r.ed.c.charno ==
            Snap(Min(ed.c.charno, |nav.got.value[0]|), |nav.got.value[|nav.got.value| - 1]|))
    ensures HS.Prev(ed.h).got.None? ==>
      r.out.Continue? && r.ed.h == ed.h && r.ed.c.lineno == 0 &&
      (r.ed.c.useHistory <==> ed.h.index >= 0) &&
      r.ed.c.charno == Snap(ed.c.charno, |CurLine(r.ed)|)
  {
    var nav := HS.Prev(ed.h);
    match nav.got
    case Some(s) =>
      if |s| == 0 then Stepped(ed, Panic)
      else
        var shown := PrintClamp(s, ed.c.(lineno := 0));
        var ln := |s| - 1;
        Stepped(Ed(ed.lines, Cursor(true, ln, Snap(shown.charno, |s[ln]|)), nav.store), Continue)
    case None =>
      match HS.Cur(ed.h)
      case Some(s) => Stepped(ed.(c := Cursor(true, 0, Snap(ed.c.charno, |s[0]|))), Continue)
      case None => Stepped(ed.(c := Cursor(false, 0, Snap(ed.c.charno, |ed.lines[0]|))), Continue)
  }

  /** `history_up!(retain ...)`, used by PageUp: `history_up!` from the first line, then back to
      the original line if the target is at least that long. The column is not clamped again. */
  function HistoryUpRetain(ed: Ed): (r: Stepped)
    requires Inv(ed)
    ensures r.ed.lines == ed.lines && r.ed.h.buffer == ed.h.buffer && r.ed.h.cap == ed.h.cap
    ensures r.out.Continue? || r.out.Panic?
    ensures r.out.Continue? ==> Inv(r.ed) && r.ed.c.lineno <= ed.c.lineno
    ensures var nav := HS.Prev(ed.h);
      nav.got.Some? ==>
        (r.out.Panic? <==> nav.got.value == []) &&
        (r.out.Continue? ==>
          r.ed.c.useHistory && r.ed.h == nav.store && Active(r.ed) == nav.got.value &&
          r.ed.c.lineno == Min(ed.c.lineno, |nav.got.value| - 1))
    ensures HS.Prev(ed.h).got.None? ==>
      r.out.Continue? && r.ed.h == ed.h && r.ed.c.lineno == 0 &&
      (r.ed.c.useHistory <==> ed.h.index >= 0)
    ensures r.out.Continue? ==> r.ed.c.charno == HistoryUp(ed.(c := ed.c.(lineno := 0))).ed.c.charno
  {
    var up := HistoryUp(ed.(c := ed.c.(lineno := 0)));
    if up.out.Continue? && ed.c.lineno < up.ed.c.lineno then
      Stepped(up.ed.(c := up.ed.c.(lineno := ed.c.lineno)), Continue)
    else up
  }

  /** `history_down!`, used by Down on the last line of a browsed command: show the next newer
      command, or the live lines once the newest has been passed, with the cursor on the first
      line. Landing on an empty command panics in `print_lines`. */
  function HistoryDown(ed: Ed): (r: Stepped)
    requires Inv(ed)
    ensures r.ed.lines == ed.lines && r.ed.h.buffer == ed.h.buffer && r.ed.h.cap == ed.h.cap
    ensures r.out.Continue? || r.out.Panic?
    ensures r.out.Continue? ==> Inv(r.ed) && r.ed.c.lineno == 0 && r.ed.h == HS.Next(ed.h).store
    ensures var nav := HS.Next(ed.h);
      nav.got.Some? ==>
        (r.out.Panic? <==> nav.got.value == []) &&
        (r.out.Continue? ==> r.ed.c.useHistory == ed.c.useHistory)
    ensures HS.Next(ed.h).got.None? ==> r.out.Continue? && !r.ed.c.useHistory
    ensures r.out.Continue? && (ed.c.useHistory || HS.Next(ed.h).got.None?) ==>
      ColumnOk(r.ed) &&
      (ed.c.charno == 0 || ed.c.charno > |CurLine(r.ed)| ==> r.ed.c.charno == |CurLine(r.ed)|) &&
      (0 < ed.c.charno <= |CurLine(r.ed)| ==> r.ed.c.charno == ed.c.charno)
    ensures var nav := HS.Next(ed.h);
      var shown := if nav.got.Some? then nav.got.value else ed.lines;
      r.out.Continue? ==> |shown| >= 1 && r.ed.c.charno == Snap(ed.c.charno, |shown[0]|)
  {
    var nav := HS.Next(ed.h);
    var useHistory := nav.got.Some? && ed.c.useHistory;
    var target := if nav.got.Some? then nav.got.value else ed.lines;
    if |target| == 0 then Stepped(ed, Panic)
    else
      var shown := PrintClamp(target, ed.c.(lineno := 0));
      Stepped(Ed(ed.lines, Cursor(useHistory, 0, Snap(shown.charno, |target[0]|)), nav.store),
              Continue)
  }

  /** `history_down!(retain ...)`, used by PageDown: `history_down!`, then back to the original
      line if the lines now shown are at least that long. The column is not clamped again. */
  function HistoryDownRetain(ed: Ed): (r: Stepped)
    requires Inv(ed)
    ensures r.ed.lines == ed.lines && r.ed.h.buffer == ed.h.buffer && r.ed.h.cap == ed.h.cap
    ensures r.out == HistoryDown(ed).out
    ensures r.out.Continue? ==>
      Inv(r.ed) && r.ed.h == HS.Next(ed.h).store &&
      r.ed.c.useHistory == HistoryDown(ed).ed.c.useHistory &&
      r.ed.c.lineno == Min(ed.c.lineno, |Active(r.ed)| - 1) &&
      r.ed.c.charno == HistoryDown(ed).ed.c.charno
  {
    var down := HistoryDown(ed);
    if down.out.Panic? then down
    else
      var ln := Min(ed.c.lineno, |Active(down.ed)| - 1);
      if ln > 0 then Stepped(down.ed.(c := down.ed.c.(lineno := ln)), Continue) else down
  }

  /** Up clamps the column against the first line of the older command before moving to its
      last line: from column 3 of `abcdef`, Up onto `x`/`wxyz` lands at column 1, not 3. */
  lemma UpClampsAgainstFirstLine()
    ensures var ed := Ed(["abcdef"], Cursor(false, 0, 3), HS.Store([["x", "wxyz"]], -1, 2));
      Inv(ed) && ColumnOk(ed) &&
      var r := HistoryUp(ed);
      r.out.Continue? && r.ed.c == Cursor(true, 1, 1)
  {
  }

  /** From a stale history index (left by a sentinel key) while not browsing, PageDown snaps
      the column against the newer command's first line, which is what `print_lines` paints,
      but the live lines stay the ones edited: from column 0 of the live line `a`, with the
      index on `q`, the cursor ends at column 6, the length of `abcdef`. */
  lemma StaleDownSnapsToShownLine()
    ensures var ed := Ed(["a"], Origin, HS.Store([["abcdef"], ["q"]], 1, 2));
      Inv(ed) && ColumnOk(ed) &&
      var r := HistoryDownRetain(ed);
      r.out.Continue? && !r.ed.c.useHistory && Active(r.ed) == ["a"] &&
      r.ed.c == Cursor(false, 0, 6) && !ColumnOk(r.ed)
  {
  }

  /** PageUp can leave the column past the end of the line it keeps: the command `a`/`wxyz`
      is entered at its last line's end (column 4) and the cursor is then moved back to line 0. */
  lemma PageUpLeavesColumnPastLine()
    ensures var ed := Ed([""], Origin, HS.Store([["a", "wxyz"]], -1, 2));
      Inv(ed) && ColumnOk(ed) &&
      var r := HistoryUpRetain(ed);
      r.out.Continue? && Inv(r.ed) && r.ed.c == Cursor(true, 0, 4) && !ColumnOk(r.ed)
  {
  }

  /** PageDown can do the same: from column 4 of `qqqq`, the newer command `abcdef`/`x` keeps
      column 4, and the cursor goes back to line 1, which is `x`. */
  lemma PageDownLeavesColumnPastLine()
    ensures var ed := Ed(["p"], Cursor(true, 1, 4), HS.Store([["abcdef", "x"], ["p", "qqqq"]], 1, 2));
      Inv(ed) && ColumnOk(ed) &&
      var r := HistoryDownRetain(ed);
      r.out.Continue? && Inv(r.ed) && r.ed.c == Cursor(true, 1, 4) && !ColumnOk(r.ed)
  {
  }
}
