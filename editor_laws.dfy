/** Properties of the key-dispatch step of `Repl::next` (`src/repl.rs`): what each edit does to
    the lines, which edits undo each other, what Enter submits, and which keys keep the cursor
    inside its line. */
module EditorLaws {
  import opened Text
  import HS = HistoryStore
  import opened EditorState
  import opened Navigation
  import opened Prompt
  import opened Editor
  import Lang

  /** Typing a character puts it at the cursor's position in the shown line, moves the cursor
      one right, and leaves every other line as shown; the history entries stay as they were
      and browsing ends. */
  lemma TypeChar(cfg: Config, ed: Ed, ch: char, indent: seq<string> -> nat)
    requires Inv(ed) && ColumnOk(ed)
    ensures var r := Step(cfg, ed, Char(ch, false), indent);
      var a, k, i := Active(ed), ed.c.lineno, ed.c.charno;
      r.out.Continue? && r.ed.c == Cursor(false, k, i + 1) && |r.ed.lines| == |a| &&
      r.ed.lines[k][..i] == a[k][..i] && r.ed.lines[k][i] == ch && r.ed.lines[k][i + 1..] == a[k][i..] &&
      (forall j :: 0 <= j < |a| && j != k ==> r.ed.lines[j] == a[j]) &&
      r.ed.h.buffer == ed.h.buffer && (ed.c.useHistory ==> r.ed.h.index == -1)
  {
  }

  /** Backspace right after typing a character restores the shown lines and cursor, now as
      live lines. */
  lemma TypeThenBackspace(cfg: Config, ed: Ed, ch: char, indent: seq<string> -> nat)
    requires Inv(ed) && ColumnOk(ed)
    ensures var r := Step(cfg, ed, Char(ch, false), indent);
      r.out.Continue? && Step(cfg, r.ed, Backspace, indent) == Stepped(Materialise(ed), Continue)
  {
    var e := Materialise(ed);
    var k, i := e.c.lineno, e.c.charno;
    var line := e.lines[k];
    var typed := InsertAt(line, i, ch);
    assert RemoveAt(typed, i) == line by {
      assert typed[..i] == line[..i] && typed[i + 1..] == line[i..];
      assert line == line[..i] + line[i..];
    }
    assert e.lines[k := typed][k := line] == e.lines;
  }

  /** Backspace inside a line removes the character before the cursor and moves one left. */
  lemma BackspaceChar(cfg: Config, ed: Ed, indent: seq<string> -> nat)
    requires Inv(ed) && ColumnOk(ed) && ed.c.charno > 0
    ensures var r := Step(cfg, ed, Backspace, indent);
      var a, k, i := Active(ed), ed.c.lineno, ed.c.charno;
      r.out.Continue? && r.ed.c == Cursor(false, k, i - 1) && |r.ed.lines| == |a| &&
      r.ed.lines[k] == a[k][..i - 1] + a[k][i..] &&
      (forall j :: 0 <= j < |a| && j != k ==> r.ed.lines[j] == a[j])
  {
    var a, k, i := Active(ed), ed.c.lineno, ed.c.charno;
    var r := Step(cfg, ed, Backspace, indent);
    assert r.ed.lines[k] == RemoveAt(a[k], i - 1);
    assert RemoveAt(a[k], i - 1) == a[k][..i - 1] + a[k][i..];
  }

  /** Backspace with the column past the end of its line panics in `String::remove`. */
  lemma BackspacePastEndPanics(cfg: Config, ed: Ed, indent: seq<string> -> nat)
    requires Inv(ed) && ed.c.charno > |CurLine(ed)|
    ensures Step(cfg, ed, Backspace, indent).out.Panic?
  {
  }

  /** So PageUp onto a command whose last line is longer than its first, then Backspace,
      panics: PageUp leaves the column at 4 on the one-character line `a`. */
  lemma PageUpThenBackspacePanics(cfg: Config, indent: seq<string> -> nat)
    ensures var ed := Ed([""], Origin, HS.Store([["a", "wxyz"]], -1, 2));
      Inv(ed) && ColumnOk(ed) &&
      var r := Step(cfg, ed, PageUp, indent);
      r.out.Continue? && Inv(r.ed) && Step(cfg, r.ed, Backspace, indent).out.Panic?
  {
    PageUpLeavesColumnPastLine();
  }

  /** Delete inside a line removes the character under the cursor; the cursor stays. */
  lemma DeleteCharLaw(cfg: Config, ed: Ed, indent: seq<string> -> nat)
    requires Inv(ed) && ed.c.charno < |CurLine(ed)|
    ensures var r := Step(cfg, ed, Delete, indent);
      var a, k, i := Active(ed), ed.c.lineno, ed.c.charno;
      r.out.Continue? && r.ed.c == Cursor(false, k, i) && |r.ed.lines| == |a| &&
      r.ed.lines[k] == a[k][..i] + a[k][i + 1..] &&
      (forall j :: 0 <= j < |a| && j != k ==> r.ed.lines[j] == a[j])
  {
    var a, k, i := Active(ed), ed.c.lineno, ed.c.charno;
    assert RemoveAt(a[k], i) == a[k][..i] + a[k][i + 1..];
  }

  /** Joining line `k` with line `k + 1` keeps the text of all lines together. */
  lemma {:induction false} ConcatJoin(ls: seq<string>, k: nat)
    requires k + 1 < |ls|
    ensures Concat(ls[..k] + [ls[k] + ls[k + 1]] + ls[k + 2..]) == Concat(ls)
  {
    var joined := ls[..k] + [ls[k] + ls[k + 1]] + ls[k + 2..];
    if k == 0 {
      assert joined == [ls[0] + ls[1]] + ls[2..];
      assert joined[1..] == ls[2..] && ls[1..][1..] == ls[2..];
    } else {
      var tail := ls[1..];
      ConcatJoin(tail, k - 1);
      assert joined[0] == ls[0];
      assert joined[1..] == tail[..k - 1] + [tail[k - 1] + tail[k]] + tail[k + 1..];
    }
  }

  /** Backspace at column 0 of line `k > 0` appends line `k` to line `k - 1`: one line fewer,
      the same text, the cursor where the two lines meet. */
  lemma BackspaceJoin(cfg: Config, ed: Ed, indent: seq<string> -> nat)
    requires Inv(ed) && ed.c.charno == 0 && ed.c.lineno > 0
    ensures var r := Step(cfg, ed, Backspace, indent);
      var a, k := Active(ed), ed.c.lineno;
      r.out.Continue? && |r.ed.lines| == |a| - 1 && Concat(r.ed.lines) == Concat(a) &&
      r.ed.lines[k - 1] == a[k - 1] + a[k] &&
      r.ed.lines[..k - 1] == a[..k - 1] && r.ed.lines[k..] == a[k + 1..] &&
      r.ed.c == Cursor(false, k - 1, |a[k - 1]|)
  {
    var a, k := Active(ed), ed.c.lineno;
    var r := Step(cfg, ed, Backspace, indent);
    assert r.ed.lines == a[..k - 1] + [a[k - 1] + a[k]] + a[k + 1..];
    ConcatJoin(a, k - 1);
    assert a[k - 1 + 2..] == a[k + 1..];
  }

  /** Delete at the end of a line above the last appends the next line: one line fewer, the
      same text, the cursor where it was. */
  lemma DeleteJoin(cfg: Config, ed: Ed, indent: seq<string> -> nat)
    requires Inv(ed) && ed.c.charno == |CurLine(ed)| && ed.c.lineno + 1 < |Active(ed)|
    ensures var r := Step(cfg, ed, Delete, indent);
      var a, k := Active(ed), ed.c.lineno;
      r.out.Continue? && |r.ed.lines| == |a| - 1 && Concat(r.ed.lines) == Concat(a) &&
      r.ed.lines[k] == a[k] + a[k + 1] &&
      r.ed.lines[..k] == a[..k] && r.ed.lines[k + 1..] == a[k + 2..] &&
      r.ed.c == Cursor(false, k, ed.c.charno)
  {
    var a, k := Active(ed), ed.c.lineno;
    var r := Step(cfg, ed, Delete, indent);
    assert r.ed.lines == a[..k] + [a[k] + a[k + 1]] + a[k + 2..];
    ConcatJoin(a, k);
  }

  /** Cursor motions never edit the live lines, never return, and keep the history entries;
      only Up and Down, landing on an empty stored command, can panic. */
  lemma MotionLeavesLines(cfg: Config, ed: Ed, key: Key, indent: seq<string> -> nat)
    requires Inv(ed) && IsMotion(key)
    ensures var r := Step(cfg, ed, key, indent);
      r.ed.lines == ed.lines && r.ed.h.buffer == ed.h.buffer &&
      (r.out.Continue? || (r.out.Panic? && (key.Up? || key.Down?)))
  {
  }

  /** Home, End, Left and Right move the column only, within the cursor's line: Home to 0, End
      to the line's end, Left one back unless at 0, Right one on unless at the end. */
  lemma HorizontalKeys(cfg: Config, ed: Ed, indent: seq<string> -> nat)
    requires Inv(ed)
    ensures Step(cfg, ed, Home, indent) == Stepped(ed.(c := ed.c.(charno := 0)), Continue)
    ensures Step(cfg, ed, End, indent) == Stepped(ed.(c := ed.c.(charno := |CurLine(ed)|)), Continue)
    ensures var r := Step(cfg, ed, Left, indent);
      r.out.Continue? && r.ed.lines == ed.lines && r.ed.h == ed.h &&
      r.ed.c == ed.c.(charno := if ed.c.charno > 0 then ed.c.charno - 1 else 0)
    ensures var r := Step(cfg, ed, Right, indent);
      r.out.Continue? && r.ed.lines == ed.lines && r.ed.h == ed.h &&
      r.ed.c == ed.c.(charno := if ed.c.charno < |CurLine(ed)| then ed.c.charno + 1 else ed.c.charno)
  {
  }

  /** Ctrl-L clamps the column against the first line before clamping it against the cursor's
      own line, so it can move a column that was inside its line: at column 5 of `abcdef`
      below `ab`, it moves the cursor to column 2. */
  lemma RedrawMovesInRangeColumn(cfg: Config, indent: seq<string> -> nat)
    ensures var ed := Ed(["ab", "abcdef"], Cursor(false, 1, 5), HS.Empty(2));
      Inv(ed) && ColumnOk(ed) &&
      var r := Step(cfg, ed, Char('l', true), indent);
      r.out.Continue? && r.ed.lines == ed.lines && r.ed.c == Cursor(false, 1, 2)
  {
  }

  /** Down on the last live line does nothing. */
  lemma DownOnLastLiveLine(cfg: Config, ed: Ed, indent: seq<string> -> nat)
    requires Inv(ed) && !ed.c.useHistory && ed.c.lineno + 1 == |ed.lines|
    ensures Step(cfg, ed, Down, indent) == Stepped(ed, Continue)
  {
  }

  /** Ctrl-C, Ctrl-D and Esc return their sentinel and clear the live lines, but push nothing
      and leave the history index where it was. */
  lemma Sentinels(cfg: Config, ed: Ed, indent: seq<string> -> nat)
    requires Inv(ed)
    ensures var r := Step(cfg, ed, Char('c', true), indent);
      r.out == Return("exit") && r.ed.h == ed.h && r.ed.lines == []
    ensures var r := Step(cfg, ed, Char('d', true), indent);
      r.out == Return("detach") && r.ed.h == ed.h && r.ed.lines == []
    ensures var r := Step(cfg, ed, Esc, indent);
      r.out == Return("back") && r.ed.h == ed.h && r.ed.lines == []
  {
  }

  /** Enter while attached detaches. */
  lemma EnterWhenAttached(cfg: Config, ed: Ed, indent: seq<string> -> nat)
    requires Inv(ed) && cfg.attached.Some?
    ensures var r := Step(cfg, ed, Enter, indent);
      r.out == Return("detach") && r.ed.h == ed.h && r.ed.lines == []
  {
  }

  /** Enter on a command whose first line is blank changes nothing and submits nothing. */
  lemma EnterOnBlank(cfg: Config, ed: Ed, indent: seq<string> -> nat)
    requires Inv(ed) && cfg.attached.None? && IsBlank(Active(ed)[0])
    ensures Step(cfg, ed, Enter, indent) == Stepped(ed, Continue)
  {
  }

  /** Enter on a single live line holding the clear keyword empties that line and pushes
      nothing. */
  lemma EnterClear(cfg: Config, ed: Ed, indent: seq<string> -> nat)
    requires Inv(ed) && cfg.attached.None? && !ed.c.useHistory
    requires ed.lines == [cfg.clearKeyword] && !IsBlank(cfg.clearKeyword)
    ensures var r := Step(cfg, ed, Enter, indent);
      r.out.Continue? && r.ed.lines == [""] && r.ed.c == Cursor(false, 0, 0) && r.ed.h == ed.h
  {
  }

  /** Whether Enter submits the shown command. */
  predicate Submits(cfg: Config, ed: Ed, indent: seq<string> -> nat)
    requires Inv(ed)
  {
    var a := Active(ed);
    cfg.attached.None? && !IsBlank(a[0]) &&
    !(!ed.c.useHistory && ed.lines == [cfg.clearKeyword]) &&
    ed.c.lineno + 1 == |a| && (ed.c.useHistory || indent(a) == 0)
  }

  /** Enter returns the shown lines joined with newlines exactly when the rule above holds,
      pushing those lines as the newest history entry and resetting the live lines; otherwise,
      past the special cases, it opens a new line of `indent(...)` spaces below the cursor and
      puts the cursor at its end. */
  lemma EnterDecision(cfg: Config, ed: Ed, indent: seq<string> -> nat)
    requires Inv(ed) && cfg.attached.None? && !IsBlank(Active(ed)[0])
    requires !(!ed.c.useHistory && ed.lines == [cfg.clearKeyword])
    ensures var r := Step(cfg, ed, Enter, indent);
      var a, n := Active(ed), ed.c.lineno + 1;
      (Submits(cfg, ed, indent) ==>
        r.out == Return(Join(a, '\n')) && r.ed.h == HS.Push(ed.h, a) &&
        r.ed.lines == [] && r.ed.c == Origin) &&
      (!Submits(cfg, ed, indent) ==>
        var k := indent(a[..n]);
        r.out.Continue? && r.ed.lines == a[..n] + [Spaces(k)] + a[n..] &&
        r.ed.c == Cursor(false, n, k) && r.ed.h.buffer == ed.h.buffer)
  {
    var a, n := Active(ed), ed.c.lineno + 1;
    assert n == |a| ==> a[..n] == a;
    assert !ed.c.useHistory && |ed.lines| == 1 ==> (ed.lines[0] == cfg.clearKeyword <==> ed.lines == [cfg.clearKeyword]);
  }

  /** What Enter returns splits back into the command it pushed, when no line holds a
      newline. */
  lemma SubmittedSplitsBack(cfg: Config, ed: Ed, indent: seq<string> -> nat)
    requires Inv(ed) && NoneContain(Active(ed), '\n')
    requires Step(cfg, ed, Enter, indent).out.Return? && cfg.attached.None?
    ensures var r := Step(cfg, ed, Enter, indent);
      |r.ed.h.buffer| >= 1 && Split(r.out.value, '\n') == r.ed.h.buffer[0] == Active(ed)
  {
    SplitJoin(Active(ed), '\n');
  }

  /** With the default indent rule, the new line Enter opens has the indent that was computed
      for it, so the next Enter computes the same indent again. */
  lemma IndentCarriesOver(cfg: Config, ed: Ed)
    requires Inv(ed) && cfg.attached.None? && !IsBlank(Active(ed)[0])
    requires !(!ed.c.useHistory && ed.lines == [cfg.clearKeyword])
    requires !Submits(cfg, ed, Lang.GetIndent)
    ensures var r := Step(cfg, ed, Enter, Lang.GetIndent);
      r.out.Continue? && Lang.GetIndent(r.ed.lines[..r.ed.c.lineno + 1]) == r.ed.c.charno
  {
    EnterDecision(cfg, ed, Lang.GetIndent);
    var a, n := Active(ed), ed.c.lineno + 1;
    var k := Lang.GetIndent(a[..n]);
    var r := Step(cfg, ed, Enter, Lang.GetIndent);
    assert Spaces(k) + "" == Spaces(k);
    assert (a[..n] + [Spaces(k)] + a[n..])[..n + 1] == a[..n] + [Spaces(k)];
    assert r.ed.lines[..n + 1] == a[..n] + [Spaces(k) + ""];
    Lang.IndentOfSpaces(a[..n], k, "");
  }

  /** Enter on the first of two lines `if true {` and `` with an indent rule giving 4 opens
      the line `    ` below it, with the cursor at its end, and submits nothing. */
  lemma ScenarioIndentedLine()
    ensures var ed := Ed(["if true {", ""], Cursor(false, 0, 9), HS.Empty(65));
      Inv(ed) &&
      Step(Initial(">", "."), ed, Enter, (ls: seq<string>) => 4) ==
        Stepped(ed.(lines := ["if true {", "    ", ""], c := Cursor(false, 1, 4)), Continue)
  {
    var ed := Ed(["if true {", ""], Cursor(false, 0, 9), HS.Empty(65));
    assert !IsBlank("if true {") by {
      assert !IsWhitespace("if true {"[0]);
    }
    assert Spaces(4) == "    " by {
      assert Spaces(1) == " " && Spaces(2) == "  " && Spaces(3) == "   ";
    }
    assert ed.lines[..1] + [Spaces(4)] + ed.lines[1..] == ["if true {", "    ", ""];
  }

  /** Enter on the single line `let a = 1` with the default indent rule returns exactly that
      line and stores it as the newest command. */
  lemma ScenarioSubmit()
    ensures var ed := Ed(["let a = 1"], Cursor(false, 0, 9), HS.Empty(65));
      Inv(ed) &&
      var r := Step(Initial(">", "."), ed, Enter, Lang.GetIndent);
      r.out == Return("let a = 1") && r.ed.h.buffer == [["let a = 1"]] && r.ed.lines == []
  {
    var ed := Ed(["let a = 1"], Cursor(false, 0, 9), HS.Empty(65));
    var cfg := Initial(">", ".");
    assert Inv(ed);
    assert !IsBlank("let a = 1") by {
      assert !IsWhitespace("let a = 1"[0]);
    }
    assert ed.lines != [cfg.clearKeyword] by {
      assert ed.lines[0][0] != cfg.clearKeyword[0];
    }
    assert Lang.GetIndent(["let a = 1"]) == 0 by {
      assert !IsWhitespace("let a = 1"[0]);
      assert LeadingWs("let a = 1") == 0;
    }
    assert Submits(cfg, ed, Lang.GetIndent);
    EnterDecision(cfg, ed, Lang.GetIndent);
    assert Join(ed.lines, '\n') == "let a = 1";
    assert HS.Push(ed.h, ed.lines).buffer == [["let a = 1"]];
  }

  /** Enter on the single line `clear` under the default settings empties it and pushes
      nothing. */
  lemma ScenarioClear(indent: seq<string> -> nat)
    ensures var ed := Ed(["clear"], Cursor(false, 0, 5), HS.Empty(65));
      Inv(ed) &&
      Step(Initial(">", "."), ed, Enter, indent) ==
        Stepped(Ed([""], Cursor(false, 0, 0), HS.Empty(65)), Continue)
  {
    assert !IsBlank("clear") by {
      assert !IsWhitespace("clear"[0]);
    }
  }

  /** Tab inserts at the cursor when the part of the line before it is ASCII. */
  lemma TabAscii(cfg: Config, ed: Ed, indent: seq<string> -> nat)
    requires Inv(ed) && ColumnOk(ed) && IsAscii(CurLine(ed)[..ed.c.charno])
    ensures var r := Step(cfg, ed, Tab, indent);
      var a, k, i := Active(ed), ed.c.lineno, ed.c.charno;
      r.out.Continue? && r.ed.c == Cursor(false, k, i + 4) &&
      r.ed.lines[k] == a[k][..i] + "    " + a[k][i..]
  {
    var a, k, i := Active(ed), ed.c.lineno, ed.c.charno;
    ByteLenVersusCount(a[k][..i]);
    assert CharAtByte(a[k], i) == Some(i) by {
      var r := CharAtByte(a[k], i);
      assert ByteLen(a[k][..i]) == i;
      if r.Some? && r.value != i {
        AsciiPrefixBytes(a[k], i, r.value);
      }
    }
  }

  /** Distinct prefixes of a line with an ASCII prefix of length `i` have distinct byte lengths
      from `i`'s. */
  lemma AsciiPrefixBytes(s: string, i: nat, j: nat)
    requires i <= |s| && j <= |s| && IsAscii(s[..i]) && j != i
    ensures ByteLen(s[..j]) != ByteLen(s[..i])
  {
    if j < i {
      assert s[..j] == s[..i][..j];
      ByteLenAppend(s[..j], s[j..i]);
      assert s[..j] + s[j..i] == s[..i];
      assert s[j..i] != [];
      assert ByteLen(s[j..i]) >= 1 by {
        assert s[j..i][0] == s[j];
      }
    } else {
      ByteLenAppend(s[..i], s[i..j]);
      assert s[..i] + s[i..j] == s[..j];
      assert ByteLen(s[i..j]) >= 1 by {
        assert s[i..j][0] == s[i];
      }
    }
  }

  /** Tab with the cursor just after a two-byte character lands inside it and panics: in `éa`
      the column 1 is byte 1, the middle of `é`. */
  lemma TabInsideWideCharPanics(cfg: Config, indent: seq<string> -> nat)
    ensures var ed := Ed(["éa"], Cursor(false, 0, 1), HS.Empty(65));
      Inv(ed) && ColumnOk(ed) && Step(cfg, ed, Tab, indent).out.Panic?
  {
    var s := "éa";
    assert CharWidth(s[0]) == 2;
    assert CharAtByte(s, 1).None? by {
      assert ByteLen(s[..0]) == 0;
      assert s[..1] == [s[0]] && ByteLen(s[..1]) == 2 by {
        assert s[..1][1..] == [];
      }
      assert ByteLen(s[..2]) >= 2 by {
        ByteLenAppend(s[..1], s[1..2]);
        assert s[..1] + s[1..2] == s[..2];
      }
    }
  }

  /** Tab at a byte boundary after a two-byte character: the four spaces go in after `é`, and
      the column, counted in bytes, moves by four: `éab` at column 2 becomes `é    ab` at 6. */
  lemma TabAfterWideChar(cfg: Config, indent: seq<string> -> nat)
    ensures var ed := Ed(["éab"], Cursor(false, 0, 2), HS.Empty(65));
      Inv(ed) && ColumnOk(ed) &&
      var r := Step(cfg, ed, Tab, indent);
      r.out.Continue? && r.ed.lines == ["é    ab"] && r.ed.c == Cursor(false, 0, 6)
  {
    var s := "éab";
    assert CharWidth(s[0]) == 2;
    assert CharAtByte(s, 2) == Some(1) by {
      assert s[..1] == [s[0]] && ByteLen(s[..1]) == 2 by {
        assert s[..1][1..] == [];
      }
    }
    assert s[..1] + "    " + s[1..] == "é    ab";
  }

  /** Keys other than PageUp and PageDown keep the cursor inside its line for as long as the
      loop runs: the column bound holds after every key of the list. */
  lemma {:induction false} RunKeepsColumn(cfg: Config, ed: Ed, keys: seq<Key>, indent: seq<string> -> nat)
    requires Inv(ed) && ColumnOk(ed)
    requires forall i :: 0 <= i < |keys| ==> !keys[i].PageUp? && !keys[i].PageDown?
    ensures var r := RunKeys(cfg, ed, keys, indent);
      r.ending.Pending? ==> ColumnOk(r.ed)
    decreases |keys|
  {
    if keys != [] {
      var s := Step(cfg, ed, keys[0], indent);
      if s.out.Continue? {
        assert forall i :: 0 <= i < |keys[1..]| ==> keys[1..][i] == keys[i + 1];
        RunKeepsColumn(cfg, s.ed, keys[1..], indent);
      }
    }
  }
}
