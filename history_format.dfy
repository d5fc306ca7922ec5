/** The plain-text history file: every command is written as its lines, each followed by a
    newline, then a `---` line; commands are written oldest first. Reading splits the text
    into lines and closes a command at every line that starts with `---`. */
module HistoryFormat {
  import opened Text
  import opened HistoryStore

  /** The lines of a command, each followed by a newline. */
  function LinesText(e: Entry): string
  {
    if e == [] then "" else e[0] + "\n" + LinesText(e[1..])
  }

  lemma {:induction false} LinesTextSnoc(e: Entry, l: string)
    ensures LinesText(e + [l]) == LinesText(e) + l + "\n"
  {
    if e == [] {
      assert LinesText([l]) == l + "\n" + LinesText([]);
    } else {
      assert (e + [l])[0] == e[0] && (e + [l])[1..] == e[1..] + [l];
      LinesTextSnoc(e[1..], l);
    }
  }

  /** One command as written to the file. */
  function EntryText(e: Entry): string
  {
    LinesText(e) + "---\n"
  }

  /** The whole file written from a buffer held newest first (`write_to_file`): the buffer is
      walked from its back, so the oldest command comes first. */
  function Serialise(b: seq<Entry>): (r: string)
    ensures b == [] <==> r == []
    ensures |r| >= 4 * |b|
  {
    if b == [] then "" else Serialise(b[1..]) + EntryText(b[0])
  }

  /** Every file written from a non-empty history ends with the delimiter line. */
  lemma SerialiseEndsWithDelimiter(b: seq<Entry>)
    requires b != []
    ensures var t := Serialise(b); |t| >= 4 && t[|t| - 4..] == "---\n"
  {
    var t := Serialise(b);
    assert t == (Serialise(b[1..]) + LinesText(b[0])) + "---\n";
  }

  /** Offset of the first newline of `s`, or `|s|` when there is none. */
  function NewlineAt(s: string): (k: nat)
    ensures k <= |s|
  {
    if '\n' in s then IndexOf(s, '\n') else |s|
  }

  /** A carriage return just before a newline belongs to the line ending. */
  function StripCR(l: string): string
  {
    if |l| > 0 && l[|l| - 1] == '\r' then l[..|l| - 1] else l
  }

  /** `str::lines`: split at every `\n` (dropping a `\r` right before it); a final line without
      a newline is kept, an empty one after the last newline is not. */
  function Lines(s: string): (r: seq<string>)
    ensures s == [] <==> r == []
    ensures forall k :: 0 <= k < |r| ==> '\n' !in r[k]
    decreases |s|
  {
    if s == [] then []
    else
      var k := NewlineAt(s);
      if k == |s| then [s] else [StripCR(s[..k])] + Lines(s[k + 1..])
  }

  /** `read_from_file`'s state: the commands closed so far (in file order) and the lines of the
      command still open. */
  datatype Scan = Scan(closed: seq<Entry>, open: Entry)

  predicate IsDelimiter(l: string)
  {
    StartsWith(l, "---")
  }

  /** The scan of `read_from_file` over a list of lines, one line at a time. */
  function ScanLines(ls: seq<string>): (r: Scan)
    ensures |r.closed| <= |ls|
    ensures NoDelimiters(r.open)
    ensures forall k :: 0 <= k < |r.closed| ==> NoDelimiters(r.closed[k])
  {
    if ls == [] then Scan([], [])
    else
      var p := ScanLines(ls[..|ls| - 1]);
      var l := ls[|ls| - 1];
      if IsDelimiter(l) then Scan(p.closed + [p.open], []) else Scan(p.closed, p.open + [l])
  }

  /** The commands a history file holds, in file order (oldest first). */
  function Parse(contents: string): (r: seq<Entry>)
    ensures |r| == CountDelimiters(Lines(contents))
    ensures forall k :: 0 <= k < |r| ==> NoDelimiters(r[k])
  {
    OneCommandPerDelimiter(Lines(contents));
    ScanLines(Lines(contents)).closed
  }

  /** A line survives a write and a read unchanged. */
  predicate LineStorable(l: string)
  {
    '\n' !in l && !IsDelimiter(l) && (l == [] || l[|l| - 1] != '\r')
  }

  predicate EntryStorable(e: Entry)
  {
    forall j :: 0 <= j < |e| ==> LineStorable(e[j])
  }

  predicate Storable(b: seq<Entry>)
  {
    forall i :: 0 <= i < |b| ==> EntryStorable(b[i])
  }

  predicate NoDelimiters(ls: seq<string>)
  {
    forall j :: 0 <= j < |ls| ==> !IsDelimiter(ls[j])
  }

  lemma LinesAfterLine(l: string, rest: string)
    requires '\n' !in l
    ensures Lines(l + "\n" + rest) == [StripCR(l)] + Lines(rest)
  {
    var s := l + "\n" + rest;
    assert s == l + ("\n" + rest);
    assert s[|l|] == '\n';
    IndexOfAfter(l, "\n" + rest, '\n');
    assert NewlineAt(s) == |l|;
    assert s[..|l|] == l && s[|l| + 1..] == rest;
  }

  lemma {:induction false} LinesOfEntry(e: Entry, rest: string)
    requires EntryStorable(e)
    ensures Lines(LinesText(e) + rest) == e + Lines(rest)
  {
    if e == [] {
      assert LinesText(e) + rest == rest;
    } else {
      assert EntryStorable(e[1..]) by {
        forall j | 0 <= j < |e[1..]| ensures LineStorable(e[1..][j]) { assert e[1..][j] == e[j + 1]; }
      }
      var t := LinesText(e[1..]) + rest;
      calc {
        Lines(LinesText(e) + rest);
        == { assert LinesText(e) + rest == e[0] + "\n" + t; }
        Lines(e[0] + "\n" + t);
        == { assert LineStorable(e[0]); LinesAfterLine(e[0], t); }
        [e[0]] + Lines(t);
        == { LinesOfEntry(e[1..], rest); }
        [e[0]] + (e[1..] + Lines(rest));
        == { assert e == [e[0]] + e[1..]; }
        e + Lines(rest);
      }
    }
  }

  /** The lines of a file written from `b`, oldest command first, each followed by `---`. */
  function FileLines(b: seq<Entry>): seq<string>
  {
    if b == [] then [] else FileLines(b[1..]) + b[0] + ["---"]
  }

  /** The lines written for one command are its lines followed by the delimiter. */
  lemma LinesOfEntryText(e: Entry, rest: string)
    requires EntryStorable(e)
    ensures Lines(EntryText(e) + rest) == e + ["---"] + Lines(rest)
  {
    var d := "---";
    calc {
      Lines(EntryText(e) + rest);
      == { assert EntryText(e) + rest == LinesText(e) + (d + "\n" + rest); }
      Lines(LinesText(e) + (d + "\n" + rest));
      == { LinesOfEntry(e, d + "\n" + rest); }
      e + Lines(d + "\n" + rest);
      == { LinesAfterLine(d, rest); assert StripCR(d) == d; }
      e + ([d] + Lines(rest));
      == { ConcatAssoc(e, [d], Lines(rest)); }
      e + [d] + Lines(rest);
    }
  }

  lemma {:induction false} LinesOfSerialised(b: seq<Entry>, rest: string)
    requires Storable(b)
    ensures Lines(Serialise(b) + rest) == FileLines(b) + Lines(rest)
  {
    if b == [] {
      assert Serialise(b) + rest == rest;
    } else {
      assert Storable(b[1..]) by {
        forall i | 0 <= i < |b[1..]| ensures EntryStorable(b[1..][i]) { assert b[1..][i] == b[i + 1]; }
      }
      var t := EntryText(b[0]) + rest;
      calc {
        Lines(Serialise(b) + rest);
        == { assert Serialise(b) == Serialise(b[1..]) + EntryText(b[0]);
             ConcatAssoc(Serialise(b[1..]), EntryText(b[0]), rest); }
        Lines(Serialise(b[1..]) + t);
        == { LinesOfSerialised(b[1..], t); }
        FileLines(b[1..]) + Lines(t);
        == { assert EntryStorable(b[0]); LinesOfEntryText(b[0], rest); }
        FileLines(b[1..]) + (b[0] + ["---"] + Lines(rest));
        == { ConcatAssoc(FileLines(b[1..]), b[0] + ["---"], Lines(rest)); }
        FileLines(b) + Lines(rest);
      }
    }
  }

  /** Lines holding no delimiter extend the open command and close nothing. */
  lemma {:induction false} ScanAppendPlain(p: seq<string>, e: seq<string>)
    requires NoDelimiters(e)
    ensures ScanLines(p + e) == Scan(ScanLines(p).closed, ScanLines(p).open + e)
    decreases |e|
  {
    if e == [] {
      assert p + e == p;
    } else {
      var init := e[..|e| - 1];
      assert NoDelimiters(init) by {
        forall j | 0 <= j < |init| ensures !IsDelimiter(init[j]) { assert init[j] == e[j]; }
      }
      ScanAppendPlain(p, init);
      assert (p + e)[..|p + e| - 1] == p + init;
      assert (p + e)[|p + e| - 1] == e[|e| - 1];
      assert !IsDelimiter(e[|e| - 1]);
      assert ScanLines(p).open + init + [e[|e| - 1]] == ScanLines(p).open + e;
    }
  }

  /** Reading the lines of a file written from `b` closes exactly its commands, oldest first. */
  lemma {:induction false} ScanFileLines(b: seq<Entry>)
    requires Storable(b)
    ensures ScanLines(FileLines(b)) == Scan(Reversed(b), [])
  {
    if b != [] {
      assert Storable(b[1..]) by {
        forall i | 0 <= i < |b[1..]| ensures EntryStorable(b[1..][i]) { assert b[1..][i] == b[i + 1]; }
      }
      ScanFileLines(b[1..]);
      var p := FileLines(b[1..]);
      assert NoDelimiters(b[0]) by {
        assert EntryStorable(b[0]);
      }
      ScanAppendPlain(p, b[0]);
      assert ScanLines(p + b[0]) == Scan(Reversed(b[1..]), b[0]) by {
        assert ScanLines(p).open + b[0] == b[0];
      }
      var ls := FileLines(b);
      assert ls[..|ls| - 1] == p + b[0];
      assert ls[|ls| - 1] == "---";
      assert IsDelimiter("---");
      assert ScanLines(ls) == Scan(Reversed(b[1..]) + [b[0]], []);
      assert Reversed(b) == Reversed(b[1..]) + [b[0]];
    }
  }

  /** Reading the text written from `b` gives its commands, oldest first. */
  lemma ParseSerialised(b: seq<Entry>)
    requires Storable(b)
    ensures Parse(Serialise(b)) == Reversed(b)
  {
    LinesOfSerialised(b, "");
    assert Serialise(b) + "" == Serialise(b);
    assert FileLines(b) + Lines("") == FileLines(b);
    ScanFileLines(b);
  }

  /** Writing a buffer that fits the store and reading it back into an empty store gives the
      same buffer, provided no line contains a newline, starts with `---` or ends in a carriage
      return. */
  lemma RoundTrip(b: seq<Entry>, cap: nat)
    requires 1 <= cap && |b| <= cap && Storable(b)
    ensures PushAll(Empty(cap), Parse(Serialise(b))) == Store(b, -1, cap)
  {
    ParseSerialised(b);
    var es := Reversed(b);
    PushAllNoEviction(Empty(cap), es);
    var r := PushAll(Empty(cap), es);
    assert r.buffer == b by {
      assert Reversed(es) + [] == b;
    }
    assert r.index == -1 && r.cap == cap;
  }

  /** Lines after the last delimiter belong to no command and are dropped. */
  lemma DropsUnterminatedTail(ls: seq<string>, tail: seq<string>)
    requires NoDelimiters(tail)
    ensures ScanLines(ls + tail).closed == ScanLines(ls).closed
  {
    ScanAppendPlain(ls, tail);
  }

  function CountDelimiters(ls: seq<string>): nat
  {
    if ls == [] then 0
    else CountDelimiters(ls[..|ls| - 1]) + (if IsDelimiter(ls[|ls| - 1]) then 1 else 0)
  }

  /** Every delimiter line closes one command, and only delimiters close one. */
  lemma {:induction false} OneCommandPerDelimiter(ls: seq<string>)
    ensures |ScanLines(ls).closed| == CountDelimiters(ls)
  {
    if ls != [] {
      OneCommandPerDelimiter(ls[..|ls| - 1]);
    }
  }

  /** The lines of a history holding the single one-line command `[l]`. */
  lemma LinesOfOneLine(l: string)
    requires '\n' !in l
    ensures Lines(Serialise([[l]])) == [StripCR(l), "---"]
  {
    var b: seq<Entry> := [[l]];
    var d := "---";
    assert LinesText(b[0]) == l + "\n" + "" by {
      assert b[0][1..] == [];
    }
    assert Serialise(b) == l + "\n" + (d + "\n" + "") by {
      assert b[1..] == [];
      assert Serialise(b) == "" + EntryText(b[0]);
    }
    assert Lines(d + "\n" + "") == [d] by {
      LinesAfterLine(d, "");
    }
    LinesAfterLine(l, d + "\n" + "");
  }

  /** `str::lines` dropping a final carriage return keeps a delimiter line a delimiter. */
  lemma StripCRKeepsDelimiter(l: string)
    requires IsDelimiter(l)
    ensures IsDelimiter(StripCR(l))
  {
    if |l| > 0 && l[|l| - 1] == '\r' {
      assert l[..3] == "---" && l[2] == '-';
      assert l[..|l| - 1][..3] == l[..3];
    }
  }

  /** The known limitation: a command line starting with `---` is read back as a delimiter, so
      the one-line command `[l]` comes back as two empty commands. */
  lemma DelimiterCollision(l: string)
    requires IsDelimiter(l) && '\n' !in l
    ensures Parse(Serialise([[l]])) == [[], []]
  {
    LinesOfOneLine(l);
    StripCRKeepsDelimiter(l);
    var ls := [StripCR(l), "---"];
    assert IsDelimiter("---");
    assert ScanLines(ls[..1]) == Scan([[]], []) by {
      assert ls[..1][..0] == [];
    }
  }
}
