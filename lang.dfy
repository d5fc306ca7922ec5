/** The default indentation policy of `LangInterface` (`src/lang.rs`). The REPL reads its
    result both as the indent of a new continuation line and, when it is 0, as "the command
    is complete". */
module Lang {
  import opened Text

  /** `get_indent`: the number of bytes of leading whitespace of the last line, 0 for none. */
  function GetIndent(lines: seq<string>): (r: nat)
    ensures lines == [] ==> r == 0
    ensures lines != [] ==> var last := lines[|lines| - 1];
      r == ByteLen(last[..LeadingWs(last)]) && r <= ByteLen(last)
  {
    if lines == [] then 0
    else
      var line := lines[|lines| - 1];
      var n := LeadingWs(line);
      ByteLenAppend(line[..n], line[n..]);
      assert line[..n] + line[n..] == line;
      ByteLen(line) - ByteLen(TrimStart(line))
  }

  /** A last line of `k` spaces followed by nothing or by a non-whitespace character has
      indent `k`. */
  lemma IndentOfSpaces(prefix: seq<string>, k: nat, rest: string)
    requires rest == [] || !IsWhitespace(rest[0])
    ensures GetIndent(prefix + [Spaces(k) + rest]) == k
  {
    var line := Spaces(k) + rest;
    assert (prefix + [line])[|prefix + [line]| - 1] == line;
    assert forall j :: 0 <= j < k ==> line[j] == ' ';
    assert k < |line| ==> line[k] == rest[0];
    assert LeadingWs(line) == k;
    assert line[..k] == Spaces(k);
    assert IsAscii(Spaces(k));
    ByteLenVersusCount(Spaces(k));
  }
}
