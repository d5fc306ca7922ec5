/** Strings as the editor sees them: Unicode scalar values (Dafny `char`), their UTF-8
    byte widths, and the few `str` operations the line editor relies on. */
module Text {

  datatype Option<+T> = None | Some(value: T)

  function Min(a: nat, b: nat): nat { if a <= b then a else b }

  /** Number of bytes of the UTF-8 encoding of `ch`. */
  function CharWidth(ch: char): (w: nat)
    ensures 1 <= w <= 4
  {
    if ch as int < 0x80 then 1
    else if ch as int < 0x800 then 2
    else if ch as int < 0x10000 then 3
    else 4
  }

  /** `str::len`: the length of `s` in bytes. */
  function ByteLen(s: string): nat
  {
    if s == [] then 0 else CharWidth(s[0]) + ByteLen(s[1..])
  }

  lemma {:induction false} ByteLenAppend(a: string, b: string)
    ensures ByteLen(a + b) == ByteLen(a) + ByteLen(b)
  {
    if a != [] {
      assert (a + b)[0] == a[0] && (a + b)[1..] == a[1..] + b;
      ByteLenAppend(a[1..], b);
    } else {
      assert a + b == b;
    }
  }

  predicate IsAscii(s: string)
  {
    forall j :: 0 <= j < |s| ==> s[j] as int < 0x80
  }

  /** Every character takes at least one byte; only ASCII text takes exactly one each. */
  lemma {:induction false} ByteLenVersusCount(s: string)
    ensures ByteLen(s) >= |s|
    ensures ByteLen(s) == |s| <==> IsAscii(s)
  {
    if s != [] {
      ByteLenVersusCount(s[1..]);
      if IsAscii(s[1..]) && s[0] as int < 0x80 {
        forall j | 0 <= j < |s| ensures s[j] as int < 0x80 {
          if j > 0 { assert s[j] == s[1..][j - 1]; }
        }
      }
      if IsAscii(s) {
        forall j | 0 <= j < |s| - 1 ensures s[1..][j] as int < 0x80 {
          assert s[1..][j] == s[j + 1];
        }
      }
    }
  }

  /** The UTF-8 encoding of one character. */
  function EncodeChar(ch: char): (bs: seq<nat>)
    ensures |bs| == CharWidth(ch)
    ensures forall k :: 0 <= k < |bs| ==> bs[k] < 256
  {
    var n := ch as int;
    if n < 0x80 then [n]
    else if n < 0x800 then [0xC0 + n / 0x40, 0x80 + n % 0x40]
    else if n < 0x10000 then [0xE0 + n / 0x1000, 0x80 + (n / 0x40) % 0x40, 0x80 + n % 0x40]
    else [0xF0 + n / 0x40000, 0x80 + (n / 0x1000) % 0x40, 0x80 + (n / 0x40) % 0x40, 0x80 + n % 0x40]
  }

  /** The UTF-8 encoding of a string: the bytes a Rust `String` holds. */
  function Encode(s: string): (bs: seq<nat>)
    ensures |bs| == ByteLen(s)
  {
    if s == [] then [] else EncodeChar(s[0]) + Encode(s[1..])
  }

  lemma {:induction false} EncodeAppend(a: string, b: string)
    ensures Encode(a + b) == Encode(a) + Encode(b)
  {
    if a != [] {
      assert (a + b)[0] == a[0] && (a + b)[1..] == a[1..] + b;
      EncodeAppend(a[1..], b);
    } else {
      assert a + b == b;
    }
  }

  /** `get_byte_i`: the byte offset at which the `i`-th character of `s` starts, or the
      byte length of `s` when `s` has no `i`-th character. */
  function GetByteI(s: string, i: nat): (r: nat)
    ensures r == ByteLen(s[..Min(i, |s|)])
    ensures r <= ByteLen(s)
    ensures i >= |s| ==> r == ByteLen(s)
    ensures i < |s| ==> r + CharWidth(s[i]) <= ByteLen(s)
  {
    if s == [] || i == 0 then 0
    else
      var r := CharWidth(s[0]) + GetByteI(s[1..], i - 1);
      assert s[..Min(i, |s|)][1..] == s[1..][..Min(i - 1, |s| - 1)];
      ByteLenAppend(s[..Min(i, |s|)], s[Min(i, |s|)..]);
      assert s[..Min(i, |s|)] + s[Min(i, |s|)..] == s;
      r
  }

  /** The character index at which byte offset `b` of `s` falls on a character boundary,
      if it does (the check `str::insert_str` performs before inserting). */
  function CharAtByte(s: string, b: nat): (r: Option<nat>)
    ensures r.Some? ==> r.value <= |s| && ByteLen(s[..r.value]) == b && b <= ByteLen(s)
    ensures r.None? ==> forall j :: 0 <= j <= |s| ==> ByteLen(s[..j]) != b
  {
    if b == 0 then Some(0)
    else if s == [] then None
    else if b < CharWidth(s[0]) then
      assert forall j :: 1 <= j <= |s| ==> s[..j][1..] == s[1..][..j - 1];
      None
    else match CharAtByte(s[1..], b - CharWidth(s[0]))
      case None =>
        assert forall j :: 1 <= j <= |s| ==> s[..j][1..] == s[1..][..j - 1];
        None
      case Some(j) =>
        assert s[..j + 1][1..] == s[1..][..j];
        Some(j + 1)
  }

  /** On ASCII text every byte offset up to the end is the boundary of the same character index. */
  lemma AsciiByteIsCharIndex(s: string, b: nat)
    requires IsAscii(s) && b <= |s|
    ensures CharAtByte(s, b) == Some(b)
  {
    assert IsAscii(s[..b]) by {
      forall j | 0 <= j < b ensures s[..b][j] as int < 0x80 { assert s[..b][j] == s[j]; }
    }
    ByteLenVersusCount(s[..b]);
    match CharAtByte(s, b)
    case None =>
    case Some(j) =>
      if j != b {
        assert IsAscii(s[..j]) by {
          forall k | 0 <= k < j ensures s[..j][k] as int < 0x80 { assert s[..j][k] == s[k]; }
        }
        ByteLenVersusCount(s[..j]);
      }
  }

  /** `char::is_whitespace`: the Unicode White_Space property. */
  predicate IsWhitespace(ch: char)
  {
    var n := ch as int;
    (0x09 <= n <= 0x0D) || n == 0x20 || n == 0x85 || n == 0xA0 || n == 0x1680 ||
    (0x2000 <= n <= 0x200A) || n == 0x2028 || n == 0x2029 || n == 0x202F ||
    n == 0x205F || n == 0x3000
  }

  /** Number of leading whitespace characters of `s` (what `trim_start` removes). */
  function LeadingWs(s: string): (n: nat)
    ensures n <= |s|
    ensures forall j :: 0 <= j < n ==> IsWhitespace(s[j])
    ensures n < |s| ==> !IsWhitespace(s[n])
  {
    if s == [] || !IsWhitespace(s[0]) then 0
    else
      var n := 1 + LeadingWs(s[1..]);
      assert forall j :: 1 <= j < n ==> s[j] == s[1..][j - 1];
      n
  }

  /** `str::trim_start`. */
  function TrimStart(s: string): string
  {
    s[LeadingWs(s)..]
  }

  /** `s.trim().is_empty()`: every character is whitespace. */
  predicate IsBlank(s: string)
  {
    forall j :: 0 <= j < |s| ==> IsWhitespace(s[j])
  }

  /** `" ".repeat(k)`. */
  function Spaces(k: nat): (r: string)
    ensures |r| == k
    ensures forall j :: 0 <= j < k ==> r[j] == ' '
  {
    if k == 0 then "" else Spaces(k - 1) + " "
  }

  predicate StartsWith(s: string, prefix: string)
  {
    |prefix| <= |s| && s[..|prefix|] == prefix
  }

  /** Character `ch` inserted before character `i` of `s`, or appended when `i` is past the end. */
  function InsertAt(s: string, i: nat, ch: char): (r: string)
    ensures |r| == |s| + 1
    ensures r[Min(i, |s|)] == ch
    ensures r[..Min(i, |s|)] == s[..Min(i, |s|)] && r[Min(i, |s|) + 1..] == s[Min(i, |s|)..]
  {
    var j := Min(i, |s|);
    s[..j] + [ch] + s[j..]
  }

  /** `s` without its character `i`. */
  function RemoveAt(s: string, i: nat): (r: string)
    requires i < |s|
    ensures |r| == |s| - 1
    ensures r[..i] == s[..i] && r[i..] == s[i + 1..]
  {
    s[..i] + s[i + 1..]
  }

  /** `String::insert(get_byte_i(s, i), ch)` on the bytes agrees with `InsertAt` on characters. */
  lemma InsertAtBytes(s: string, i: nat, ch: char)
    ensures Encode(InsertAt(s, i, ch)) ==
            Encode(s)[..GetByteI(s, i)] + EncodeChar(ch) + Encode(s)[GetByteI(s, i)..]
  {
    var j := Min(i, |s|);
    var p, q := s[..j], s[j..];
    var g := GetByteI(s, i);
    assert s == p + q;
    assert InsertAt(s, i, ch) == (p + [ch]) + q;
    EncodeAppend(p, q);
    assert |Encode(p)| == g;
    assert Encode(s)[..g] == Encode(p) && Encode(s)[g..] == Encode(q);
    assert Encode(p + [ch]) == Encode(p) + EncodeChar(ch) by {
      EncodeAppend(p, [ch]);
      assert Encode([ch]) == EncodeChar(ch) + Encode([]);
    }
    EncodeAppend(p + [ch], q);
  }

  /** `String::insert_str(b, t)` at a byte offset `b` that is the boundary of character `j`
      inserts the bytes of `t` there, which is inserting `t` before character `j`. */
  lemma InsertStrBytes(s: string, b: nat, t: string)
    requires CharAtByte(s, b).Some?
    ensures var j := CharAtByte(s, b).value;
      Encode(s[..j] + t + s[j..]) == Encode(s)[..b] + Encode(t) + Encode(s)[b..]
  {
    var j := CharAtByte(s, b).value;
    var p, q := s[..j], s[j..];
    assert s == p + q;
    EncodeAppend(p, q);
    EncodeAppend(p + t, q);
    EncodeAppend(p, t);
    assert Encode(s)[..b] == Encode(p);
    assert Encode(s)[b..] == Encode(q);
  }

  lemma ConcatAssoc<T>(x: seq<T>, y: seq<T>, z: seq<T>)
    ensures x + (y + z) == x + y + z
  {
  }

  /** The bytes of `s` are those of the characters before `i`, then the encoding of `s[i]`,
      then those of the rest. */
  lemma EncodeAround(s: string, i: nat)
    requires i < |s|
    ensures Encode(s) == Encode(s[..i]) + EncodeChar(s[i]) + Encode(s[i + 1..])
  {
    var p, r, q := s[..i], s[i..], s[i + 1..];
    assert s == p + r;
    assert r[0] == s[i] && r[1..] == q;
    assert Encode(r) == EncodeChar(s[i]) + Encode(q);
    EncodeAppend(p, r);
    ConcatAssoc(Encode(p), EncodeChar(s[i]), Encode(q));
  }

  /** `String::remove(get_byte_i(s, i))` removes exactly the bytes of character `i`, which
      start at offset `get_byte_i(s, i)`. */
  lemma RemoveAtBytes(s: string, i: nat)
    requires i < |s|
    ensures Encode(s) == Encode(s[..i]) + EncodeChar(s[i]) + Encode(s[i + 1..])
    ensures |Encode(s[..i])| == GetByteI(s, i)
    ensures Encode(RemoveAt(s, i)) == Encode(s[..i]) + Encode(s[i + 1..])
  {
    EncodeAround(s, i);
    assert RemoveAt(s, i) == s[..i] + s[i + 1..];
    EncodeAppend(s[..i], s[i + 1..]);
  }

  /** `lines.join(sep)`. */
  function Join(ls: seq<string>, sep: char): string
  {
    if ls == [] then "" else if |ls| == 1 then ls[0] else ls[0] + [sep] + Join(ls[1..], sep)
  }

  /** Splitting at every `sep`; the inverse of `Join` on non-empty lists. */
  function Split(s: string, sep: char): (r: seq<string>)
    ensures |r| >= 1
    ensures forall k :: 0 <= k < |r| ==> sep !in r[k]
    decreases |s|
  {
    if sep !in s then [s]
    else
      var k := IndexOf(s, sep);
      [s[..k]] + Split(s[k + 1..], sep)
  }

  function IndexOf(s: string, x: char): (k: nat)
    requires x in s
    ensures k < |s| && s[k] == x && x !in s[..k]
  {
    if s[0] == x then 0
    else
      assert x in s[1..] by { var j :| 0 <= j < |s| && s[j] == x; assert s[1..][j - 1] == x; }
      var k := 1 + IndexOf(s[1..], x);
      assert s[..k] == [s[0]] + s[1..][..k - 1];
      k
  }

  lemma {:induction false} IndexOfAfter(a: string, rest: string, x: char)
    requires x !in a && x in rest
    ensures IndexOf(a + rest, x) == |a| + IndexOf(rest, x)
  {
    if a == [] {
      assert a + rest == rest;
    } else {
      assert (a + rest)[0] == a[0] && (a + rest)[1..] == a[1..] + rest;
      assert a[0] in a;
      IndexOfAfter(a[1..], rest, x);
    }
  }

  predicate NoneContain(ls: seq<string>, x: char)
  {
    forall k :: 0 <= k < |ls| ==> x !in ls[k]
  }

  lemma {:induction false} SplitJoin(ls: seq<string>, sep: char)
    requires ls != [] && NoneContain(ls, sep)
    ensures Split(Join(ls, sep), sep) == ls
  {
    if |ls| > 1 {
      var s := Join(ls, sep);
      assert s == ls[0] + [sep] + Join(ls[1..], sep);
      assert sep in s by { assert s[|ls[0]|] == sep; }
      assert IndexOf(s, sep) == |ls[0]| by {
        assert s == ls[0] + ([sep] + Join(ls[1..], sep));
        IndexOfAfter(ls[0], [sep] + Join(ls[1..], sep), sep);
      }
      assert s[..|ls[0]|] == ls[0];
      assert s[|ls[0]| + 1..] == Join(ls[1..], sep);
      SplitJoin(ls[1..], sep);
    }
  }

  /** All lines concatenated, with nothing between them. */
  function Concat(ls: seq<string>): string
  {
    if ls == [] then "" else ls[0] + Concat(ls[1..])
  }

  lemma {:induction false} ConcatAppend(a: seq<string>, b: seq<string>)
    ensures Concat(a + b) == Concat(a) + Concat(b)
  {
    if a != [] {
      assert (a + b)[0] == a[0] && (a + b)[1..] == a[1..] + b;
      ConcatAppend(a[1..], b);
    } else {
      assert a + b == b;
    }
  }
}
