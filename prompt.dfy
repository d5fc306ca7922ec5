/** The prompt settings of a `Repl` (`src/repl.rs`) and the width arithmetic that places the
    cursor after the leader. */
module Prompt {
  import opened Text

  /** The settings the input loop reads: the leaders and their recorded widths, the clear
      keyword, the attached module id and the selected module's name and recorded length. */
  datatype Config = Config(
    leader: string, leaderLen: nat,
    continuedLeader: string, continuedLeaderLen: nat,
    clearKeyword: string,
    attached: Option<nat>,
    moduleName: Option<string>, moduleLen: nat)

  /** The settings `with_capacity` starts with. The continued leader's width is taken from the
      leader, as the source does. */
  function Initial(leader: string, continuedLeader: string): (r: Config)
    ensures r.leader == leader && r.continuedLeader == continuedLeader
    ensures r.leaderLen == |leader| && r.continuedLeaderLen == |leader|
    ensures r.clearKeyword == "clear" && r.attached == None && r.moduleName == None && r.moduleLen == 0
  {
    Config(leader, |leader|, continuedLeader, |leader|, "clear", None, None, 0)
  }

  /** What the setters keep true: the leader width is its character count, and the module
      length is the byte length of the module name (0 without one). */
  predicate Recorded(cfg: Config)
  {
    cfg.leaderLen == |cfg.leader| &&
    cfg.moduleLen == (if cfg.moduleName.Some? then ByteLen(cfg.moduleName.value) else 0)
  }

  function DigitChar(d: nat): (ch: char)
    requires d < 10
    ensures '0' <= ch <= '9' && (ch as int) - ('0' as int) == d
  {
    "0123456789"[d]
  }

  /** `usize::to_string`. */
  function Decimal(n: nat): (s: string)
    ensures |s| >= 1 && forall i :: 0 <= i < |s| ==> '0' <= s[i] <= '9'
    ensures s[0] == '0' <==> n == 0
    ensures |s| == 1 || s[0] != '0'
  {
    if n < 10 then [DigitChar(n)] else Decimal(n / 10) + [DigitChar(n % 10)]
  }

  /** The value of a string of decimal digits. */
  function DecimalValue(s: string): nat
    requires forall i :: 0 <= i < |s| ==> '0' <= s[i] <= '9'
  {
    if s == [] then 0
    else 10 * DecimalValue(s[..|s| - 1]) + ((s[|s| - 1] as int) - ('0' as int))
  }

  /** `to_string` writes the number itself. */
  lemma {:induction false} DecimalRoundTrip(n: nat)
    ensures DecimalValue(Decimal(n)) == n
  {
    if n >= 10 {
      DecimalRoundTrip(n / 10);
      var s := Decimal(n);
      assert s[..|s| - 1] == Decimal(n / 10);
      assert s[|s| - 1] == DigitChar(n % 10);
    }
  }

  function Pow10(k: nat): (r: nat)
    ensures r >= 1
  {
    if k == 0 then 1 else 10 * Pow10(k - 1)
  }

  /** `to_string` writes as many digits as the number needs and no more: `n` lies between the
      smallest and the largest number of that many digits. */
  lemma {:induction false} DecimalLength(n: nat)
    ensures var k := |Decimal(n)|; n < Pow10(k) && (k == 1 || Pow10(k - 1) <= n)
  {
    if n >= 10 {
      DecimalLength(n / 10);
      assert |Decimal(n)| == |Decimal(n / 10)| + 1;
    }
  }

  /** `print_module_name`. */
  function PrintModuleName(name: string): (r: string)
    ensures |r| == |name| + 3 && r[1..|name| + 1] == name
    ensures r[0] == '(' && r[|name| + 1] == ')' && r[|name| + 2] == ' '
  {
    "(" + name + ") "
  }

  /** The leader `print_lines` prints before the first line. */
  function FirstLeader(cfg: Config): string
  {
    match cfg.attached
    case Some(id) => "(Attached: " + Decimal(id) + ") " + cfg.leader
    case None =>
      match cfg.moduleName
      case Some(name) => PrintModuleName(name) + cfg.leader
      case None => cfg.leader
  }

  /** The leader `next` reprints before the first line after every key: nothing when attached. */
  function LoopLeader(cfg: Config): string
  {
    if cfg.attached.Some? then ""
    else
      match cfg.moduleName
      case Some(name) => PrintModuleName(name) + cfg.leader
      case None => cfg.leader
  }

  /** The width the cursor column is offset by on line `lineno`. */
  function LeaderWidth(cfg: Config, lineno: nat): (r: nat)
    ensures lineno > 0 ==> r == cfg.continuedLeaderLen
    ensures lineno == 0 ==> r >= cfg.leaderLen
    ensures lineno == 0 && cfg.attached.None? && cfg.moduleName.None? ==> r == cfg.leaderLen
  {
    if lineno == 0 then
      (match cfg.attached
       case Some(id) => |Decimal(id)| + 13
       case None => if cfg.moduleName.Some? then cfg.moduleLen + 3 else 0)
      + cfg.leaderLen
    else cfg.continuedLeaderLen
  }

  /** The first-line width is the length of the leader `print_lines` prints, whenever the
      module name is ASCII. */
  lemma FirstLineWidth(cfg: Config)
    requires Recorded(cfg)
    requires cfg.attached.None? && cfg.moduleName.Some? ==> IsAscii(cfg.moduleName.value)
    ensures LeaderWidth(cfg, 0) == |FirstLeader(cfg)|
  {
    if cfg.attached.None? && cfg.moduleName.Some? {
      ByteLenVersusCount(cfg.moduleName.value);
    }
  }

  /** The module length is a byte count, so a module name with a non-ASCII character pushes the
      cursor one column past the text for each extra byte: `é` is two bytes. */
  lemma ModuleWidthCountsBytes()
    ensures var cfg := Config(">", 1, ".", 1, "clear", None, Some("é"), ByteLen("é"));
      Recorded(cfg) && LeaderWidth(cfg, 0) == |FirstLeader(cfg)| + 1
  {
    assert ByteLen("é") == 2 by {
      assert "é"[1..] == [];
    }
  }

  /** Continuation lines are offset by the leader's width, not the continued leader's, under
      the settings the constructor makes. */
  lemma ContinuedWidthIsLeaderWidth(leader: string, continuedLeader: string, lineno: nat)
    requires lineno > 0
    ensures LeaderWidth(Initial(leader, continuedLeader), lineno) == |leader|
  {
  }

  /** When attached, the loop reprints no leader but still offsets the first line's column by
      the attach banner's width. */
  lemma AttachedLoopLeader(cfg: Config)
    requires cfg.attached.Some?
    ensures LoopLeader(cfg) == [] && LeaderWidth(cfg, 0) >= 14 + cfg.leaderLen
  {
  }
}
