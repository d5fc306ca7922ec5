/** The `Repl` object of `src/repl.rs`: its settings, its history, and the live lines and
    cursor it keeps between calls of `next`. Every method changes the fields in place as the
    source does and is proved to agree with the functions of `Editor` and `Navigation`. */
module ReplSession {
  import opened Text
  import HS = HistoryStore
  import opened HistoryFormat
  import opened ReplHistory
  import opened EditorState
  import opened Prompt
  import Navigation
  import opened Editor

  class Repl {
    const history: History
    const leader: string
    const continuedLeader: string
    const leaderLen: nat
    const continuedLeaderLen: nat
    var clearKeyword: string
    var attached: Option<nat>
    var moduleName: Option<string>
    var moduleLen: nat
    /** The live lines and the cursor. */
    var lines: seq<string>
    var c: Cursor

    function Config(): Prompt.Config
      reads this
    {
      Prompt.Config(leader, leaderLen, continuedLeader, continuedLeaderLen, clearKeyword,
                    attached, moduleName, moduleLen)
    }

    function State(): Ed
      reads this, history
    {
      Ed(lines, c, history.Model())
    }

    /** Between calls of `next`. */
    ghost predicate Valid()
      reads this, history
    {
      SessionInv(State()) && Recorded(Config())
    }

    /** `with_capacity` (and `new`/`newd` with capacity 64): `persisted` is the contents of the
        history file when there is one that can be read. */
    constructor WithCapacity(leader: string, continuedLeader: string, capacity: nat,
                             allocation: nat, persisted: Option<string>)
      requires allocation >= capacity + 1
      ensures Valid() && fresh(history)
      ensures Config() == Initial(leader, continuedLeader)
      ensures lines == [] && c == Origin
      ensures history.Model() ==
        if persisted.Some? then HS.PushAll(HS.Empty(allocation), Parse(persisted.value))
        else HS.Empty(allocation)
    {
      history := new History.WithCapacity(capacity, allocation);
      this.leader := leader;
      this.continuedLeader := continuedLeader;
      leaderLen := |leader|;
      continuedLeaderLen := |leader|;
      clearKeyword := "clear";
      attached := None;
      moduleName := None;
      moduleLen := 0;
      lines := [];
      c := Origin;
      new;
      if persisted.Some? {
        history.LoadFrom(persisted.value);
      }
    }

    /** `set_clear_keyword`. */
    method SetClearKeyword(keyword: string)
      requires Valid()
      modifies this`clearKeyword
      ensures Valid() && Config() == old(Config()).(clearKeyword := keyword)
    {
      clearKeyword := keyword;
    }

    /** `module`: the recorded length is the name's length in bytes. */
    method Module(name: string)
      requires Valid()
      modifies this`moduleName, this`moduleLen
      ensures Valid() && Config() == old(Config()).(moduleName := Some(name), moduleLen := ByteLen(name))
    {
      moduleName := Some(name);
      moduleLen := ByteLen(name);
    }

    /** `exit_module`. */
    method ExitModule()
      requires Valid()
      modifies this`moduleName, this`moduleLen
      ensures Valid() && Config() == old(Config()).(moduleName := None, moduleLen := 0)
    {
      moduleName := None;
      moduleLen := 0;
    }

    /** `attach`. */
    method Attach(id: nat)
      requires Valid()
      modifies this`attached
      ensures Valid() && Config() == old(Config()).(attached := Some(id))
    {
      attached := Some(id);
    }

    /** `detach`. */
    method Detach()
      requires Valid()
      modifies this`attached
      ensures Valid() && Config() == old(Config()).(attached := None)
    {
      attached := None;
    }

    /** `reset_lines`. */
    method ResetLines()
      modifies this`lines, this`c
      ensures State() == Reset(old(State()))
    {
      lines := [];
      c := Origin;
    }

    /** `replace_with_history` followed by clearing `use_history`: the live lines are resized
        to the browsed command and overwritten line by line, and browsing stops. */
    method MaterialiseLines()
      requires Inv(State())
      modifies this`lines, this`c, history`index
      ensures State() == Materialise(old(State()))
    {
      if c.useHistory {
        var cur := history.buffer[history.index];
        if |lines| > |cur| {
          lines := lines[..|cur|];
        } else {
          lines := lines + seq(|cur| - |lines|, _ => "");
        }
        var i := 0;
        while i < |cur|
          invariant 0 <= i <= |cur| && |lines| == |cur|
          invariant lines[..i] == cur[..i]
          invariant c == old(c) && history.index == old(history.index)
        {
          lines := lines[i := cur[i]];
          i := i + 1;
        }
        assert lines == lines[..i] && cur == cur[..i];
        history.ResetIter();
        c := c.(useHistory := false);
      }
    }

    /** `history_up!`. */
    method HistoryUp() returns (panicked: bool)
      requires Inv(State()) && c.lineno == 0
      modifies this`c, history`index
      ensures var r := Navigation.HistoryUp(old(State()));
        panicked == r.out.Panic? && (!panicked ==> State() == r.ed)
    {
      c := c.(useHistory := true);
      var got := history.Prev();
      var shown: seq<string>;
      match got {
        case Some(s) =>
          if |s| == 0 {
            return true;
          }
          c := PrintClamp(s, c);
          c := c.(lineno := |s| - 1);
          shown := s;
        case None =>
          var cur := history.Cur();
          match cur {
            case Some(s) =>
              shown := s;
            case None =>
              c := c.(useHistory := false);
              shown := lines;
          }
      }
      var sLen := |shown[c.lineno]|;
      if c.charno == 0 || c.charno > sLen {
        c := c.(charno := sLen);
      }
      panicked := false;
    }

    /** `history_up!(retain ...)`. */
    method HistoryUpRetain() returns (panicked: bool)
      requires Inv(State())
      modifies this`c, history`index
      ensures var r := Navigation.HistoryUpRetain(old(State()));
        panicked == r.out.Panic? && (!panicked ==> State() == r.ed)
    {
      var lineno := c.lineno;
      if lineno > 0 {
        c := c.(lineno := 0);
      }
      panicked := HistoryUp();
      if !panicked && lineno < c.lineno {
        c := c.(lineno := lineno);
      }
    }

    /** `history_down!`. */
    method HistoryDown() returns (panicked: bool)
      requires Inv(State())
      modifies this`c, history`index
      ensures var r := Navigation.HistoryDown(old(State()));
        panicked == r.out.Panic? && (!panicked ==> State() == r.ed)
    {
      var got := history.Next();
      var shown: seq<string>;
      match got {
        case Some(s) =>
          shown := s;
        case None =>
          c := c.(useHistory := false);
          shown := lines;
      }
      c := c.(lineno := 0);
      if |shown| == 0 {
        return true;
      }
      c := PrintClamp(shown, c);
      var sLen := |shown[c.lineno]|;
      if c.charno == 0 || c.charno > sLen {
        c := c.(charno := sLen);
      }
      panicked := false;
    }

    /** `history_down!(retain ...)`. */
    method HistoryDownRetain() returns (panicked: bool)
      requires Inv(State())
      modifies this`c, history`index
      ensures var r := Navigation.HistoryDownRetain(old(State()));
        panicked == r.out.Panic? && (!panicked ==> State() == r.ed)
    {
      var lineno := c.lineno;
      panicked := HistoryDown();
      if !panicked {
        lineno := Min(lineno, |Active(State())| - 1);
        if lineno > 0 {
          c := c.(lineno := lineno);
        }
      }
    }
  
    /** A printable character: `get_byte_i` turns the column into the byte offset of character
        `min(charno, len)` (see `Text.InsertAtBytes`), where the character is inserted. */
    method TypeChar(ch: char)
      requires Inv(State())
      modifies this`lines, this`c, history`index
      ensures State() == InsertChar(old(State()), ch).ed
    {
      MaterialiseLines();
      var k := c.lineno;
      lines := lines[k := InsertAt(lines[k], c.charno, ch)];
      c := c.(charno := c.charno + 1);
    }

    /** Tab: `insert_str` at the column taken as a byte offset, which must be a character
        boundary of the line. */
    method TypeTab() returns (panicked: bool)
      requires Inv(State())
      modifies this`lines, this`c, history`index
      ensures var r := InsertTab(old(State()));
        panicked == r.out.Panic? && (!panicked ==> State() == r.ed)
    {
      MaterialiseLines();
      var k := c.lineno;
      var line := lines[k];
      var at := CharAtByte(line, c.charno);
      if at.None? {
        return true;
      }
      lines := lines[k := line[..at.value] + "    " + line[at.value..]];
      c := c.(charno := c.charno + 4);
      panicked := false;
    }

    /** Backspace inside a line: `String::remove` at the byte offset of the character before
        the cursor, which panics when that offset is the end of the line. */
    method RemovePrevChar() returns (panicked: bool)
      requires Inv(State()) && c.charno > 0
      modifies this`lines, this`c, history`index
      ensures var r := DeletePrevChar(old(State()));
        panicked == r.out.Panic? && (!panicked ==> State() == r.ed)
    {
      MaterialiseLines();
      c := c.(charno := c.charno - 1);
      var k := c.lineno;
      if c.charno >= |lines[k]| {
        return true;
      }
      lines := lines[k := RemoveAt(lines[k], c.charno)];
      panicked := false;
    }

    /** Backspace at column 0: the line is removed and appended to the one above. */
    method JoinPrevious()
      requires Inv(State()) && c.lineno > 0
      modifies this`lines, this`c, history`index
      ensures State() == JoinWithPrevious(old(State())).ed
    {
      MaterialiseLines();
      ghost var e := lines;
      c := c.(lineno := c.lineno - 1);
      var k := c.lineno;
      c := c.(charno := |lines[k]|);
      var line := lines[k + 1];
      lines := lines[..k + 1] + lines[k + 2..];
      lines := lines[k := lines[k] + line];
      assert lines == e[..k] + [e[k] + e[k + 1]] + e[k + 2..];
      c := PrintClamp(lines, c);
    }

    /** Delete inside a line: `String::remove` at the cursor's character. */
    method RemoveChar()
      requires Inv(State()) && c.charno < |CurLine(State())|
      modifies this`lines, this`c, history`index
      ensures State() == DeleteChar(old(State())).ed
    {
      MaterialiseLines();
      var k := c.lineno;
      lines := lines[k := RemoveAt(lines[k], c.charno)];
    }

    /** Delete at the end of a line: the next line is removed and appended to it. */
    method JoinNext()
      requires Inv(State()) && c.lineno + 1 < |Active(State())|
      modifies this`lines, this`c, history`index
      ensures State() == JoinWithNext(old(State())).ed
    {
      MaterialiseLines();
      ghost var e := lines;
      var k := c.lineno;
      var line := lines[k + 1];
      lines := lines[..k + 1] + lines[k + 2..];
      lines := lines[k := lines[k] + line];
      assert lines == e[..k] + [e[k] + e[k + 1]] + e[k + 2..];
      c := PrintClamp(lines, c);
    }

    /** Ctrl-L. */
    method RedrawScreen()
      requires Inv(State())
      modifies this`c
      ensures State() == Redraw(old(State())).ed
    {
      var lineno := c.lineno;
      c := c.(lineno := 0);
      var shown := Active(State());
      c := PrintClamp(shown, c);
      c := c.(lineno := lineno);
      c := c.(charno := Min(c.charno, |shown[c.lineno]|));
    }

    /** The code after the loop of `next`: join, push, reset. */
    method SubmitLines() returns (src: string)
      requires Inv(State())
      modifies this`lines, this`c, history
      ensures Stepped(State(), Return(src)) == Submit(old(State()))
    {
      src := Join(Active(State()), '\n');
      if c.useHistory {
        var cur := history.Cur();
        history.Push(cur.value);
      } else {
        history.Push(lines);
      }
      ResetLines();
    }

    /** Enter. */
    method EnterPressed(indent: seq<string> -> nat) returns (out: Outcome)
      requires Inv(State())
      modifies this`lines, this`c, history
      ensures Stepped(State(), out) == EnterKey(old(Config()), old(State()), indent)
    {
      if attached.Some? {
        ResetLines();
        return Return("detach");
      }
      var shown := Active(State());
      if IsBlank(shown[0]) {
        return Continue;
      }
      if !c.useHistory && |lines| == 1 && lines[0] == clearKeyword {
        c := c.(charno := 0);
        lines := lines[0 := ""];
        return Continue;
      }
      if c.useHistory && c.lineno + 1 == |shown| {
        var src := SubmitLines();
        return Return(src);
      }
      var k := indent(shown[..c.lineno + 1]);
      if !c.useHistory && c.lineno + 1 == |lines| && k == 0 {
        var src := SubmitLines();
        return Return(src);
      }
      assert EnterKey(old(Config()), old(State()), indent) == OpenLine(old(State()), k);
      OpenIndentedLine(k);
      out := Continue;
    }

    /** Enter that continues the command: a line of `k` spaces is inserted below the cursor. */
    method OpenIndentedLine(k: nat)
      requires Inv(State())
      modifies this`lines, this`c, history
      ensures State() == OpenLine(old(State()), k).ed
    {
      MaterialiseLines();
      c := c.(lineno := c.lineno + 1);
      c := c.(charno := k);
      lines := lines[..c.lineno] + [Spaces(k)] + lines[c.lineno..];
      c := PrintClamp(lines, c);
    }
  
    /** The cursor keys: Home, End, Left, Right and the two pairs of history keys. */
    method MoveCursor(key: Key, indent: seq<string> -> nat) returns (panicked: bool)
      requires Inv(State()) && (IsMotion(key) || key.PageUp? || key.PageDown?)
      modifies this`lines, this`c, history
      ensures var r := Step(old(Config()), old(State()), key, indent);
        panicked == r.out.Panic? && (!panicked ==> State() == r.ed)
    {
      panicked := false;
      match key {
        case Home =>
          c := c.(charno := 0);
        case End =>
          c := c.(charno := |CurLine(State())|);
        case Left =>
          if c.charno > 0 {
            c := c.(charno := c.charno - 1);
          }
        case Right =>
          if c.charno < |CurLine(State())| {
            c := c.(charno := c.charno + 1);
          }
        case PageUp =>
          panicked := HistoryUpRetain();
        case Up =>
          if c.lineno == 0 {
            panicked := HistoryUp();
          } else {
            c := c.(lineno := c.lineno - 1);
            c := c.(charno := Min(|CurLine(State())|, c.charno));
          }
        case PageDown =>
          panicked := HistoryDownRetain();
        case Down =>
          if c.useHistory && c.lineno + 1 == |history.Cur().value| {
            panicked := HistoryDown();
          } else if !c.useHistory && c.lineno + 1 == |lines| {
          } else {
            c := c.(lineno := c.lineno + 1);
            c := c.(charno := Min(|CurLine(State())|, c.charno));
          }
      }
    }

    /** One key event of the loop of `next`, dispatched in the source's order. */
    method HandleKey(key: Key, indent: seq<string> -> nat) returns (out: Outcome)
      requires Inv(State())
      modifies this`lines, this`c, history
      ensures var r := Step(old(Config()), old(State()), key, indent);
        out == r.out && (!out.Panic? ==> State() == r.ed)
    {
      var panicked := false;
      match key {
        case Char(ch, ctrl) =>
          if ctrl && ch == 'c' {
            ResetLines();
            return Return("exit");
          } else if ctrl && ch == 'd' {
            ResetLines();
            return Return("detach");
          } else if ctrl && ch == 'l' {
            RedrawScreen();
          } else {
            TypeChar(ch);
          }
        case Esc =>
          ResetLines();
          return Return("back");
        case Tab =>
          panicked := TypeTab();
        case Home | End | Left | Right | PageUp | Up | PageDown | Down =>
          panicked := MoveCursor(key, indent);
        case Backspace =>
          if c.charno > 0 {
            panicked := RemovePrevChar();
          } else if c.lineno > 0 {
            JoinPrevious();
          }
        case Delete =>
          if c.charno < |CurLine(State())| {
            RemoveChar();
          } else if c.lineno + 1 < |Active(State())| {
            JoinNext();
          }
        case Enter =>
          out := EnterPressed(indent);
          return;
        case Other =>
      }
      out := if panicked then Panic else Continue;
    }

    /** `next`, fed a finite list of key events: the lines kept from an interrupted call are
        resumed (or one empty line is started), and keys are handled until one returns a
        command or a sentinel, panics, or the list runs out with the call still waiting.
        It reports how it ended and how many keys it read. */
    method Next(keys: seq<Key>, indent: seq<string> -> nat) returns (ending: Ending, used: nat)
      requires Valid()
      modifies this`lines, this`c, history
      ensures var r := RunKeys(old(Config()), Begin(old(State())), keys, indent);
        ending == r.ending && used == r.used && (!ending.Panicked? ==> State() == r.ed)
      ensures !ending.Panicked? ==> Valid()
    {
      if lines == [] {
        lines := [""];
      }
      ghost var start := State();
      assert start == Begin(old(State()));
      var i := 0;
      while i < |keys|
        invariant 0 <= i <= |keys|
        invariant Inv(State()) && Config() == old(Config())
        invariant var rest := RunKeys(Config(), State(), keys[i..], indent);
          RunKeys(Config(), start, keys, indent) == rest.(used := rest.used + i)
      {
        assert keys[i..][0] == keys[i] && keys[i..][1..] == keys[i + 1..];
        var out := HandleKey(keys[i], indent);
        match out {
          case Return(v) =>
            return Returned(v), i + 1;
          case Panic =>
            return Panicked, i + 1;
          case Continue =>
        }
        i := i + 1;
      }
      assert keys[i..] == [];
      ending, used := Pending, |keys|;
    }
  }
}
