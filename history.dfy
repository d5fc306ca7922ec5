/** The REPL's command history (`src/repl/history.rs`): a bounded deque of commands, newest
    first, with a navigation index that `prev`, `next` and `reset_iter` move in place. Every
    method is specified by the operation of the same name on `HistoryStore.Store`. */
module ReplHistory {
  import opened Text
  import HS = HistoryStore
  import opened HistoryFormat

  class History {
    /** The commands, newest at index 0. */
    var buffer: seq<HS.Entry>
    /** The navigation index; -1 when no command is being browsed. */
    var index: int
    /** The capacity the deque was allocated with. */
    const cap: nat

    function Model(): HS.Store
      reads this
    {
      HS.Store(buffer, index, cap)
    }

    ghost predicate Valid()
      reads this
    {
      HS.Valid(Model())
    }

    /** `with_capacity`: the deque is allocated for `capacity + 1` commands, and the allocator
        may round that up to `allocation`. */
    constructor WithCapacity(capacity: nat, allocation: nat)
      requires allocation >= capacity + 1
      ensures Valid() && Model() == HS.Empty(allocation)
    {
      buffer := [];
      index := -1;
      cap := allocation;
    }

    function Len(): nat
      reads this
    {
      |buffer|
    }

    predicate AtCapacity()
      reads this
    {
      |buffer| == cap
    }

    /** `cur`. */
    function Cur(): Option<HS.Entry>
      reads this
      requires Valid()
    {
      HS.Cur(Model())
    }

    /** `reset_iter`. */
    method ResetIter()
      modifies this`index
      ensures Model() == HS.ResetIter(old(Model()))
    {
      index := -1;
    }

    /** `push`. */
    method Push(e: HS.Entry)
      requires Valid()
      modifies this
      ensures Valid() && Model() == HS.Push(old(Model()), e)
    {
      if AtCapacity() {
        buffer := buffer[..|buffer| - 1];
      }
      ResetIter();
      buffer := [e] + buffer;
    }

    /** `prev`. */
    method Prev() returns (r: Option<HS.Entry>)
      requires Valid()
      modifies this`index
      ensures Valid() && HS.Nav(Model(), r) == HS.Prev(old(Model()))
    {
      var i := index + 1;
      if i < |buffer| {
        index := i;
        r := Some(buffer[i]);
      } else {
        r := None;
      }
    }

    /** `next`. */
    method Next() returns (r: Option<HS.Entry>)
      requires Valid()
      modifies this`index
      ensures Valid() && HS.Nav(Model(), r) == HS.Next(old(Model()))
    {
      var i := index - 1;
      if i >= -1 {
        index := i;
        r := if i >= 0 then Some(buffer[i]) else None;
      } else {
        r := None;
      }
    }

    /** `clear`. */
    method Clear()
      requires Valid()
      modifies this
      ensures Valid() && Model() == HS.Clear(old(Model()))
    {
      buffer := [];
      ResetIter();
    }

    /** `read_from_file`, given the file's contents: every command the file holds is pushed,
        in file order. */
    method LoadFrom(contents: string)
      requires Valid()
      modifies this
      ensures Valid() && Model() == HS.PushAll(old(Model()), Parse(contents))
    {
      var ls := Lines(contents);
      var lines: HS.Entry := [];
      var i := 0;
      while i < |ls|
        invariant 0 <= i <= |ls|
        invariant Valid()
        invariant Model() == HS.PushAll(old(Model()), ScanLines(ls[..i]).closed)
        invariant lines == ScanLines(ls[..i]).open
      {
        assert ls[..i + 1][..i] == ls[..i];
        ghost var closed := ScanLines(ls[..i]).closed;
        if IsDelimiter(ls[i]) {
          assert (closed + [lines])[..|closed|] == closed;
          Push(lines);
          lines := [];
        } else {
          lines := lines + [ls[i]];
        }
        i := i + 1;
      }
      assert ls[..|ls|] == ls;
    }

    /** `write_to_file`, returning the text it writes. */
    method WriteToString() returns (text: string)
      ensures text == Serialise(buffer)
    {
      text := "";
      var i := |buffer|;
      while i > 0
        invariant 0 <= i <= |buffer|
        invariant text == Serialise(buffer[i..])
      {
        i := i - 1;
        var lines := buffer[i];
        ghost var before := text;
        var j := 0;
        while j < |lines|
          invariant 0 <= j <= |lines|
          invariant text == before + LinesText(lines[..j])
        {
          LinesTextSnoc(lines[..j], lines[j]);
          assert lines[..j + 1] == lines[..j] + [lines[j]];
          text := text + lines[j] + "\n";
          j := j + 1;
        }
        text := text + "---\n";
        assert lines[..|lines|] == lines;
        assert buffer[i..][0] == buffer[i] && buffer[i..][1..] == buffer[i + 1..];
      }
    }
  }
}
