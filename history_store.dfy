/** The history store as a value: a double-ended queue of commands, newest at index 0,
    with a navigation index where -1 means "not browsing". The `History` class mirrors
    these operations on its fields. */
module HistoryStore {
  import opened Text

  /** One command: its lines. */
  type Entry = seq<string>

  /** `cap` is the capacity the deque was actually allocated with: eviction happens when the
      length reaches it. */
  datatype Store = Store(buffer: seq<Entry>, index: int, cap: nat)

  predicate Valid(s: Store)
  {
    1 <= s.cap && |s.buffer| <= s.cap && -1 <= s.index < |s.buffer|
  }

  /** A store freshly allocated with room for `cap` entries. */
  function Empty(cap: nat): (r: Store)
    requires cap >= 1
    ensures Valid(r) && r.buffer == [] && r.index == -1
  {
    Store([], -1, cap)
  }

  function Len(s: Store): nat { |s.buffer| }

  /** `at_capacity`: the length has reached the allocated capacity. */
  predicate AtCapacity(s: Store)
    ensures Valid(s) ==> (AtCapacity(s) <==> |s.buffer| >= s.cap)
    ensures Valid(s) && AtCapacity(s) ==> |s.buffer| >= 1
  {
    |s.buffer| == s.cap
  }

  /** `push`: drop the oldest entry if the store is full, then put `e` in front and stop browsing. */
  function Push(s: Store, e: Entry): (r: Store)
    requires Valid(s)
    ensures Valid(r) && r.cap == s.cap && r.index == -1
    ensures |r.buffer| == if AtCapacity(s) then |s.buffer| else |s.buffer| + 1
    ensures r.buffer[0] == e
    ensures forall k :: 0 <= k < |r.buffer| - 1 ==> r.buffer[k + 1] == s.buffer[k]
  {
    var kept := if AtCapacity(s) then s.buffer[..|s.buffer| - 1] else s.buffer;
    Store([e] + kept, -1, s.cap)
  }

  /** `reset_iter`. */
  function ResetIter(s: Store): (r: Store)
    ensures r.buffer == s.buffer && r.cap == s.cap && r.index == -1
    ensures Valid(s) ==> Valid(r) && Cur(r).None?
  {
    s.(index := -1)
  }

  /** `clear`. */
  function Clear(s: Store): (r: Store)
    requires Valid(s)
    ensures Valid(r) && r.buffer == [] && r.index == -1 && r.cap == s.cap
  {
    Store([], -1, s.cap)
  }

  /** `cur`: the entry under the navigation index, if the store is non-empty and browsing. */
  function Cur(s: Store): (r: Option<Entry>)
    requires Valid(s)
    ensures r.None? <==> |s.buffer| == 0 || s.index == -1
    ensures r.Some? ==> r.value == s.buffer[s.index]
  {
    if |s.buffer| > 0 && s.index >= 0 then Some(s.buffer[s.index]) else None
  }

  /** The store after a navigation step, and the entry the step landed on. */
  datatype Nav = Nav(store: Store, got: Option<Entry>)

  /** `prev`: one step towards older entries, when there is one. */
  function Prev(s: Store): (r: Nav)
    requires Valid(s)
    ensures Valid(r.store) && r.store.buffer == s.buffer && r.store.cap == s.cap
    ensures r.got.Some? <==> s.index + 1 < |s.buffer|
    ensures r.got.Some? ==> r.store.index == s.index + 1 && r.got.value == s.buffer[s.index + 1]
    ensures r.got.None? ==> r.store == s
  {
    var i := s.index + 1;
    if i < |s.buffer| then Nav(s.(index := i), Some(s.buffer[i])) else Nav(s, None)
  }

  /** `next`: one step towards newer entries; from index 0 it ends browsing and yields nothing,
      and from -1 it changes nothing. */
  function Next(s: Store): (r: Nav)
    requires Valid(s)
    ensures Valid(r.store) && r.store.buffer == s.buffer && r.store.cap == s.cap
    ensures s.index >= 0 ==> r.store.index == s.index - 1
    ensures s.index == -1 ==> r.store == s
    ensures r.got.Some? <==> s.index >= 1
    ensures r.got.Some? ==> r.got.value == s.buffer[s.index - 1]
  {
    var i := s.index - 1;
    if i >= -1 then Nav(s.(index := i), if i >= 0 then Some(s.buffer[i]) else None)
    else Nav(s, None)
  }

  /** Stepping back then forward returns to where browsing was. */
  lemma PrevThenNext(s: Store)
    requires Valid(s) && Prev(s).got.Some?
    ensures Next(Prev(s).store).store == s
    ensures s.index >= 0 ==> Next(Prev(s).store).got == Cur(s)
  {
  }

  /** Stepping forward then back returns to where browsing was. */
  lemma NextThenPrev(s: Store)
    requires Valid(s) && s.index >= 0
    ensures Prev(Next(s).store).store == s
    ensures Prev(Next(s).store).got == Cur(s)
  {
  }

  /** Pushing a list of entries in order, as loading a history file does. */
  function PushAll(s: Store, es: seq<Entry>): (r: Store)
    requires Valid(s)
    ensures Valid(r) && r.cap == s.cap
    ensures es != [] ==> r.index == -1 && |r.buffer| >= 1 && r.buffer[0] == es[|es| - 1]
    decreases |es|
  {
    if es == [] then s else Push(PushAll(s, es[..|es| - 1]), es[|es| - 1])
  }

  /** The entries pushed into a store with room for all of them, newest first: `es` reversed,
      in front of what was there. */
  lemma {:induction false} PushAllNoEviction(s: Store, es: seq<Entry>)
    requires Valid(s) && |s.buffer| + |es| <= s.cap
    ensures PushAll(s, es).buffer == Reversed(es) + s.buffer
    decreases |es|
  {
    if es != [] {
      var init, last := es[..|es| - 1], es[|es| - 1];
      PushAllNoEviction(s, init);
      var t := PushAll(s, init);
      assert !AtCapacity(t);
      assert PushAll(s, es) == Push(t, last);
      assert Push(t, last).buffer == [last] + t.buffer;
      assert Reversed(es) == [last] + Reversed(init);
    }
  }

  /** `es` newest first. */
  function Reversed(es: seq<Entry>): (r: seq<Entry>)
    ensures |r| == |es|
    ensures forall k :: 0 <= k < |es| ==> r[k] == es[|es| - 1 - k]
  {
    if es == [] then [] else [es[|es| - 1]] + Reversed(es[..|es| - 1])
  }

  /** Once full, a store stays exactly full however many entries are pushed (the length
      never exceeds the capacity, by `Valid`). */
  lemma {:induction false} PushAllStaysFull(s: Store, es: seq<Entry>)
    requires Valid(s)
    ensures AtCapacity(s) ==> AtCapacity(PushAll(s, es))
    decreases |es|
  {
    if es != [] {
      PushAllStaysFull(s, es[..|es| - 1]);
    }
  }

  /** Three pushes into a store allocated for two evict the oldest; into one allocated for
      three (what a request for capacity 2 allocates at least), nothing is evicted. */
  lemma EvictionScenario()
    ensures PushAll(Empty(2), [["a"], ["b"], ["c"]]).buffer == [["c"], ["b"]]
    ensures PushAll(Empty(3), [["a"], ["b"], ["c"]]).buffer == [["c"], ["b"], ["a"]]
  {
    var es: seq<Entry> := [["a"], ["b"], ["c"]];
    assert es[..2] == [["a"], ["b"]] && es[..2][..1] == [["a"]] && es[..2][..1][..0] == [];
  }
}
