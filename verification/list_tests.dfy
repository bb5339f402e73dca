/**
 * The unit tests of the list, as scenarios: each test method builds a list,
 * performs the test's operations, and returns what the test observes; its
 * postcondition states the test's expectations. `Collect`, `ForEachMut`, `Range`
 * and `PushRange` are helpers the scenarios share, `ClearTest` states two checks
 * beyond its test, and the last two members replay remove_if_test's first steps
 * on the arena model of `RemoveIfFault`.
 */
module ListTests {
  import opened Sequences
  import opened LinkedLists
  import F = RemoveIfFault

  /** Drains a fresh read-only cursor: the elements come out from head to tail. */
  method Collect<T>(list: LinkedList<T>) returns (s: seq<T>)
    requires list.Valid()
    ensures s == list.Contents
  {
    var it := list.Iter();
    s := [];
    while true
      invariant it.Valid() && it.list == list && fresh(it)
      invariant s == list.Contents[..it.pos]
      decreases |list.Contents| - it.pos
    {
      var r := it.Next();
      if r.None? {
        break;
      }
      s := s + [r.value];
    }
    assert list.Contents[..it.pos] == list.Contents;
  }

  /**
   * Drains a fresh writing cursor, applying `write` to each element as it is
   * yielded: every element is replaced by its image, and the yielded values
   * are the new contents.
   */
  method ForEachMut<T>(list: LinkedList<T>, write: T -> T) returns (yielded: seq<T>)
    requires list.Valid()
    modifies list.Repr
    ensures list.Valid() && list.Repr == old(list.Repr)
    ensures list.Nodes == old(list.Nodes) && list.head == old(list.head) && list.tail == old(list.tail)
    ensures |list.Contents| == |old(list.Contents)|
    ensures forall i :: 0 <= i < |list.Contents| ==> list.Contents[i] == write(old(list.Contents)[i])
    ensures yielded == list.Contents
  {
    ghost var cs := list.Contents;
    var it := list.IterMut();
    yielded := [];
    while true
      invariant it.Valid() && it.list == list && fresh(it)
      invariant list.Repr == old(list.Repr) && |list.Contents| == |cs| && it.pos <= |cs|
      invariant list.Nodes == old(list.Nodes) && list.head == old(list.head) && list.tail == old(list.tail)
      invariant forall i :: 0 <= i < it.pos ==> list.Contents[i] == write(cs[i])
      invariant forall i :: it.pos <= i < |cs| ==> list.Contents[i] == cs[i]
      invariant yielded == list.Contents[..it.pos]
      modifies list.Repr, it
      decreases |cs| - it.pos
    {
      var r := it.Next(write);
      if r.None? {
        break;
      }
      yielded := yielded + [r.value];
    }
    assert list.Contents[..it.pos] == list.Contents;
  }

  /** The start of it_works: two pushes at the back. */
  method ItWorksStart() returns (list: LinkedList<int>, seen: seq<(Option<int>, Option<int>)>)
    ensures fresh(list.Repr) && list.Valid() && list.Contents == [1, 2]
    ensures seen == [(Some(1), Some(1)), (Some(1), Some(2))]
  {
    list := new LinkedList<int>();
    list.PushBack(1);
    assert list.Contents == [1];
    var step1 := (list.Front(), list.Back());
    list.PushBack(2);
    seen := [step1, (list.Front(), list.Back())];
  }

  /** it_works: the front and back seen after each push and pop. */
  method ItWorks() returns (seen: seq<(Option<int>, Option<int>)>)
    ensures seen == [(Some(1), Some(1)), (Some(1), Some(2)), (Some(0), Some(2)),
                     (Some(0), Some(1)), (Some(1), Some(1)), (None, None)]
  {
    var list, start := ItWorksStart();
    list.PushFront(0);
    assert list.Contents == [0, 1, 2];
    var step3 := (list.Front(), list.Back());
    list.PopBack();
    assert list.Contents == [0, 1];
    var step4 := (list.Front(), list.Back());
    list.PopFront();
    assert list.Contents == [1];
    var step5 := (list.Front(), list.Back());
    list.PopFront();
    var step6 := (list.Front(), list.Back());
    assert step3 == (Some(0), Some(2)) && step4 == (Some(0), Some(1));
    assert step5 == (Some(1), Some(1)) && step6 == (None, None);
    seen := [start[0], start[1], step3, step4, step5, step6];
  }

  /** The integers from 0 up to, but not including, `n`. */
  function Range(n: nat): (r: seq<int>)
    ensures |r| == n && forall i :: 0 <= i < n ==> r[i] == i
  {
    if n == 0 then [] else Range(n - 1) + [n - 1]
  }

  /** A fresh list holding 0, 1, ..., n - 1, pushed at the back in that order. */
  method PushRange(n: nat) returns (list: LinkedList<int>)
    ensures fresh(list.Repr) && list.Valid() && list.Contents == Range(n)
  {
    list := new LinkedList<int>();
    var i := 0;
    while i < n
      invariant 0 <= i <= n
      invariant fresh(list.Repr) && list.Valid() && list.Contents == Range(i)
    {
      list.PushBack(i);
      i := i + 1;
    }
  }

  /** iter_test: iteration yields the elements in order. */
  method IterTest() returns (seen: seq<int>)
    ensures seen == [0, 1, 2, 3]
  {
    var list := PushRange(4);
    seen := Collect(list);
  }

  /** itermut_test: doubling each element through the writing cursor. */
  method IterMutTest() returns (seen: seq<int>)
    ensures seen == [0, 2, 4, 6]
  {
    var list := PushRange(4);
    seen := ForEachMut(list, x => x * 2);
  }

  predicate Odd(n: int) { n % 2 == 1 }

  predicate Always(n: int) { true }

  /** Removing the odd elements of 0 to 5 leaves 0, 2 and 4. */
  lemma OddsRemoved()
    ensures Surviving(Range(6), Odd) == [0, 2, 4]
  {
    assert Range(6) == [0, 1, 2, 3, 4, 5];
    assert Surviving([4, 5], Odd) == [4];
    assert Surviving([2, 3, 4, 5], Odd) == [2, 4];
  }

  /** remove_if_test: removing the odd elements of 0 to 5, then removing everything. */
  method RemoveIfTest() returns (seen: seq<int>, front: Option<int>, back: Option<int>)
    ensures seen == [0, 2, 4] && front == None && back == None
  {
    var list := PushRange(6);
    list.RemoveIf(Odd);
    OddsRemoved();
    seen := Collect(list);
    SurvivingEmptyIff(list.Contents, Always);
    list.RemoveIf(Always);
    front, back := list.Front(), list.Back();
  }

  /**
   * clear_test: a cleared list is empty. The second clear and the final
   * iteration go beyond the test: clearing again leaves the list empty, and an
   * empty list yields nothing.
   */
  method ClearTest() returns (empty: bool, stillEmpty: bool, seen: seq<int>)
    ensures empty && stillEmpty && seen == []
  {
    var list := PushRange(4);
    list.Clear();
    empty := list.IsEmpty();
    list.Clear();
    stillEmpty := list.IsEmpty();
    seen := Collect(list);
  }

  /** The list 0, 1, 2, 3, 4, 5 of the remove_if test, node i at address i. */
  function TestArena(): (h: F.Arena<int>)
    ensures h.Keys == {0, 1, 2, 3, 4, 5}
  {
    map[0 := F.Slot(None, Some(1), 0), 1 := F.Slot(Some(0), Some(2), 1), 2 := F.Slot(Some(1), Some(3), 2),
        3 := F.Slot(Some(2), Some(4), 3), 4 := F.Slot(Some(3), Some(5), 4), 5 := F.Slot(Some(4), None, 5)]
  }

  /**
   * On the test's list with the test's predicate, the as-written loop keeps
   * node 0 and then faults at node 1, while the corrected step moves on to node 2.
   */
  lemma TestFaultsAtSecondNode()
    ensures F.StepAsWritten(TestArena(), 0, Odd) == F.Ok((TestArena(), Some(1)))
    ensures F.StepAsWritten(TestArena(), 1, Odd) == F.Err(F.UseAfterFree(1))
    ensures F.StepCorrected(TestArena(), 1, Odd).value.1 == Some(2)
  {
    assert TestArena()[0].elem == 0 && TestArena()[1].elem == 1;
  }
}
