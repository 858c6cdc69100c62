/**
 * Client scenarios of the list on `[1, 2, 3, 4, 5]`: the removal sequences of the
 * repository's tests, and the edges of indexing and removal.
 */
module Scenarios {
  import opened Basics
  import opened Rank
  import opened Ledger
  import opened JitLists

  /** `remove_one`: removing index 1 leaves `[1, 3, 4, 5]`. */
  method RemoveOne() returns (xs: seq<int>, n: nat)
    ensures xs == [1, 3, 4, 5] && n == 4
  {
    var l := new JitList([1, 2, 3, 4, 5]);
    l.Remove(1);
    assert l.guards == [1] && l.list == [1, 2, 3, 4, 5] && l.len == 4;
    SlotsAfterOne();
    xs := l.IntoIter();
    n := l.len;
  }

  lemma SlotsAfterOne()
    ensures Sorted([1])
    ensures Pick([1, 2, 3, 4, 5], Routine([1], 4)) == [1, 3, 4, 5]
  {
    assert Translate([1], 0) == 0;
    assert Translate([1], 1) == 2;
    assert Translate([1], 2) == 3;
    assert Translate([1], 3) == 4;
  }

  /** `remove_two`: removing index 1 twice leaves `[1, 4, 5]`. */
  method RemoveTwo() returns (xs: seq<int>, n: nat)
    ensures xs == [1, 4, 5] && n == 3
  {
    var l := new JitList([1, 2, 3, 4, 5]);
    l.Remove(1);
    l.Remove(1);
    assert l.guards == [1, 1] && l.list == [1, 2, 3, 4, 5] && l.len == 3;
    SlotsAfterTwo();
    xs := l.IntoIter();
    n := l.len;
  }

  lemma SlotsAfterTwo()
    ensures Sorted([1, 1])
    ensures Pick([1, 2, 3, 4, 5], Routine([1, 1], 3)) == [1, 4, 5]
  {
    assert Translate([1, 1], 0) == 0;
    assert Translate([1, 1], 1) == 3;
    assert Translate([1, 1], 2) == 4;
  }

  /** `remove_three`: removing index 1, index 1 and then index 2 leaves `[1, 4]`. */
  method RemoveThree() returns (xs: seq<int>, n: nat)
    ensures xs == [1, 4] && n == 2
  {
    var l := new JitList([1, 2, 3, 4, 5]);
    l.Remove(1);
    l.Remove(1);
    l.Remove(2);
    assert l.guards == [1, 1, 2] && l.list == [1, 2, 3, 4, 5] && l.len == 2;
    SlotsAfterThree();
    xs := l.IntoIter();
    n := l.len;
  }

  lemma SlotsAfterThree()
    ensures Sorted([1, 1, 2])
    ensures Pick([1, 2, 3, 4, 5], Routine([1, 1, 2], 2)) == [1, 4]
  {
    assert [1, 1, 2][..2] == [1, 1] && [1, 1][..1] == [1] && [1][..0] == [];
    assert Translate([1, 1, 2], 0) == 0;
    assert Translate([1, 1, 2], 1) == 3;
  }

  /** After removing the front, index 0 reads the old second element and index 4 is out of bounds. */
  method IndexAfterRemovingFront() returns (first: Result<int>, past: Result<int>, n: nat)
    ensures first == Ok(2) && past == Err(OutOfBounds) && n == 4
  {
    var l := new JitList([1, 2, 3, 4, 5]);
    l.Remove(0);
    assert l.guards == [0] && l.list == [1, 2, 3, 4, 5] && l.len == 4;
    assert Translate([0], 0) == 1;
    first := l.Index(0);
    past := l.Index(4);
    n := l.Len();
  }

  /** Removing at the length fails the bounds check and leaves the list as it was. */
  method RemovePastEnd() returns (r: Outcome, n: nat, xs: seq<int>)
    ensures r == Fail(OutOfBounds) && n == 5 && xs == [1, 2, 3, 4, 5]
  {
    var l := new JitList([1, 2, 3, 4, 5]);
    r := l.TryRemove(5);
    assert r == Fail(OutOfBounds);
    assert l.removed == [] && l.list == [1, 2, 3, 4, 5];
    NothingRemovedYieldsAll();
    n := l.Len();
    xs := l.IntoIter();
  }

  lemma NothingRemovedYieldsAll()
    ensures Pick([1, 2, 3, 4, 5], Yielded(5, [], 0)) == [1, 2, 3, 4, 5]
  {
    assert Yielded(5, [], 0) == [0, 1, 2, 3, 4];
  }

  /** A write through index 1 after removing index 1 lands in slot 2 and shows in the iteration. */
  method WriteAfterRemoval() returns (r: Outcome, xs: seq<int>)
    ensures r == Pass && xs == [1, 9, 4, 5]
  {
    var l := new JitList([1, 2, 3, 4, 5]);
    l.Remove(1);
    assert l.guards == [1] && l.len == 4;
    assert Translate([1], 1) == 2;
    r := l.IndexMut(1, 9);
    assert r == Pass;
    assert l.list == [1, 2, 3, 4, 5][2 := 9];
    assert l.guards == [1] && l.list == [1, 2, 9, 4, 5] && l.len == 4;
    SlotsAfterWrite();
    xs := l.IntoIter();
  }

  lemma SlotsAfterWrite()
    ensures Sorted([1])
    ensures Pick([1, 2, 9, 4, 5], Routine([1], 4)) == [1, 9, 4, 5]
  {
    SlotsAfterOne();
  }

  /** `remove(3); remove(0)` on `[1, 2, 3, 4, 5]`. */
  method RemoveThreeThenZero() returns (l: JitList<int>)
    ensures fresh(l) && l.Valid()
    ensures l.guards == [3, 0] && l.list == [1, 2, 3, 4, 5] && l.removed == [0, 3]
  {
    l := new JitList([1, 2, 3, 4, 5]);
    l.Remove(3);
    l.Remove(0);
    assert l.guards == [3, 0];
    OutOfOrderRemovalsDisagree();
  }

  /** After `remove(3); remove(0)`, index 2 reads 4, the element the first removal took out. */
  method OutOfOrderIndex() returns (third: Result<int>)
    ensures third == Ok(4)
  {
    var l := RemoveThreeThenZero();
    OutOfOrderRemovalsDisagree();
    third := l.Index(2);
  }

  /** After `remove(3); remove(0)`, iteration yields `[2, 3, 5]`. */
  method OutOfOrderIteration() returns (xs: seq<int>)
    ensures xs == [2, 3, 5]
  {
    var l := RemoveThreeThenZero();
    OutOfOrderRemovalsDisagree();
    PickSurvivorsOfThreeZero();
    xs := l.IntoIter();
  }

  lemma PickSurvivorsOfThreeZero()
    ensures Pick([1, 2, 3, 4, 5], [1, 2, 4]) == [2, 3, 5]
  {
  }
}
