/**
 * The removal ledger (a min-heap of removed physical slots), the heap-driven
 * filter that iteration runs over the backing vector, and how both relate to
 * the translation routine.
 *
 * The heap is modelled by its contents in pop order: an ascending sequence
 * whose first element is what `peek` shows and whose tail is what `pop` leaves.
 */
module Ledger {
  import opened Rank

  ghost predicate Sorted(s: seq<int>)
  {
    forall j, k :: 0 <= j < k < |s| ==> s[j] <= s[k]
  }

  ghost predicate Increasing(s: seq<int>)
  {
    forall j, k :: 0 <= j < k < |s| ==> s[j] < s[k]
  }

  /** Every removal index was below the length the list had when it was removed. */
  ghost predicate ValidRemovals(rs: seq<nat>, n: nat)
  {
    forall j :: 0 <= j < |rs| ==> rs[j] + j < n
  }

  function Elems(s: seq<nat>): set<nat>
  {
    set x | x in s
  }

  /**
   * `BinaryHeap::push`: the heap's contents in pop order after pushing `x`,
   * which goes after every entry at most `x` and before the larger ones.
   */
  function Insert(s: seq<nat>, x: nat): (r: seq<nat>)
    ensures |r| == |s| + 1
  {
    if s == [] || s[|s| - 1] <= x then s + [x]
    else Insert(s[..|s| - 1], x) + [s[|s| - 1]]
  }

  /** Pushing into a heap in pop order keeps it in pop order. */
  lemma {:induction false} InsertSorted(s: seq<nat>, x: nat)
    requires Sorted(s)
    ensures Sorted(Insert(s, x))
  {
    if s != [] && x < s[|s| - 1] {
      var front := s[..|s| - 1];
      var last := s[|s| - 1];
      InsertSorted(front, x);
      InsertPermutes(front, x);
      var r := Insert(s, x);
      assert r == Insert(front, x) + [last];
      forall j, k | 0 <= j < k < |r|
        ensures r[j] <= r[k]
      {
        if k == |r| - 1 {
          assert r[j] in multiset(Insert(front, x));
          assert r[j] == x || r[j] in front;
        }
      }
    }
  }

  /** Pushing adds exactly one entry, `x`, and loses none. */
  lemma {:induction false} InsertPermutes(s: seq<nat>, x: nat)
    ensures multiset(Insert(s, x)) == multiset(s) + multiset{x}
  {
    if s != [] && x < s[|s| - 1] {
      InsertPermutes(s[..|s| - 1], x);
      assert s == s[..|s| - 1] + [s[|s| - 1]];
    }
  }

  /**
   * The ledger after the removals `rs` (logical indices, in removal order):
   * the first removal records its index, every later one the pre-removal
   * routine's answer for its index.
   */
  function LedgerAfter(rs: seq<nat>): (h: seq<nat>)
    ensures |h| == |rs|
  {
    if rs == [] then []
    else
      var before := rs[..|rs| - 1];
      Insert(LedgerAfter(before), Translate(before, rs[|rs| - 1]) as nat)
  }

  /** The ledger is always in pop order, as a min-heap's contents are. */
  lemma {:induction false} LedgerSorted(rs: seq<nat>)
    ensures Sorted(LedgerAfter(rs))
    decreases |rs|
  {
    if rs != [] {
      var before := rs[..|rs| - 1];
      LedgerSorted(before);
      InsertSorted(LedgerAfter(before), Translate(before, rs[|rs| - 1]) as nat);
    }
  }

  /**
   * The physical slots the into_iter filter yields from position `i` on, over
   * a vector of length `n`: the slot equal to the heap's minimum is skipped and
   * popped, every other slot is yielded.
   */
  function Yielded(n: nat, heap: seq<nat>, i: nat): (ys: seq<nat>)
    ensures forall k :: 0 <= k < |ys| ==> i <= ys[k] < n
    decreases n - i
  {
    if i >= n then []
    else if |heap| > 0 && heap[0] == i then Yielded(n, heap[1..], i + 1)
    else [i] + Yielded(n, heap, i + 1)
  }

  /** One step of the filter: the slot under the heap's minimum is skipped, any other is yielded. */
  lemma YieldedStep(n: nat, heap: seq<nat>, i: nat)
    requires i < n
    ensures |heap| > 0 && heap[0] == i ==> Yielded(n, heap, i) == Yielded(n, heap[1..], i + 1)
    ensures !(|heap| > 0 && heap[0] == i) ==> Yielded(n, heap, i) == [i] + Yielded(n, heap, i + 1)
  {
  }

  /** Reference definition: the slots in `lo .. hi` that are not in `gone`, ascending. */
  function Survivors(lo: nat, hi: nat, gone: set<nat>): (s: seq<nat>)
    ensures forall k :: 0 <= k < |s| ==> lo <= s[k] < hi
    decreases hi - lo
  {
    if lo >= hi then []
    else if lo in gone then Survivors(lo + 1, hi, gone)
    else [lo] + Survivors(lo + 1, hi, gone)
  }

  /** The elements of `xs` at the positions `slots`, in that order. */
  function Pick<T>(xs: seq<T>, slots: seq<nat>): (ys: seq<T>)
    requires forall k :: 0 <= k < |slots| ==> slots[k] < |xs|
    ensures |ys| == |slots|
    ensures forall k :: 0 <= k < |slots| ==> ys[k] == xs[slots[k]]
  {
    if slots == [] then [] else [xs[slots[0]]] + Pick(xs, slots[1..])
  }

  /** Slots outside the range do not affect the survivors. */
  lemma {:induction false} SurvivorsIgnore(lo: nat, hi: nat, gone: set<nat>, x: nat)
    requires x < lo || hi <= x
    ensures Survivors(lo, hi, gone + {x}) == Survivors(lo, hi, gone)
    decreases hi - lo
  {
    if lo < hi {
      SurvivorsIgnore(lo + 1, hi, gone, x);
    }
  }

  /** With nothing removed, the survivors are all slots of the range. */
  lemma {:induction false} SurvivorsOfNothing(lo: nat, hi: nat)
    ensures |Survivors(lo, hi, {})| == if lo <= hi then hi - lo else 0
    ensures forall k :: 0 <= k < |Survivors(lo, hi, {})| ==> Survivors(lo, hi, {})[k] == lo + k
    decreases hi - lo
  {
    if lo < hi {
      SurvivorsOfNothing(lo + 1, hi);
    }
  }

  /** Removing the survivor of rank `r` deletes position `r` from the survivors. */
  lemma {:induction false} SurvivorsRemove(lo: nat, hi: nat, gone: set<nat>, r: nat, v: nat)
    requires r < |Survivors(lo, hi, gone)| && Survivors(lo, hi, gone)[r] == v
    ensures Survivors(lo, hi, gone + {v}) == Survivors(lo, hi, gone)[..r] + Survivors(lo, hi, gone)[r + 1..]
    decreases hi - lo, 1
  {
    if lo in gone {
      SurvivorsRemoveSkipped(lo, hi, gone, r, v);
    } else if r == 0 {
      var rest := Survivors(lo + 1, hi, gone);
      assert Survivors(lo, hi, gone) == [lo] + rest;
      SurvivorsIgnore(lo + 1, hi, gone, lo);
      assert Survivors(lo, hi, gone + {v}) == Survivors(lo + 1, hi, gone + {v});
    } else {
      SurvivorsRemoveLater(lo, hi, gone, r, v);
    }
  }

  lemma {:induction false} SurvivorsRemoveSkipped(lo: nat, hi: nat, gone: set<nat>, r: nat, v: nat)
    requires lo in gone
    requires r < |Survivors(lo, hi, gone)| && Survivors(lo, hi, gone)[r] == v
    ensures Survivors(lo, hi, gone + {v}) == Survivors(lo, hi, gone)[..r] + Survivors(lo, hi, gone)[r + 1..]
    decreases hi - lo, 0
  {
    assert Survivors(lo, hi, gone) == Survivors(lo + 1, hi, gone);
    SurvivorsRemove(lo + 1, hi, gone, r, v);
    assert lo in gone + {v};
    assert Survivors(lo, hi, gone + {v}) == Survivors(lo + 1, hi, gone + {v});
  }

  lemma {:induction false} SurvivorsRemoveLater(lo: nat, hi: nat, gone: set<nat>, r: nat, v: nat)
    requires lo !in gone && 0 < r
    requires r < |Survivors(lo, hi, gone)| && Survivors(lo, hi, gone)[r] == v
    ensures Survivors(lo, hi, gone + {v}) == Survivors(lo, hi, gone)[..r] + Survivors(lo, hi, gone)[r + 1..]
    decreases hi - lo, 0
  {
    var s := Survivors(lo, hi, gone);
    var rest := Survivors(lo + 1, hi, gone);
    assert s == [lo] + rest;
    assert rest[r - 1] == v;
    SurvivorsRemove(lo + 1, hi, gone, r - 1, v);
    assert lo !in gone + {v};
    assert Survivors(lo, hi, gone + {v}) == [lo] + Survivors(lo + 1, hi, gone + {v});
    DeleteAfterHead(lo, rest, r);
  }

  /** Deleting position `r > 0` from `[x] + rest` deletes position `r - 1` from `rest`. */
  lemma DeleteAfterHead(x: nat, rest: seq<nat>, r: nat)
    requires 0 < r <= |rest|
    ensures ([x] + rest)[..r] + ([x] + rest)[r + 1..] == [x] + (rest[..r - 1] + rest[r..])
  {
    assert ([x] + rest)[..r] == [x] + rest[..r - 1];
    assert ([x] + rest)[r + 1..] == rest[r..];
  }

  /**
   * With distinct heap entries, none below the cursor, the filter yields
   * exactly the slots that are not in the heap, ascending.
   */
  lemma {:induction false} YieldedIsSurvivors(n: nat, heap: seq<nat>, i: nat)
    requires Increasing(heap)
    requires forall k :: 0 <= k < |heap| ==> i <= heap[k]
    ensures Yielded(n, heap, i) == Survivors(i, n, Elems(heap))
    decreases n - i, 1
  {
    if i < n {
      if |heap| > 0 && heap[0] == i {
        SkipHeapMinimum(n, heap, i);
      } else {
        assert i !in Elems(heap);
        YieldedIsSurvivors(n, heap, i + 1);
      }
    }
  }

  /** The slot under the heap's minimum is popped and not yielded. */
  lemma {:induction false} SkipHeapMinimum(n: nat, heap: seq<nat>, i: nat)
    requires i < n && |heap| > 0 && heap[0] == i
    requires Increasing(heap)
    requires forall k :: 0 <= k < |heap| ==> i <= heap[k]
    ensures Yielded(n, heap, i) == Survivors(i, n, Elems(heap))
    decreases n - i, 0
  {
    YieldedIsSurvivors(n, heap[1..], i + 1);
    assert Elems(heap) == Elems(heap[1..]) + {i} by {
      assert heap == [heap[0]] + heap[1..];
    }
    SurvivorsIgnore(i + 1, n, Elems(heap[1..]), i);
  }

  /** The slots `rs[j] + j`, where removals in non-decreasing order land. */
  function Shifted(rs: seq<nat>): seq<nat>
  {
    seq(|rs|, j requires 0 <= j < |rs| => rs[j] + j)
  }

  /** `Shifted` grows at the back by the last removal plus its position. */
  lemma ShiftedLast(rs: seq<nat>)
    requires rs != []
    ensures |Shifted(rs)| == |rs|
    ensures Shifted(rs) == Shifted(rs[..|rs| - 1]) + [rs[|rs| - 1] + |rs| - 1]
  {
  }

  /** Pushing a value at least every entry of a heap in pop order puts it last. */
  lemma InsertLast(s: seq<nat>, x: nat)
    requires s == [] || s[|s| - 1] <= x
    ensures Insert(s, x) == s + [x]
  {
  }

  /** The last removal, at least the one before it, lands after all earlier slots. */
  lemma InsertShifted(rs: seq<nat>)
    requires rs != []
    requires |rs| == 1 || rs[|rs| - 2] <= rs[|rs| - 1]
    ensures Insert(Shifted(rs[..|rs| - 1]), rs[|rs| - 1] + |rs| - 1) == Shifted(rs)
  {
    var before := rs[..|rs| - 1];
    ShiftedLast(rs);
    if before != [] {
      ShiftedLast(before);
      assert before[|before| - 1] == rs[|rs| - 2];
    }
    InsertLast(Shifted(before), rs[|rs| - 1] + |rs| - 1);
  }

  /**
   * For removal indices in non-decreasing order, the j-th ledger entry is the
   * slot `rs[j] + j`: every earlier removal was at or below it.
   */
  lemma {:induction false} LedgerEntries(rs: seq<nat>)
    requires Sorted(rs)
    ensures LedgerAfter(rs) == Shifted(rs)
  {
    if rs == [] {
      assert Shifted(rs) == [];
    } else {
      var k := |rs| - 1;
      var before := rs[..k];
      LedgerEntries(before);
      CountAllAtMost(before, rs[k]);
      InsertShifted(rs);
    }
  }

  /** For removal indices in non-decreasing order, the ledger never records a slot twice. */
  lemma LedgerDistinct(rs: seq<nat>)
    requires Sorted(rs)
    ensures Increasing(LedgerAfter(rs))
  {
    LedgerEntries(rs);
  }

  /**
   * For removal indices in non-decreasing order, each below the length the
   * list had at its removal, the slots that are not in the ledger are exactly
   * the routine's answers for the logical indices below the current length.
   */
  lemma {:induction false} Agreement(rs: seq<nat>, n: nat)
    requires Sorted(rs)
    requires ValidRemovals(rs, n)
    ensures |rs| <= n
    ensures Survivors(0, n, Elems(LedgerAfter(rs))) == Routine(rs, n - |rs|)
  {
    if rs == [] {
      AgreementBase(n);
    } else {
      var before := rs[..|rs| - 1];
      Agreement(before, n);
      LedgerEntries(before);
      LedgerEntries(rs);
      SurvivorsStep(rs, n);
    }
  }

  /** Before any removal every slot survives, and the routine is the identity. */
  lemma AgreementBase(n: nat)
    ensures Survivors(0, n, Elems(LedgerAfter([]))) == Routine([], n)
  {
    SurvivorsOfNothing(0, n);
    assert Elems([]) == {};
    var all := Survivors(0, n, {});
    forall i | 0 <= i < n
      ensures all[i] == Routine([], n)[i]
    {
      assert Count([], i) == 0;
    }
  }

  /** One more removal pushes the slot the routine gives for it before the removal. */
  lemma LedgerAfterSnoc(before: seq<nat>, r: nat, slot: nat)
    requires slot == Translate(before, r)
    ensures LedgerAfter(before + [r]) == Insert(LedgerAfter(before), slot)
  {
    var rs := before + [r];
    assert rs[..|rs| - 1] == before && rs[|rs| - 1] == r;
  }

  /** One more removal, at least every earlier one, keeps the survivors equal to the routine's answers. */
  lemma SurvivorsStep(rs: seq<nat>, n: nat)
    requires rs != []
    requires forall j :: 0 <= j < |rs| - 1 ==> rs[j] <= rs[|rs| - 1]
    requires rs[|rs| - 1] + |rs| - 1 < n
    requires Survivors(0, n, Elems(Shifted(rs[..|rs| - 1]))) == Routine(rs[..|rs| - 1], n - (|rs| - 1))
    ensures Survivors(0, n, Elems(Shifted(rs))) == Routine(rs, n - |rs|)
  {
    var before := rs[..|rs| - 1];
    var r := rs[|rs| - 1];
    CountAllAtMost(before, r);
    ShiftedLast(rs);
    SurvivorsAfter(before, r, n, Shifted(before));
    assert rs == before + [r];
  }

  /** Removing the slot the routine gives for `r` deletes answer `r` from the routine's answers. */
  lemma SurvivorsAfter(before: seq<nat>, r: nat, n: nat, ledger: seq<nat>)
    requires forall j :: 0 <= j < |before| ==> before[j] <= r
    requires r + |before| < n
    requires Translate(before, r) == r + |before|
    requires Survivors(0, n, Elems(ledger)) == Routine(before, n - |before|)
    ensures Survivors(0, n, Elems(ledger + [r + |before|])) == Routine(before + [r], n - |before| - 1)
  {
    var k := |before|;
    var answers := Routine(before, n - k);
    RoutineShift(before, r, n - k);
    ElemsAppend(ledger, r + k);
    assert Survivors(0, n, Elems(ledger) + {r + k}) == answers[..r] + answers[r + 1..] by {
      SurvivorsRemove(0, n, Elems(ledger), r, r + k);
    }
  }

  /** A push adds its value to the ledger's set of slots. */
  lemma ElemsAppend(s: seq<nat>, x: nat)
    ensures Elems(s + [x]) == Elems(s) + {x}
  {
  }

  /**
   * What a client sees of a removal: when the removed index `r` is at least
   * every earlier one, the elements the routine reaches after the removal are
   * those before it with the element at logical index `r` deleted.
   */
  lemma PickAfterRemove<T>(xs: seq<T>, rs: seq<nat>, r: nat, m: nat)
    requires forall k :: 0 <= k < |rs| ==> rs[k] <= r
    requires r < m
    requires forall i :: 0 <= i < m ==> Translate(rs, i) < |xs|
    ensures forall k :: 0 <= k < m - 1 ==> Translate(rs + [r], k) < |xs|
    ensures Pick(xs, Routine(rs + [r], m - 1)) == Pick(xs, Routine(rs, m))[..r] + Pick(xs, Routine(rs, m))[r + 1..]
  {
    RoutineShift(rs, r, m);
    PickDelete(xs, Routine(rs, m), Routine(rs + [r], m - 1), r);
  }

  /** Picking through a list of slots with one slot deleted deletes the matching element. */
  lemma PickDelete<T>(xs: seq<T>, slots: seq<nat>, fewer: seq<nat>, r: nat)
    requires r < |slots| && fewer == slots[..r] + slots[r + 1..]
    requires forall k :: 0 <= k < |slots| ==> slots[k] < |xs|
    ensures forall k :: 0 <= k < |fewer| ==> fewer[k] < |xs|
    ensures Pick(xs, fewer) == Pick(xs, slots)[..r] + Pick(xs, slots)[r + 1..]
  {
    DeleteAt(slots, fewer, r);
    var shown := Pick(xs, slots);
    DeleteAt(shown, shown[..r] + shown[r + 1..], r);
  }

  /** Position `k` of a sequence with position `r` deleted is position `k` or `k + 1` of the original. */
  lemma DeleteAt<X>(s: seq<X>, fewer: seq<X>, r: nat)
    requires r < |s| && fewer == s[..r] + s[r + 1..]
    ensures |fewer| == |s| - 1
    ensures forall k :: 0 <= k < |fewer| ==> fewer[k] == s[if k < r then k else k + 1]
  {
    forall k | 0 <= k < |fewer|
      ensures fewer[k] == s[if k < r then k else k + 1]
    {
      if k < r {
        assert fewer[k] == s[..r][k];
      } else {
        assert fewer[k] == s[r + 1..][k - r];
      }
    }
  }

  /**
   * Out of order, the routine and the ledger disagree: on a list of length 5,
   * `remove(3); remove(0)` leaves the ledger {0, 3}, yet the routine sends
   * logical index 2 to the removed slot 3, while iteration yields slots 1, 2, 4.
   */
  lemma OutOfOrderRemovalsDisagree()
    ensures ValidRemovals([3, 0], 5)
    ensures LedgerAfter([3, 0]) == [0, 3]
    ensures Translate([3, 0], 2) == 3
    ensures Yielded(5, [0, 3], 0) == [1, 2, 4]
  {
    LedgerOfThreeZero();
    CountsOfThreeZero();
    IterationSkipsZeroAndThree();
  }

  lemma CountsOfThreeZero()
    ensures Count([3], 0) == 0 && Count([3, 0], 2) == 1
  {
    assert [3][..0] == [] && [3, 0][..1] == [3];
  }

  lemma IterationSkipsZeroAndThree()
    ensures Yielded(5, [0, 3], 0) == [1, 2, 4]
  {
    assert [0, 3][1..] == [3];
    assert [3][1..] == [];
    assert Yielded(5, [], 5) == [];
    assert Yielded(5, [], 4) == [4] + Yielded(5, [], 5);
    assert Yielded(5, [3], 3) == Yielded(5, [], 4);
    assert Yielded(5, [3], 2) == [2] + Yielded(5, [3], 3);
    assert Yielded(5, [3], 1) == [1] + Yielded(5, [3], 2);
    assert Yielded(5, [0, 3], 0) == Yielded(5, [3], 1);
  }

  /** The ledger after `remove(3); remove(0)`: slot 3, then slot 0. */
  lemma LedgerOfThreeZero()
    ensures LedgerAfter([3]) == [3]
    ensures LedgerAfter([3, 0]) == [0, 3]
  {
    assert [] + [3] == [3] && [3] + [0] == [3, 0];
    LedgerAfterSnoc([], 3, 3);
    CountsOfThreeZero();
    LedgerAfterSnoc([3], 0, 0);
    assert [3][..0] == [];
    assert Insert([3], 0) == Insert([], 0) + [3];
  }

  /**
   * A further `remove(2)` records slot 3 a second time; iteration then stops
   * skipping at the duplicate and yields three slots although the length is 2.
   */
  lemma OutOfOrderDuplicateEntry()
    ensures ValidRemovals([3, 0, 2], 5)
    ensures LedgerAfter([3, 0, 2]) == [0, 3, 3]
    ensures Yielded(5, [0, 3, 3], 0) == [1, 2, 4]
  {
    OutOfOrderRemovalsDisagree();
    assert [3, 0] + [2] == [3, 0, 2];
    LedgerAfterSnoc([3, 0], 2, 3);
    assert Insert([0, 3], 3) == [0, 3, 3];
    IterationStopsAtDuplicate();
  }

  lemma IterationStopsAtDuplicate()
    ensures Yielded(5, [0, 3, 3], 0) == [1, 2, 4]
  {
    assert [0, 3, 3][1..] == [3, 3];
    assert [3, 3][1..] == [3];
    assert Yielded(5, [3], 5) == [];
    assert Yielded(5, [3], 4) == [4] + Yielded(5, [3], 5);
    assert Yielded(5, [3, 3], 3) == Yielded(5, [3], 4);
    assert Yielded(5, [3, 3], 2) == [2] + Yielded(5, [3, 3], 3);
    assert Yielded(5, [3, 3], 1) == [1] + Yielded(5, [3, 3], 2);
    assert Yielded(5, [0, 3, 3], 0) == Yielded(5, [3, 3], 1);
  }

  /**
   * Not every out-of-order history breaks agreement: on a list of length 5,
   * `remove(4); remove(0)` leaves the ledger {0, 4}, and the routine's answers
   * for the three remaining logical indices are exactly the slots iteration
   * yields.
   */
  lemma OutOfOrderRemovalsAgree()
    ensures !Sorted([4, 0]) && ValidRemovals([4, 0], 5)
    ensures LedgerAfter([4, 0]) == [0, 4]
    ensures Routine([4, 0], 3) == [1, 2, 3]
    ensures Yielded(5, [0, 4], 0) == [1, 2, 3]
    ensures Survivors(0, 5, Elems([0, 4])) == [1, 2, 3]
  {
    assert [4, 0][0] > [4, 0][1];
    LedgerOfFourZero();
    RoutineOfFourZero();
    IterationSkipsZeroAndFour();
    SurvivorsOfZeroFour();
  }

  lemma SurvivorsOfZeroFour()
    ensures Survivors(0, 5, Elems([0, 4])) == [1, 2, 3]
  {
    IterationSkipsZeroAndFour();
    YieldedIsSurvivors(5, [0, 4], 0);
  }

  lemma CountsOfFourZero()
    ensures Count([4], 0) == 0
    ensures Count([4, 0], 0) == 1 && Count([4, 0], 1) == 1 && Count([4, 0], 2) == 1
  {
    assert [4][..0] == [] && [4, 0][..1] == [4];
  }

  /** The ledger after `remove(4); remove(0)`: slot 4, then slot 0. */
  lemma LedgerOfFourZero()
    ensures LedgerAfter([4, 0]) == [0, 4]
  {
    assert [] + [4] == [4] && [4] + [0] == [4, 0];
    LedgerAfterSnoc([], 4, 4);
    CountsOfFourZero();
    LedgerAfterSnoc([4], 0, 0);
    assert [4][..0] == [];
    assert Insert([4], 0) == Insert([], 0) + [4];
  }

  lemma RoutineOfFourZero()
    ensures Routine([4, 0], 3) == [1, 2, 3]
  {
    CountsOfFourZero();
    assert Translate([4, 0], 0) == 1 && Translate([4, 0], 1) == 2 && Translate([4, 0], 2) == 3;
  }

  lemma IterationSkipsZeroAndFour()
    ensures Yielded(5, [0, 4], 0) == [1, 2, 3]
  {
    assert [0, 4][1..] == [4];
    assert [4][1..] == [];
    assert Yielded(5, [], 5) == [];
    assert Yielded(5, [4], 4) == Yielded(5, [], 5);
    assert Yielded(5, [4], 3) == [3] + Yielded(5, [4], 4);
    assert Yielded(5, [4], 2) == [2] + Yielded(5, [4], 3);
    assert Yielded(5, [4], 1) == [1] + Yielded(5, [4], 2);
    assert Yielded(5, [0, 4], 0) == Yielded(5, [4], 1);
  }
}
