/**
 * The arithmetic the generated routine performs: every guard whose threshold
 * is at most the argument adds one to the accumulator.
 */
module Rank {

  /** Number of thresholds `t` in `ts` with `t <= i` (the guards whose `jl` is not taken). */
  function Count(ts: seq<int>, i: int): (c: nat)
    ensures c <= |ts|
  {
    if ts == [] then 0 else Count(ts[..|ts| - 1], i) + (if ts[|ts| - 1] <= i then 1 else 0)
  }

  /** The routine's answer for logical index `i`, given the guard thresholds `ts`. */
  function Translate(ts: seq<int>, i: int): (p: int)
    ensures i <= p <= i + |ts|
  {
    i + Count(ts, i)
  }

  /** The routine's answers for the logical indices `0 .. m`. */
  function Routine(ts: seq<nat>, m: nat): (ps: seq<nat>)
    ensures |ps| == m
    ensures forall i :: 0 <= i < m ==> ps[i] == Translate(ts, i)
  {
    seq(m, i requires 0 <= i => Translate(ts, i) as nat)
  }

  /** Counting from the front: the first threshold, then the rest. */
  lemma {:induction false} CountFront(ts: seq<int>, i: int)
    requires ts != []
    ensures Count(ts, i) == (if ts[0] <= i then 1 else 0) + Count(ts[1..], i)
    decreases |ts|
  {
    if |ts| == 1 {
      assert ts[..0] == [] && ts[1..] == [];
    } else {
      var front := ts[..|ts| - 1];
      CountFront(front, i);
      assert front[1..] == ts[1..][..|ts| - 2];
    }
  }

  /** Counting thresholds is monotone in the argument. */
  lemma {:induction false} CountMonotone(ts: seq<int>, i: int, j: int)
    requires i <= j
    ensures Count(ts, i) <= Count(ts, j)
  {
    if ts != [] {
      CountMonotone(ts[..|ts| - 1], i, j);
    }
  }

  /** The routine is strictly increasing, so no two logical indices share a physical slot. */
  lemma TranslateStrictlyIncreasing(ts: seq<int>, i: int, j: int)
    requires i < j
    ensures Translate(ts, i) < Translate(ts, j)
  {
    CountMonotone(ts, i, j);
  }

  /** Appending a guard adds one to the count exactly when its threshold is at most the argument. */
  lemma {:induction false} CountAppend(ts: seq<int>, t: int, i: int)
    ensures Count(ts + [t], i) == Count(ts, i) + (if t <= i then 1 else 0)
  {
    assert (ts + [t])[..|ts|] == ts;
  }

  /** When every threshold is at most `i`, every guard fires. */
  lemma {:induction false} CountAllAtMost(ts: seq<int>, i: int)
    requires forall k :: 0 <= k < |ts| ==> ts[k] <= i
    ensures Count(ts, i) == |ts|
  {
    if ts != [] {
      CountAllAtMost(ts[..|ts| - 1], i);
    }
  }

  /**
   * Appending a threshold `r` that is at least every earlier one shifts the
   * routine's answers from logical index `r` on by one place: the slot
   * `Translate(ts, r)` is dropped from the list of answers.
   */
  lemma RoutineShift(ts: seq<nat>, r: nat, m: nat)
    requires forall k :: 0 <= k < |ts| ==> ts[k] <= r
    requires r < m
    ensures Routine(ts + [r], m - 1) == Routine(ts, m)[..r] + Routine(ts, m)[r + 1..]
  {
    var before := Routine(ts, m);
    var after := Routine(ts + [r], m - 1);
    var dropped := before[..r] + before[r + 1..];
    forall i | 0 <= i < m - 1
      ensures after[i] == dropped[i]
    {
      CountAppend(ts, r, i);
      if r <= i {
        CountAllAtMost(ts, i);
        CountAllAtMost(ts, i + 1);
        assert dropped[i] == before[i + 1];
      }
    }
  }
}
