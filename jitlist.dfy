/**
 * The list itself: a backing vector that removal never shifts, a code buffer
 * holding the translation routine, the tail offset of its last exit jump, the
 * current length and the ledger of removed physical slots.
 */
module JitLists {
  import opened Basics
  import opened Rank
  import opened Asm
  import opened Ledger

  class JitList<T> {
    /** The assembler's buffer. */
    var code: seq<Instr>
    /** Entry offset of the translation routine. */
    const funcOffset: nat
    /** Offset of the last emitted `jmp ->retu`, if a guard block exists. */
    var jmpRetuOffset: Option<nat>
    var len: nat
    /** The backing vector; its elements never move. */
    var list: seq<T>
    /** The `removed` min-heap, by its contents in pop order. */
    var removed: seq<nat>
    /** The logical indices removed so far, in removal order: the guard thresholds. */
    ghost var guards: seq<nat>

    ghost predicate Valid()
      reads this
    {
      && funcOffset == FuncOffset
      && len + |guards| == |list|
      && Consistent(code, jmpRetuOffset, |list|, guards, removed)
    }

    /** `try_new`: emits the `->retu` epilogue, then the routine's prologue. */
    constructor (xs: seq<T>)
      ensures Valid()
      ensures list == xs && len == |xs|
      ensures removed == [] && jmpRetuOffset == None && guards == []
      ensures code == [Ret, LoadArg] && funcOffset == 1
    {
      var buffer := [Ret];
      funcOffset := |buffer|;
      buffer := buffer + [LoadArg];
      code := buffer;
      jmpRetuOffset := None;
      len := |xs|;
      list := xs;
      removed := [];
      guards := [];
    }

    /** `len`: the initial length minus the number of removals. */
    function Len(): (n: nat)
      reads this
      requires Valid()
      ensures n == |list| - |guards|
    {
      len
    }

    /** `is_empty`: every element has been removed. */
    function IsEmpty(): (b: bool)
      reads this
      requires Valid()
      ensures b <==> |guards| == |list|
    {
      len == 0
    }

    /** `check_index`: the one bounds check every indexed operation runs first. */
    function CheckIndex(index: nat): (r: Outcome)
      reads this
      requires Valid()
      ensures r.Pass? <==> index < |list| - |guards|
      ensures r.Fail? ==> r.fault == OutOfBounds
    {
      if index >= len then Fail(OutOfBounds) else Pass
    }

    /**
     * `get_real_index`: the physical slot of logical index `index`. Before the
     * first removal it is the index itself and the routine is not called;
     * afterwards the routine is called with the index as an `i32`.
     */
    function RealIndex(index: nat): (r: Result<nat>)
      reads this
      requires Valid()
      ensures index >= len ==> r == Err(OutOfBounds)
      ensures index < len && removed != [] && index > I32Max ==> r == Err(Overflow)
      ensures index < len && (removed == [] || index <= I32Max) ==> r == Ok(Translate(guards, index))
      ensures r.Ok? ==> r.value < |list|
    {
      if CheckIndex(index).Fail? then Err(OutOfBounds)
      else if removed == [] then Ok(index)
      else if index > I32Max then Err(Overflow)
      else
        RoutineComputesRank(guards, index);
        var p: nat := Call(code, funcOffset, index).value;
        Ok(p)
    }

    /** `Index`: reads the slot the routine gives for `index`. */
    function Index(index: nat): (r: Result<T>)
      reads this
      requires Valid()
      ensures r.Err? <==> RealIndex(index).Err?
      ensures r.Err? ==> r.fault == RealIndex(index).fault
      ensures r.Ok? ==> Translate(guards, index) < |list| && r.value == list[Translate(guards, index)]
    {
      match RealIndex(index)
      case Err(f) => Err(f)
      case Ok(p) => Ok(list[p])
    }

    /** `IndexMut`: writes `v` into the slot the routine gives for `index`, and nowhere else. */
    method IndexMut(index: nat, v: T) returns (r: Outcome)
      requires Valid()
      modifies this`list
      ensures Valid()
      ensures r.Pass? <==> index < len && (removed == [] || index <= I32Max)
      ensures index >= len ==> r == Fail(OutOfBounds)
      ensures r.Fail? ==> r.fault == old(RealIndex(index)).fault && list == old(list)
      ensures r.Pass? ==> |list| == |old(list)| && Translate(guards, index) < |list|
      ensures r.Pass? ==> list == old(list)[Translate(guards, index) := v]
    {
      var p := RealIndex(index);
      if p.Err? {
        return Fail(p.fault);
      }
      list := list[p.value := v];
      r := Pass;
    }

    /**
     * `try_remove`: checks the index, records the physical slot it names in
     * the ledger, decrements the length, patches the previous exit jump into a
     * jump to the next offset and appends one guard block with the logical
     * index as its threshold.
     */
    method TryRemove(index: nat) returns (r: Outcome)
      requires Valid()
      modifies this
      ensures Valid()
      ensures list == old(list)
      ensures index >= old(len) ==> r == Fail(OutOfBounds)
      ensures index < old(len) && index > I32Max ==> r == Fail(Overflow)
      ensures index < old(len) && index <= I32Max ==> r == Pass
      ensures r.Fail? ==>
        && len == old(len) && removed == old(removed) && guards == old(guards)
        && code == old(code) && jmpRetuOffset == old(jmpRetuOffset)
      ensures r.Pass? ==> len == old(len) - 1 && guards == old(guards) + [index]
      ensures r.Pass? ==> removed == Insert(old(removed), Translate(old(guards), index) as nat)
      ensures r.Pass? ==> code == Emit(old(code), old(jmpRetuOffset), index) && jmpRetuOffset == Some(|code| - 1)
    {
      if CheckIndex(index).Fail? {
        return Fail(OutOfBounds);
      }
      if index > I32Max {
        return Fail(Overflow);
      }
      var buffer, tail, thresholds, ledger := code, jmpRetuOffset, guards, removed;
      assert Consistent(buffer, tail, |list|, thresholds, ledger);
      var slot: nat;
      if ledger != [] {
        RoutineComputesRank(thresholds, index);
        slot := Call(buffer, funcOffset, index).value;
      } else {
        slot := index;
      }
      assert slot == Translate(thresholds, index);
      var ledger' := Insert(ledger, slot);
      var asm, retu := EmitGuard(buffer, tail, index);
      RemoveStep(buffer, tail, |list|, thresholds, ledger, index, asm, Some(retu), ledger');
      removed := ledger';
      len := len - 1;
      code := asm;
      jmpRetuOffset := Some(retu);
      guards := thresholds + [index];
      assert code == asm && jmpRetuOffset == Some(retu) && guards == thresholds + [index] && removed == ledger';
      assert Consistent(code, jmpRetuOffset, |list|, guards, removed);
      r := Pass;
    }

    /**
     * `remove`: `try_remove` where the caller guarantees success (the source
     * panics otherwise). The new state is determined by the invariant: the
     * buffer, tail and ledger are those of the extended thresholds.
     */
    method Remove(index: nat)
      requires Valid()
      requires index < len && index <= I32Max
      modifies this
      ensures Valid()
      ensures guards == old(guards) + [index] && list == old(list) && len == old(len) - 1
    {
      var r := TryRemove(index);
    }

    /**
     * `into_iter` on the list and on a shared reference: walks the vector in
     * physical order with a copy of the heap, skipping (and popping) the slot
     * equal to the heap's minimum.
     */
    method IntoIter() returns (xs: seq<T>)
      requires Valid()
      ensures xs == Pick(list, Yielded(|list|, removed, 0))
      ensures Increasing(removed) ==> xs == Pick(list, Survivors(0, |list|, Elems(removed)))
      ensures Sorted(guards) ==> xs == Pick(list, Routine(guards, len))
    {
      var heap := removed;
      xs := [];
      ghost var slots: seq<nat> := [];
      var i := 0;
      while i < |list|
        invariant 0 <= i <= |list|
        invariant slots + Yielded(|list|, heap, i) == Yielded(|list|, removed, 0)
        invariant |xs| == |slots| && forall k :: 0 <= k < |slots| ==> slots[k] < |list| && xs[k] == list[slots[k]]
      {
        YieldedStep(|list|, heap, i);
        if |heap| > 0 && heap[0] == i {
          heap := heap[1..];
        } else {
          assert slots + Yielded(|list|, heap, i) == (slots + [i]) + Yielded(|list|, heap, i + 1);
          xs := xs + [list[i]];
          slots := slots + [i];
        }
        i := i + 1;
      }
      IterationFacts();
    }

    /**
     * `into_iter` on a mutable reference: the same walk, yielding a mutable
     * reference per surviving element, each named here by the slot it borrows.
     */
    method IterMutSlots() returns (slots: seq<nat>)
      requires Valid()
      ensures slots == Yielded(|list|, removed, 0)
      ensures Increasing(removed) ==> slots == Survivors(0, |list|, Elems(removed))
      ensures Sorted(guards) ==> slots == Routine(guards, len)
    {
      var heap := removed;
      slots := [];
      var i := 0;
      while i < |list|
        invariant 0 <= i <= |list|
        invariant slots + Yielded(|list|, heap, i) == Yielded(|list|, removed, 0)
      {
        YieldedStep(|list|, heap, i);
        if |heap| > 0 && heap[0] == i {
          heap := heap[1..];
        } else {
          assert slots + Yielded(|list|, heap, i) == (slots + [i]) + Yielded(|list|, heap, i + 1);
          slots := slots + [i];
        }
        i := i + 1;
      }
      IterationFacts();
    }

    /**
     * While the vector has at most `2^31` slots, every in-bounds index gets a
     * translation that is non-negative and at most the `i32` maximum, so the
     * routine's result converts back to an index.
     */
    lemma ResultFitsI32(index: nat)
      requires Valid()
      requires |list| <= I32Max + 1
      requires index < len
      ensures RealIndex(index) == Ok(Translate(guards, index))
      ensures 0 <= Translate(guards, index) <= I32Max
    {
    }

    /** The filter in terms of the reference definition, and, for sorted removals, of the routine. */
    lemma IterationFacts()
      requires Valid()
      ensures Increasing(removed) ==> Yielded(|list|, removed, 0) == Survivors(0, |list|, Elems(removed))
      ensures Sorted(guards) ==> Increasing(removed) && Yielded(|list|, removed, 0) == Routine(guards, len)
    {
      if Increasing(removed) {
        YieldedIsSurvivors(|list|, removed, 0);
      }
      if Sorted(guards) {
        LedgerDistinct(guards);
        Agreement(guards, |list|);
      }
    }
  }

  /**
   * The assembler work of one removal: if a previous exit jump is pending it is
   * rewritten to jump to the offset just after it, then the guard block for
   * threshold `t` is emitted, and the offset of its exit jump is returned as
   * the new tail. This is the step-by-step form of `Asm.Emit`, which
   * specifies it.
   */
  method EmitGuard(code: seq<Instr>, tail: Option<nat>, t: int) returns (asm: seq<Instr>, retu: nat)
    requires tail.Some? ==> tail.value < |code|
    ensures asm == Emit(code, tail, t)
    ensures retu == |code| + 3 && asm[retu] == Jmp(RetuLabel)
  {
    asm := code;
    if tail.Some? {
      asm := asm[tail.value := Jmp(tail.value + 1)];
    }
    var patched := asm;
    asm := asm + [CmpArg(t), JlSkip, AddOne];
    retu := |asm|;
    asm := asm + [Jmp(RetuLabel)];
    AppendBlock(patched, t);
  }

  /**
   * How the buffer, the tail offset and the ledger of a list with `n` slots
   * stand to the thresholds `guards` removed so far.
   */
  ghost predicate Consistent(code: seq<Instr>, tail: Option<nat>, n: nat, guards: seq<nat>, removed: seq<nat>) {
    && code == Chain(guards)
    && tail == ExitJump(guards)
    && |guards| <= n
    && ValidRemovals(guards, n)
    && removed == LedgerAfter(guards)
  }

  /** One accepted removal keeps the buffer, the tail offset and the ledger consistent. */
  lemma RemoveStep(code: seq<Instr>, tail: Option<nat>, n: nat, guards: seq<nat>, removed: seq<nat>, index: nat,
                   code': seq<Instr>, tail': Option<nat>, removed': seq<nat>)
    requires Consistent(code, tail, n, guards, removed)
    requires index < n - |guards|
    requires code' == Emit(code, tail, index) && tail' == Some(|code| + 3)
    requires removed' == Insert(removed, Translate(guards, index) as nat)
    ensures Consistent(code', tail', n, guards + [index], removed')
  {
    ChainExtend(guards, index);
    var longer := guards + [index];
    assert longer[..|guards|] == guards;
  }
}
