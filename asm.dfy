/**
 * The generated translation routine, abstracted from x86-64 machine code to a
 * small instruction set, together with a bounded interpreter for it.
 *
 * Layout of the code buffer, as the list emits it:
 *   offset 0          `->retu:` the shared epilogue (`pop rbp; ret`)
 *   offset 1          the routine's entry: the prologue that loads the argument
 *   offset 2 + 4*j    guard block j: `cmp arg, t; jl skip; add eax, 1; skip: jmp exit`
 * The exit jump of every guard block but the last goes to the next block; the
 * last one jumps back to `->retu`.
 */
module Asm {
  import opened Basics
  import opened Rank

  datatype Instr =
    | Ret                 // `pop rbp; ret`, returns the accumulator
    | LoadArg             // prologue: store the argument, copy it into the accumulator
    | CmpArg(t: int)      // `cmp DWORD [rbp - 4], t`: compare the argument with `t`
    | JlSkip              // `jl` over the next instruction when the argument is less than `t`
    | AddOne              // `add eax, 1`
    | Jmp(target: nat)    // unconditional jump to an offset

  /** Offset of the `->retu` epilogue. */
  const RetuLabel: nat := 0
  /** Offset of the routine's entry, right after the epilogue. */
  const FuncOffset: nat := 1

  /** Program counter, accumulator (`eax`) and the "less than" flag of the last comparison. */
  datatype Regs = Regs(pc: int, acc: int, lt: bool)

  /** Executes at most `fuel` instructions; `None` when the code falls off or fuel runs out. */
  function Run(code: seq<Instr>, arg: int, r: Regs, fuel: nat): Option<int>
    decreases fuel
  {
    if fuel == 0 || !(0 <= r.pc < |code|) then None
    else match code[r.pc]
      case Ret => Some(r.acc)
      case LoadArg => Run(code, arg, r.(pc := r.pc + 1, acc := arg), fuel - 1)
      case CmpArg(t) => Run(code, arg, r.(pc := r.pc + 1, lt := arg < t), fuel - 1)
      case JlSkip => Run(code, arg, r.(pc := if r.lt then r.pc + 2 else r.pc + 1), fuel - 1)
      case AddOne => Run(code, arg, r.(pc := r.pc + 1, acc := r.acc + 1), fuel - 1)
      case Jmp(target) => Run(code, arg, r.(pc := target), fuel - 1)
  }

  /** Calls the routine at `entry` with argument `arg`; the fuel is the length of the code. */
  function Call(code: seq<Instr>, entry: nat, arg: int): Option<int>
  {
    Run(code, arg, Regs(entry, 0, false), |code|)
  }

  /** One guard block for threshold `t` whose final jump goes to `exit`. */
  function GuardBlock(t: int, exit: nat): seq<Instr>
  {
    [CmpArg(t), JlSkip, AddOne, Jmp(exit)]
  }

  /** The guard blocks for thresholds `ts`, the first placed at offset `base`. */
  function Guards(ts: seq<int>, base: nat): (g: seq<Instr>)
    ensures |g| == 4 * |ts|
    decreases |ts|
  {
    if ts == [] then []
    else GuardBlock(ts[0], if |ts| == 1 then RetuLabel else base + 4) + Guards(ts[1..], base + 4)
  }

  /** The whole code buffer after removals with thresholds `ts`, in removal order. */
  function Chain(ts: seq<int>): (code: seq<Instr>)
    ensures |code| == 2 + 4 * |ts|
    ensures code[RetuLabel] == Ret && code[FuncOffset] == LoadArg
  {
    [Ret, LoadArg] + Guards(ts, 2)
  }

  lemma UpdateAfter(a: seq<Instr>, b: seq<Instr>, k: nat, v: Instr)
    requires k < |b|
    ensures (a + b)[|a| + k := v] == a + b[k := v]
  {
  }

  /**
   * Appending a threshold to a non-empty chain equals rewriting the last exit
   * jump into a jump to the next offset and appending one guard block.
   */
  lemma {:induction false} GuardsAppend(ts: seq<int>, t: int, base: nat)
    requires ts != []
    ensures Guards(ts + [t], base) == Guards(ts, base)[4 * |ts| - 1 := Jmp(base + 4 * |ts|)] + GuardBlock(t, RetuLabel)
  {
    var longer := ts + [t];
    assert longer[0] == ts[0];
    assert longer[1..] == ts[1..] + [t];
    var head := GuardBlock(ts[0], base + 4);
    assert Guards(longer, base) == head + Guards(ts[1..] + [t], base + 4);
    if |ts| == 1 {
      assert ts[1..] == [];
      assert Guards([t], base + 4) == GuardBlock(t, RetuLabel) + Guards([], base + 8);
      assert Guards(ts, base) == GuardBlock(ts[0], RetuLabel) + Guards([], base + 4);
      assert Guards(ts, base)[3 := Jmp(base + 4)] == head;
    } else {
      var rest := Guards(ts[1..], base + 4);
      var jump := Jmp(base + 4 * |ts|);
      assert Guards(ts, base) == head + rest;
      GuardsAppend(ts[1..], t, base + 4);
      assert Guards(ts[1..] + [t], base + 4) == rest[4 * |ts[1..]| - 1 := jump] + GuardBlock(t, RetuLabel);
      UpdateAfter(head, rest, 4 * |ts[1..]| - 1, jump);
      assert (head + rest)[4 * |ts| - 1 := jump] == head + rest[4 * |ts[1..]| - 1 := jump];
    }
  }

  /** Offset of the chain's last exit jump, the one that a further guard block patches. */
  function ExitJump(ts: seq<int>): (o: Option<nat>)
    ensures o.Some? <==> ts != []
    ensures o.Some? ==> o.value == |Chain(ts)| - 1 && Chain(ts)[o.value] == Jmp(RetuLabel)
  {
    if ts == [] then None
    else
      GuardsExit(ts, 2);
      assert Chain(ts)[|Chain(ts)| - 1] == Guards(ts, 2)[4 * |ts| - 1];
      Some(|Chain(ts)| - 1)
  }

  /** The last instruction of a non-empty guard sequence jumps to the epilogue. */
  lemma {:induction false} GuardsExit(ts: seq<int>, base: nat)
    requires ts != []
    ensures Guards(ts, base)[4 * |ts| - 1] == Jmp(RetuLabel)
    decreases |ts|
  {
    if |ts| == 1 {
      assert Guards(ts, base) == GuardBlock(ts[0], RetuLabel) + Guards([], base + 4);
    } else {
      GuardsExit(ts[1..], base + 4);
      assert Guards(ts, base) == GuardBlock(ts[0], base + 4) + Guards(ts[1..], base + 4);
    }
  }

  /** Emitting the block's instructions one by one, as the assembler does, appends the block. */
  lemma AppendBlock(code: seq<Instr>, t: int)
    ensures code + [CmpArg(t), JlSkip, AddOne] + [Jmp(RetuLabel)] == code + GuardBlock(t, RetuLabel)
  {
  }

  /**
   * The edit one removal makes to the buffer: the pending exit jump, if any,
   * becomes a jump to the offset just past it, and a new guard block whose exit
   * is the epilogue is appended. Nothing else in the buffer changes.
   */
  function Emit(code: seq<Instr>, tail: Option<nat>, t: int): (c: seq<Instr>)
    requires tail.Some? ==> tail.value < |code|
    ensures |c| == |code| + 4 && c[|code|..] == GuardBlock(t, RetuLabel)
    ensures forall k :: 0 <= k < |code| && tail != Some(k) ==> c[k] == code[k]
    ensures tail.Some? ==> c[tail.value] == Jmp(tail.value + 1)
  {
    (if tail.Some? then code[tail.value := Jmp(tail.value + 1)] else code) + GuardBlock(t, RetuLabel)
  }

  /** Emitting one guard block onto the chain for `ts` gives the chain for `ts + [t]`. */
  lemma ChainExtend(ts: seq<int>, t: int)
    ensures Chain(ts + [t]) == Emit(Chain(ts), ExitJump(ts), t)
  {
    if ts == [] {
      FirstGuard(t);
    } else {
      NextGuard(ts, t);
    }
  }

  lemma FirstGuard(t: int)
    ensures Chain([t]) == Emit(Chain([]), ExitJump([]), t)
  {
    assert [t][1..] == [];
    assert Guards([t], 2) == GuardBlock(t, RetuLabel) + Guards([], 6);
  }

  lemma NextGuard(ts: seq<int>, t: int)
    requires ts != []
    ensures Chain(ts + [t]) == Emit(Chain(ts), ExitJump(ts), t)
  {
    GuardsAppend(ts, t, 2);
    UpdateAfter([Ret, LoadArg], Guards(ts, 2), 4 * |ts| - 1, Jmp(|Chain(ts)|));
  }

  /**
   * One guard block: the comparison sets the flag, the accumulator grows by one
   * unless the argument is below the threshold, and control reaches the exit.
   */
  lemma GuardBlockStep(code: seq<Instr>, base: nat, t: int, exit: nat, arg: int, acc: int, lt: bool, fuel: nat)
    requires base + 4 <= |code| && code[base..base + 4] == GuardBlock(t, exit)
    requires fuel >= 4
    ensures arg < t ==> Run(code, arg, Regs(base, acc, lt), fuel) == Run(code, arg, Regs(exit, acc, true), fuel - 3)
    ensures t <= arg ==> Run(code, arg, Regs(base, acc, lt), fuel) == Run(code, arg, Regs(exit, acc + 1, false), fuel - 4)
  {
    assert code[base] == CmpArg(t);
    assert code[base + 1] == JlSkip;
    assert code[base + 2] == AddOne;
    assert code[base + 3] == Jmp(exit);
    var skip := arg < t;
    assert Run(code, arg, Regs(base, acc, lt), fuel) == Run(code, arg, Regs(base + 1, acc, skip), fuel - 1);
    if skip {
      assert Run(code, arg, Regs(base + 1, acc, skip), fuel - 1) == Run(code, arg, Regs(base + 3, acc, skip), fuel - 2);
    } else {
      assert Run(code, arg, Regs(base + 1, acc, skip), fuel - 1) == Run(code, arg, Regs(base + 2, acc, skip), fuel - 2);
      assert Run(code, arg, Regs(base + 2, acc, skip), fuel - 2) == Run(code, arg, Regs(base + 3, acc + 1, skip), fuel - 3);
    }
  }

  /**
   * Running the guard blocks for `ts`, starting at the first one, visits every
   * block in order and returns the accumulator plus one per threshold at most
   * the argument.
   */
  lemma {:induction false} RunGuards(code: seq<Instr>, ts: seq<int>, base: nat, arg: int, acc: int, lt: bool, fuel: nat)
    requires ts != []
    requires |code| > RetuLabel && code[RetuLabel] == Ret
    requires base + 4 * |ts| <= |code| && code[base..base + 4 * |ts|] == Guards(ts, base)
    requires fuel >= 4 * |ts| + 1
    ensures Run(code, arg, Regs(base, acc, lt), fuel) == Some(acc + Count(ts, arg))
  {
    var exit := if |ts| == 1 then RetuLabel else base + 4;
    GuardsSplit(code, ts, base);
    GuardBlockStep(code, base, ts[0], exit, arg, acc, lt, fuel);
    CountFront(ts, arg);
    var skip := arg < ts[0];
    var acc' := if skip then acc else acc + 1;
    var left: nat := if skip then fuel - 3 else fuel - 4;
    assert Run(code, arg, Regs(base, acc, lt), fuel) == Run(code, arg, Regs(exit, acc', skip), left);
    if |ts| == 1 {
      assert ts[1..] == [];
      assert Run(code, arg, Regs(exit, acc', skip), left) == Some(acc');
    } else {
      RunGuards(code, ts[1..], base + 4, arg, acc', skip, left);
    }
  }

  /** The guard blocks split into the first block and the blocks for the remaining thresholds. */
  lemma GuardsSplit(code: seq<Instr>, ts: seq<int>, base: nat)
    requires ts != []
    requires base + 4 * |ts| <= |code| && code[base..base + 4 * |ts|] == Guards(ts, base)
    ensures code[base..base + 4] == GuardBlock(ts[0], if |ts| == 1 then RetuLabel else base + 4)
    ensures |ts| > 1 ==> code[base + 4..base + 4 + 4 * |ts[1..]|] == Guards(ts[1..], base + 4)
  {
    var exit := if |ts| == 1 then RetuLabel else base + 4;
    var g := Guards(ts, base);
    assert g == GuardBlock(ts[0], exit) + Guards(ts[1..], base + 4);
    assert g[..4] == GuardBlock(ts[0], exit);
    assert code[base..base + 4] == code[base..base + 4 * |ts|][..4];
    if |ts| > 1 {
      assert code[base + 4..base + 4 + 4 * |ts[1..]|] == g[4..] == Guards(ts[1..], base + 4);
    }
  }

  /**
   * The routine for a non-empty chain loads the argument and returns
   * `arg + #{t in ts : t <= arg}`.
   */
  lemma RoutineComputesRank(ts: seq<int>, arg: int)
    requires ts != []
    ensures Call(Chain(ts), FuncOffset, arg) == Some(Translate(ts, arg))
  {
    var code := Chain(ts);
    LoadArgStep(ts, arg);
    ChainGuards(ts);
    RunGuards(code, ts, 2, arg, arg, false, |code| - 1);
  }

  /** The routine's first instruction loads the argument into the accumulator. */
  lemma LoadArgStep(ts: seq<int>, arg: int)
    ensures Call(Chain(ts), FuncOffset, arg) == Run(Chain(ts), arg, Regs(2, arg, false), |Chain(ts)| - 1)
  {
  }

  lemma ChainGuards(ts: seq<int>)
    ensures Chain(ts)[2..2 + 4 * |ts|] == Guards(ts, 2)
  {
  }

  /**
   * Before the first removal the routine is only a prologue that falls off the
   * end of the code, which is why lookups must not call it then.
   */
  lemma EmptyRoutineFallsOff(arg: int)
    ensures Call(Chain([]), FuncOffset, arg) == None
  {
    assert Run(Chain([]), arg, Regs(FuncOffset, 0, false), 2) == Run(Chain([]), arg, Regs(2, arg, false), 1);
  }
}
