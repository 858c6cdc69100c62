# JITList in Dafny

A model of `JITList<T>`: a sequence whose removal never shifts elements.
The backing vector keeps every element in its original physical slot. Each
removal appends one *guard block* to a growing chain of generated machine
code: the *translation routine*, which maps a logical index to a physical
slot. A min-heap *ledger* of removed physical slots lets iteration walk the
vector once and skip those slots without calling the routine.

The model has six modules:

- `Basics` (basics.dfy): `Option`, `Result`, `Outcome`, and the two faults.
  `OutOfBounds` stands for the `check_index` panic. `Overflow` stands for a
  failed `i32` conversion. It also holds the `i32` maximum.
- `Rank` (rank.dfy): the rank-counting formula the routine computes,
  `Translate(ts, i) = i + #{t in ts : t <= i}`, and its properties.
- `Asm` (asm.dfy): the generated code as an instruction datatype, not bytes:
  - `Ret` is the shared `->retu` epilogue;
  - `LoadArg` is the prologue;
  - `CmpArg(t)`, `JlSkip`, `AddOne` and `Jmp(target)` make up a guard block.

  It also has a fuelled interpreter `Run`, the buffer `Chain(ts)` after
  removals with thresholds `ts`, and the patch-and-append step `Emit`.
  `Asm.RoutineComputesRank` proves that calling the routine at the entry
  offset returns `Translate(ts, arg)`.
- `Ledger` (ledger.dfy): the `removed` heap, modelled by its contents in pop
  order (push is sorted insertion), and the ledger after a sequence of
  removals. It has the heap-driven filter `Yielded` the iterators run and a
  reference definition `Survivors` (the slots in `[0, n)` that are not in the
  ledger). It also contains the agreement theorem and the out-of-order
  counterexamples.
- `JitLists` (jitlist.dfy): the class `JitList<T>`, with fields for the code
  buffer, the entry offset, the tail offset of the last `jmp ->retu`, `len`,
  `list` and `removed`. It also has a ghost sequence of the thresholds
  emitted so far. The invariant `Valid` ties the buffer, the tail and the
  ledger to those thresholds.
- `Scenarios` (scenarios.dfy): verified client scenarios on `[1, 2, 3, 4, 5]`, including the
  three removal tests of src/tests.rs.

**Thresholds are logical indices.** The guard emitted by `try_remove` compares
against the logical `index` the caller passed (src/lib.rs:94, src/lib.rs:130).
The ledger records the physical slot the pre-removal routine returns
(src/lib.rs:96-105). One might expect the threshold to be that same physical
slot; the code compares against the logical index, and the model does the
same.

As a result, the routine and the ledger are guaranteed to agree when removal
indices are non-decreasing, and `Ledger.Agreement` proves it. Some other
orders still agree: `Ledger.OutOfOrderRemovalsAgree` shows this for
`remove(4); remove(0)` on five elements.
Others break it, as `Ledger.OutOfOrderRemovalsDisagree` and
`Ledger.OutOfOrderDuplicateEntry` show:

- After `remove(3); remove(0)` on five elements, logical index 2 translates
  to slot 3, which is already removed.
- A further `remove(2)` enters slot 3 into the ledger a second time,
  although a slot can only be vacated once.
- Iteration then yields three elements while `len` is 2.

## Model

| member | source | states |
|---|---|---|
| JitLists.JitList.constructor | src/lib.rs:36-63 | The new list keeps the vector as given, with `len` equal to its length. The ledger is empty, there is no tail jump, and the buffer is the epilogue then the prologue, with the entry at offset 1. The invariant holds with zero thresholds. |
| JitLists.JitList.Len | src/lib.rs:72-74 | The length is the initial length minus the number of successful removals. |
| JitLists.JitList.IsEmpty | src/lib.rs:78-80 | True exactly when every element has been removed. |
| JitLists.JitList.CheckIndex | src/lib.rs:83-87 | Passes if and only if `index < len`. Otherwise it fails with `OutOfBounds`, including when `len == 0`. |
| JitLists.JitList.RealIndex | src/lib.rs:155-171 | Fails with `OutOfBounds` past the end. With an empty ledger it returns the index itself. With a non-empty ledger and an index above the `i32` maximum it fails with `Overflow`. Otherwise it returns `Translate(thresholds, index)`, and the result is always a slot of the vector. |
| JitLists.JitList.Index | src/lib.rs:174-181 | Fails exactly when `RealIndex` fails, with the same fault. Otherwise it returns `list[Translate(thresholds, index)]`. |
| JitLists.JitList.IndexMut | src/lib.rs:183-188 | Succeeds if and only if the index is in bounds and, when the ledger is non-empty, fits in `i32`. On success it writes only slot `Translate(thresholds, index)` and keeps the length. On failure nothing changes. The invariant is preserved. |
| JitLists.JitList.TryRemove | src/lib.rs:91-146 | Fails with `OutOfBounds` when `index >= len`. Fails with `Overflow` when `index` exceeds the `i32` maximum. Either failure leaves every field as it was. On success:<br>- `len` drops by one;<br>- the threshold `index` is appended;<br>- the ledger gains exactly the pre-removal translation of `index`, which is `index` itself while the ledger is empty;<br>- the buffer is the old one with the tail patched and one guard block appended;<br>- the tail points at the new final `jmp ->retu`;<br>- the vector is untouched;<br>- the invariant is preserved. |
| JitLists.JitList.Remove | src/lib.rs:150-152 | For an index that `try_remove` accepts: appends the threshold, keeps the vector, decrements `len` and keeps the invariant. |
| JitLists.JitList.IntoIter | src/lib.rs:190-222 | The loop yields `list` at the slots produced by the heap filter `Yielded`. For a strictly increasing ledger, these are the slots not in the ledger, in ascending order. For non-decreasing removals, they are the elements at the routine's translations of `0 .. len-1`. |
| JitLists.JitList.IterMutSlots | src/lib.rs:224-239 | The slots borrowed by the mutable iterator follow the same three characterisations as IntoIter. |
| JitLists.JitList.ResultFitsI32 | src/lib.rs:164-167 | While the vector has at most `2^31` slots, every in-bounds index converts to `i32` and its translation lies in `[0, I32Max]`, so neither the conversion at line 164 nor the one at line 167 can fail. |
| JitLists.JitList.IterationFacts | src/lib.rs:196-203 | For a strictly increasing ledger, the heap filter equals the reference set difference. For non-decreasing removals, the ledger is strictly increasing and the filter equals the routine's translations. |
| JitLists.EmitGuard | src/lib.rs:112-141 | The buffer after one removal equals `Emit` of the old buffer and tail. The returned tail offset is the new block's last instruction, which is `jmp ->retu`. |
| JitLists.RemoveStep | src/lib.rs:96-141 | One accepted removal carries the buffer, the tail and the ledger from the old thresholds to the extended thresholds. |
| Asm.Emit | src/lib.rs:112-141 | Appends exactly one guard block ending in `jmp ->retu`. The old tail jump is rewritten to jump to the next offset. Every other earlier instruction is unchanged. |
| Asm.ChainExtend | src/lib.rs:112-141 | Patching the tail and appending a block turns the buffer for `ts` into the buffer for `ts + [t]`. The chain therefore visits every guard in removal order and then returns. |
| Asm.Run | src/lib.rs:41-53 | Meaning of the emitted instructions: `pop rbp; ret` returns the accumulator, the prologue loads the argument, `cmp`/`jl` skips the increment when the argument is less than the threshold, `add eax, 1` increments, `jmp` jumps. Running off the buffer or out of fuel gives no result. |
| Asm.Call | src/lib.rs:99-102 | The call `func(index)`: runs the buffer from the entry offset with the argument, for at most as many steps as the buffer has instructions. |
| Asm.Guards | src/lib.rs:126-141 | The chain of guard blocks, four instructions per removal, each block's exit jumping to the next block and the last one to the epilogue. |
| Asm.GuardsAppend | src/lib.rs:115-123 | Appending a threshold redirects the previous last block's exit jump to the new block, and adds a block that exits to the epilogue. |
| Asm.Chain | src/lib.rs:39-53 | A buffer with `k` guards has `2 + 4k` instructions, the epilogue at offset 0 and the prologue at the entry offset. |
| Asm.ExitJump | src/lib.rs:136-141 | The tail is present exactly when some removal has happened. It then indexes the buffer's last instruction, which is `jmp ->retu`. |
| Asm.GuardsExit | src/lib.rs:138-141 | The last block of a guard chain exits to the epilogue. |
| Asm.GuardBlockStep | src/lib.rs:128-134 | One guard block leaves the accumulator unchanged when `arg < t` and adds one when `t <= arg`, then continues at the block's exit. |
| Asm.RunGuards | src/lib.rs:128-141 | Running a guard chain from accumulator `acc` returns `acc` plus the number of thresholds at most `arg`. |
| Asm.LoadArgStep | src/lib.rs:47-53 | Calling the routine runs the prologue, which loads the argument into the accumulator before the first guard. |
| Asm.RoutineComputesRank | src/lib.rs:96-102 | For at least one threshold, calling the routine at the entry offset returns `Translate(ts, arg)`. |
| Asm.EmptyRoutineFallsOff | src/lib.rs:158-170 | With no guard block the routine has no path back to the epilogue: execution runs past the prologue off the end of the buffer. This is why the code skips the call while the ledger is empty. |
| Rank.Translate | src/lib.rs:128-134 | The result lies between `i` and `i` plus the number of thresholds. |
| Rank.TranslateStrictlyIncreasing | src/lib.rs:128-134 | The translation is strictly increasing in the logical index, for any thresholds. |
| Rank.CountAppend | src/lib.rs:126-134 | One more guard adds one to the count exactly when its threshold is at most the argument. |
| Rank.RoutineShift | src/lib.rs:126-141 | Appending a threshold `r` that is at least every earlier one deletes answer `r` from the routine's answers for `0 .. m-1`, which leaves the answers for `0 .. m-2`: this is what removal does to the logical view. |
| Ledger.PickAfterRemove | src/lib.rs:91-146 | Let the removed logical index `r` be at least every earlier removal index, with `r < m`, and let every current translation of `0 .. m-1` lie inside the vector. Then the elements the routine reaches for `0 .. m-2` afterwards are the elements it reached before, with the one at index `r` deleted, and every new translation also lies inside the vector. |
| Ledger.Insert | src/lib.rs:102-104 | A heap push grows the contents by one. |
| Ledger.InsertSorted | src/lib.rs:102-104 | A push keeps the pop order ascending. |
| Ledger.InsertPermutes | src/lib.rs:102-104 | A push adds exactly the pushed value to the heap's multiset of contents. |
| Ledger.LedgerAfter | src/lib.rs:96-105 | The ledger after `k` removals has `k` entries. |
| Ledger.LedgerSorted | src/lib.rs:96-105 | The ledger after any removal sequence is ascending. |
| Ledger.LedgerEntries | src/lib.rs:96-105 | For non-decreasing removal indices, the `j`-th ledger entry is `rs[j] + j`. |
| Ledger.LedgerDistinct | src/lib.rs:96-105 | For non-decreasing removal indices, the ledger has no duplicate entry. |
| Ledger.Yielded | src/lib.rs:196-203 | The heap filter yields slots of the vector only. |
| Ledger.YieldedStep | src/lib.rs:196-203 | One step of the filter pops and skips slot `i` when it is the heap's minimum. Otherwise it yields `i`. |
| Ledger.YieldedIsSurvivors | src/lib.rs:196-203 | For a strictly increasing heap whose entries are all at least `i`, the filter from cursor `i` yields exactly the slots in `[i, n)` not in the heap, in ascending order. |
| Ledger.Pick | src/lib.rs:196-203 | Yields one element per slot, the vector's element at that slot. |
| Ledger.Agreement | src/lib.rs:190-203 | For non-decreasing removal indices that are each in bounds at their removal, the slots not in the ledger are exactly the routine's translations of `0 .. len-1`. |
| Ledger.OutOfOrderRemovalsDisagree | src/lib.rs:91-146 | After `remove(3); remove(0)` on five elements, the ledger is `[0, 3]` and the routine sends index 2 to slot 3, a removed slot. Iteration yields slots `[1, 2, 4]`. |
| Ledger.OutOfOrderRemovalsAgree | src/lib.rs:91-146 | `remove(4); remove(0)` on five elements is not sorted, yet the ledger is `[0, 4]`, the routine's answers for indices `0 .. 2` are `[1, 2, 3]`, and both the heap filter and the reference set difference yield `[1, 2, 3]`. |
| Ledger.OutOfOrderDuplicateEntry | src/lib.rs:96-105 | A further `remove(2)` leaves the ledger `[0, 3, 3]` with slot 3 twice. Iteration still yields three slots, `[1, 2, 4]`. |
| Ledger.IterationSkipsZeroAndThree | src/lib.rs:196-203 | The filter over heap `[0, 3]` yields slots `[1, 2, 4]`. |
| Ledger.IterationStopsAtDuplicate | src/lib.rs:196-203 | The filter over heap `[0, 3, 3]` pops one 3 and never reaches the other. It yields `[1, 2, 4]`. |
| Scenarios.RemoveOne | src/tests.rs:7-15 | Removing index 1 from `[1, 2, 3, 4, 5]` iterates as `[1, 3, 4, 5]` and leaves length 4. |
| Scenarios.SlotsAfterOne | src/tests.rs:7-15 | The translations after removing index 1 pick `[1, 3, 4, 5]`. |
| Scenarios.RemoveTwo | src/tests.rs:19-28 | Removing index 1 twice iterates as `[1, 4, 5]` and leaves length 3. |
| Scenarios.SlotsAfterTwo | src/tests.rs:19-28 | The translations after removing index 1 twice pick `[1, 4, 5]`. |
| Scenarios.RemoveThree | src/tests.rs:32-42 | Removing index 1, index 1, then index 2 iterates as `[1, 4]` and leaves length 2. |
| Scenarios.SlotsAfterThree | src/tests.rs:32-42 | The translations after those removals pick `[1, 4]`. |
| Scenarios.IndexAfterRemovingFront | src/lib.rs:174-181 | After removing index 0, index 0 reads 2, index 4 is out of bounds and the length is 4. |
| Scenarios.RemovePastEnd | src/lib.rs:83-92 | Removing at the length fails with `OutOfBounds`. Length and iteration are unchanged. |
| Scenarios.WriteAfterRemoval | src/lib.rs:183-188 | After removing index 1, writing 9 through index 1 lands in slot 2. Iteration gives `[1, 9, 4, 5]`. |
| Scenarios.RemoveThreeThenZero | src/lib.rs:91-146 | `remove(3); remove(0)` leaves thresholds `[3, 0]` and ledger `[0, 3]`. |
| Scenarios.OutOfOrderIndex | src/lib.rs:174-181 | After `remove(3); remove(0)`, index 2 reads 4, the element the first removal took out. |
| Scenarios.OutOfOrderIteration | src/lib.rs:190-205 | After `remove(3); remove(0)`, iteration yields `[2, 3, 5]`. |

## Left out

- The machine-code layer:
  - x86-64 instruction encoding, the `dynasm!` macros and the assembler's internals;
  - allocation of executable memory and its capacity (src/lib.rs:37);
  - failures of `alter` and `commit` (src/lib.rs:115-123, src/lib.rs:143).

  The buffer is a sequence of abstract instructions, and those steps cannot fail in the model.
- The reader lock and the `transmute` of the code address into a callable function (src/lib.rs:97-100, src/lib.rs:159-163) are a memory-safety and synchronisation boundary. The routine is called through the interpreter instead.
- The `compile_error!` platform gates (src/lib.rs:5-11) and the `anyhow` error types. Errors are the two faults of `Basics`.
- `new` (src/lib.rs:66-68) only turns a construction failure into a panic. Construction cannot fail in the model, so the constructor stands for both.
- Asm.Run: the accumulator is an unbounded integer, so 32-bit overflow of `eax`, the `as usize` cast of the routine's result (src/lib.rs:102) and the panic on a negative result (src/lib.rs:167) are not modelled. `JitLists.JitList.ResultFitsI32` proves that the final result lies in `[0, I32Max]` whenever the vector has at most `2^31` slots. Each guard adds 0 or 1, so every intermediate accumulator lies between the index and that result; that step-by-step bound is not stated as a lemma. For larger vectors the model proves no bound.
- Ledger.Agreement: is proved only for non-decreasing removal indices. Some other orders break agreement, as the two out-of-order lemmas show for `remove(3); remove(0)`. The model proves no agreement for arbitrary orders because the code does not guarantee it.
- Panics become results. `check_index` panics (src/lib.rs:85), and so does the `i32` conversion inside `get_real_index` (its `expect`, src/lib.rs:164). `remove` also panics when `try_remove` fails (src/lib.rs:151). Apart from the assembler failures left out above (src/lib.rs:123, src/lib.rs:143), only the conversion in `try_remove` (src/lib.rs:94) returns an `Err`. In the model, each panic of `try_remove`, `get_real_index`, `Index` and `IndexMut` is a returned `Fail`/`Err` with the state unchanged. So where a Model row says such a member "fails with `OutOfBounds`", or fails with `Overflow` at the lookup, the source panics instead.
- JitLists.JitList.Remove: the source panics when `try_remove` fails. The method instead requires an index that `try_remove` accepts, and its ensures state the resulting state through the invariant.
- JitLists.JitList.IntoIter: the consuming and shared-reference iterators yield the same elements. The model returns them as one sequence. It does not model consuming the list or laziness, nor that the borrowing iterators clone the heap (src/lib.rs:212, src/lib.rs:229) while the consuming one takes it over (src/lib.rs:195).
- JitLists.JitList.IterMutSlots: yields the slots the mutable references borrow, not the references. Aliasing of the borrows is not modelled.
- The tail offset's `take()` (src/lib.rs:112) is folded into its reassignment at src/lib.rs:136. No caller can observe the value in between.
- benches/against_vec.rs is a timing harness with no logic of its own.
