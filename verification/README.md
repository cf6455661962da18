# Common subexpression elimination over SSA instructions

This is a Dafny model of the common-subexpression-elimination pass in
`projects/p2/C++/p2.cpp`. The pass works in place on the instructions of
every function of an LLVM module, visiting each block in order with a
cursor. At each instruction it does the first of these that applies:

1. It erases the instruction if it is dead: unused, with an opcode from a fixed list (`isDead`).
2. It replaces the instruction with the value the instruction simplifier returns for it.
3. If the instruction is a candidate for CSE (`isValidForCSE`), it folds every later identical instruction into it:
   - in the rest of its own block (`sameBBScan`);
   - in every block its block immediately dominates (`domBBScan`).
4. For a load, it removes the later loads of the same address up to the next store (`eliminateLoad`).
5. For a store (`eliminateStore`), it forwards the stored value to later loads of the same address. It also erases the store when a later store to the same address overwrites it before any barrier. In that case it tells the driver, through `inc_flag`, not to move the cursor.

"Folding" instruction `y` into a value `r` means redirecting every use of `y` to `r`
(`replaceAllUsesWith`) and then erasing `y` (`eraseFromParent`).

How the model is laid out:

- `ir.dfy` (module `IR`)
  - Instructions are values: id, opcode, type, operands, opcode-specific data, volatility and a side-effect flag.
  - A block is a sequence of instructions, and a function is a sequence of blocks.
  - It defines the two graph edits of the pass.
  - It defines the well-formedness the pass keeps, `WF`:
    - ids are unique;
    - ids are numbered in dominance order, so a block's ids are below those of the blocks it dominates;
    - a load has one operand and a store has two;
    - an operand of a non-PHI instruction names an earlier instruction;
    - no operand dangles: each one names an instruction that is still there, defines a value and has the operand's type.
- `classify.dfy` (module `Classify`): `isDead` and `isValidForCSE`.
- `collapse.dfy` (module `Collapsing`): `Collapse`, a reference definition that applies many folds towards one value at once. Its lemmas show that a run of single folds is one collapse.
- `cse_scans.dfy` (module `CseScans`) and `mem_scans.dfy` (module `MemoryScans`)
  - Each of the four scans is a function of the blocks that folds one instruction at a time, following its loop (for a function whose blocks are all reachable; see "Left out").
  - Lemmas give each scan's result in closed form, as a collapse of a set that depends only on the input. For example, a load scan collapses exactly the matching loads before the first store.
  - Lemmas also show that each scan keeps `WF`, creates no instruction and never loses a terminator.
  - Separate lemmas say what each scan can lose: for the CSE scans, only instructions of the scanned blocks, from the start position on, with the candidate's opcode, type, predicate and volatility; for the store scan, only non-volatile loads of the stored type and the store itself. Everything before the start position stays in place.
- `pass.dfy` (module `Pass`)
  - The class `IRFunction` holds the blocks, which its methods update in place.
  - Its methods mirror the scans and the driver loop, with loop invariants.
  - Each scan method is proved equal to its function.
  - The driver's methods keep `WF`, create no instruction and keep every terminator. Each round leaves the instructions before the cursor in place.

The cursor is an index into the block. The source moves the iterator past an
instruction before erasing it; in the model that is an index that stays put
while the following instructions shift down. Where the source's comments and
the code disagree, the model follows the code. In the dead-store case, the
code moves the caller's cursor to the instruction right after the erased
(earlier) store, not after the later one.

## Model

| member | source | states |
|---|---|---|
| `IR.EraseAt` | projects/p2/C++/p2.cpp:348 | erasing removes exactly the instruction at the position and shifts the rest of its block down by one; every other block is untouched |
| `IR.FoldKeepsWF` | projects/p2/C++/p2.cpp:347-348 | redirecting the uses of an instruction to a value of its type defined before it, then erasing it, keeps the function well formed and leaves no use of the erased id; it creates no instruction (what is left in a block was in that block, with the same id, opcode, type and flags) and loses no terminator |
| `IR.EraseUnusedKeepsWF` | projects/p2/C++/p2.cpp:264 | erasing an instruction with no uses keeps the function well formed and creates no instruction |
| `IR.FoldLoses` | projects/p2/C++/p2.cpp:347-348 | a fold loses only the folded instruction: every other instruction stays in its block with its id, opcode, type and flags; and with unique ids the folded one is gone |
| `IR.EraseLoses` | projects/p2/C++/p2.cpp:264 | erasing loses only the erased instruction, and with unique ids it is gone from its block |
| `IR.StoreIsUnused` | projects/p2/C++/p2.cpp:487 | in a well-formed function nothing uses a store, so erasing a dead store without redirecting anything leaves no dangling use |
| `Classify.IsDead` | projects/p2/C++/p2.cpp:178-246 | a dead instruction has no uses and is never a load, store, alloca, call, va_arg or terminator |
| `Classify.ValidForCSE` | projects/p2/C++/p2.cpp:310-322 | a CSE candidate is never a load, store, call or terminator; every opcode `isDead` lists except FCmp is a candidate |
| `Classify.DeadErasureIsSafe` | projects/p2/C++/p2.cpp:260-266 | erasing an instruction `isDead` accepts keeps the function well formed and keeps every terminator |
| `Collapsing.FoldIsCollapse` | projects/p2/C++/p2.cpp:347-348 | one redirect-and-erase is the collapse of that one id |
| `Collapsing.CollapseCompose` | projects/p2/C++/p2.cpp:338-351 | collapsing `d1` and then `d2` towards the same value is collapsing `d1 + d2` at once, so the order of the folds does not matter |
| `Collapsing.CollapseKeepsSuffix` | projects/p2/C++/p2.cpp:429-431 | the general fact behind where the load scan (these lines) and the store scan (p2.cpp:478-500) stop: when no instruction from a position on is collapsed, that part of the block survives whole at the block's end, with only its operands redirected |
| `CseScans.Duplicates` | projects/p2/C++/p2.cpp:342 | an id is in the set exactly when some instruction of the block with that id is identical to the candidate |
| `CseScans.ScanFrom` | projects/p2/C++/p2.cpp:338-351 | the scan never adds instructions, leaves other blocks' sizes alone and keeps the candidate at its position with its identity |
| `CseScans.ScanFromKeepsWF` | projects/p2/C++/p2.cpp:338-351 | folding later identical instructions into a candidate keeps the function well formed, creates no instruction and loses no terminator |
| `CseScans.ScanFromLoses` | projects/p2/C++/p2.cpp:338-351 | the scan leaves everything before its start position, and every other block, in place up to operands; every instruction it loses was in the scanned block, so from the start position on, and has the candidate's opcode, type, predicate and volatility |
| `CseScans.ScanFromCollapses` | projects/p2/C++/p2.cpp:338-351 | the scan is one collapse into the candidate: exactly the identical instructions from the start position go, every use of them names the candidate, all else stays in order, the candidate is unchanged |
| `CseScans.ScanLeavesNoDuplicate` | projects/p2/C++/p2.cpp:338-351 | afterwards no instruction of the scanned block later than the candidate is identical to it |
| `CseScans.DomFrom` | projects/p2/C++/p2.cpp:375-391 | scanning the dominated blocks keeps the number of blocks, the candidate's block and the candidate's identity |
| `CseScans.DomFromKeepsWF` | projects/p2/C++/p2.cpp:375-391 | the scan of the immediately dominated blocks keeps the function well formed, creates no instruction and loses no terminator |
| `CseScans.DomFromLoses` | projects/p2/C++/p2.cpp:375-391 | the scan of the dominated blocks leaves the candidate's block in place up to operands; every instruction it loses was in one of the scanned blocks and has the candidate's opcode, type, predicate and volatility |
| `CseScans.DomFromCollapses` | projects/p2/C++/p2.cpp:375-391 | that scan is one collapse into the candidate of exactly the instructions of the dominated blocks identical to it |
| `CseScans.DomScanKeepsOtherBlocks` | projects/p2/C++/p2.cpp:372-391 | every block not immediately dominated by the candidate's block, its own included, keeps all its instructions in order; only uses of erased duplicates change, to the candidate |
| `MemoryScans.LoadFrom` | projects/p2/C++/p2.cpp:408-432 | the load scan never adds instructions, only touches the candidate's block and keeps the candidate in place |
| `MemoryScans.RedundantLoadsMembers` | projects/p2/C++/p2.cpp:412-431 | an id is in `RedundantLoads` exactly when it belongs to a non-volatile load of the candidate's address and type with no store before it |
| `MemoryScans.LoadFromKeepsWF` | projects/p2/C++/p2.cpp:408-432 | the load scan keeps the function well formed, creates no instruction and loses no terminator |
| `MemoryScans.LoadFromSameBefore` | projects/p2/C++/p2.cpp:408-432 | the load scan leaves the candidate, everything before it and every other block in place up to operands |
| `MemoryScans.LoadFromCollapses` | projects/p2/C++/p2.cpp:408-432 | the load scan is one collapse into the candidate of exactly the redundant loads; volatile loads, the store and all else stay in order |
| `MemoryScans.LoadScanSound` | projects/p2/C++/p2.cpp:403-434 | `eliminateLoad` as a whole keeps the function well formed, loses only the removed loads and no terminator, and is the collapse of the redundant loads into the candidate |
| `MemoryScans.LoadScanStopsAtStore` | projects/p2/C++/p2.cpp:429-431 | the first store after the candidate and everything after it stay whole and in place; only uses of removed loads change |
| `MemoryScans.StoreFrom` | projects/p2/C++/p2.cpp:453-502 | the store scan never adds instructions and leaves the other blocks' sizes alone; when it does not report a dead store, the store is still in place with its identity (`StoreFromLoses` shows that when it does, the store is gone) |
| `MemoryScans.ForwardedMembers` | projects/p2/C++/p2.cpp:458-500 | a load is in `Forwarded` exactly when it reads the store's address with the stored type and the scan reaches it; the dead flag is set exactly when the scan reaches a store overwriting the candidate |
| `MemoryScans.StoredValueOk` | projects/p2/C++/p2.cpp:465-468 | the stored value has the forwarded load's type and, if it is an instruction, comes before the load, so it may replace the load |
| `MemoryScans.StoreFromKeepsWF` | projects/p2/C++/p2.cpp:453-502 | forwarding and dead store elimination keep the function well formed, create no instruction and lose no terminator |
| `MemoryScans.StoreFromLoses` | projects/p2/C++/p2.cpp:453-502 | the store scan leaves everything before the store, and every other block, in place up to operands; it loses only non-volatile loads of the stored type and the store itself; when it reports a dead store and ids are unique, the store is gone |
| `MemoryScans.StoreFromCollapses` | projects/p2/C++/p2.cpp:453-502 | the store scan is one collapse towards the stored value of exactly the forwarded loads, then the erasure of the candidate when it was found dead; the flag says which |
| `MemoryScans.StoreScanSound` | projects/p2/C++/p2.cpp:448-504 | `eliminateStore` as a whole keeps the function well formed, creates no instruction, loses no terminator and loses nothing but non-volatile loads of the stored type and the store, which is gone exactly when the flag is set; for a store not of its own address it is the collapse of the forwarded loads, then the erasure of the candidate exactly when the flag is set |
| `MemoryScans.StoreScanStopsAtBarrier` | projects/p2/C++/p2.cpp:478-500 | the scan stops at the first instruction that is not forwarded and overwrites the candidate or is a barrier; the flag is set exactly when it overwrites; it and all after it stay whole |
| `Pass.IRFunction.FoldDuplicates` | projects/p2/C++/p2.cpp:338-351 | the shared scan loop leaves the blocks `ScanFrom` describes and leaves the flag alone |
| `Pass.IRFunction.SameBlockScan` | projects/p2/C++/p2.cpp:333-353 | the new blocks are `ScanFrom` of the old; the function stays well formed; for a non-PHI candidate the result is the collapse of its duplicates and no later instruction of its block is identical to it |
| `Pass.IRFunction.DomBlockScan` | projects/p2/C++/p2.cpp:362-392 | the new blocks are `DomFrom` of the old over the block's immediate children; the function stays well formed; for a non-PHI candidate, the collapse of its duplicates there |
| `Pass.IRFunction.EliminateLoad` | projects/p2/C++/p2.cpp:403-434 | the new blocks are `LoadFrom` of the old, and the collapse of the redundant loads into the candidate; the function stays well formed |
| `Pass.IRFunction.EliminateStore` | projects/p2/C++/p2.cpp:448-504 | the new blocks and the flag are `StoreFrom` of the old blocks, so the flag is set exactly when the store was found dead and erased; the function stays well formed; for a store not of its own address, the collapse of the forwarded loads into the stored value |
| `Pass.Step` | projects/p2/C++/p2.cpp:259-297 | one round of the driver leaves every instruction before the cursor in place; the cursor moves on only when the instruction under it survived, in its place and with its identity; it stays put only when that instruction is gone and the block has shrunk, so the next one is under it |
| `Pass.StepKeepsWF` | projects/p2/C++/p2.cpp:259-297 | every round of the driver keeps the function well formed, creates no instruction and keeps every terminator |
| `Pass.SweepKeepsWF` | projects/p2/C++/p2.cpp:256-298 | the whole walk over the blocks keeps the function well formed, creates no instruction and keeps every terminator |
| `Pass.IRFunction.Visit` | projects/p2/C++/p2.cpp:259-297 | the new blocks and the cursor decision are those of `Step`: erase if dead, else fold into the simplified value, else the CSE scans, the load scan or the store scan by opcode; the function stays well formed |
| `Pass.IRFunction.Run` | projects/p2/C++/p2.cpp:253-299 | the nested loops leave exactly `Sweep` of the old blocks (which `SweepKeepsWF` shows well formed, with no new instruction and every terminator kept) |
| `Pass.IRFunction.SweepBlock` | projects/p2/C++/p2.cpp:256-297 | the inner loop over one block, with the cursor held in place after an erasure, leaves blocks whose sweep from the next block on is the old blocks' sweep from this one; the function stays well formed |
| `Pass.CommonSubexpressionElimination` | projects/p2/C++/p2.cpp:248-301 | every function of the module ends up as the sweep of the driver loop over its own blocks and dominator table |

## Left out

- `main`, the command-line options, bitcode reading and writing, the `Mem2Reg` pass and the verifier call (p2.cpp:44-138) are not part of this model: they are I/O and framework calls.
- `summarize`, `print_csv_file` and the `Statistic` counters (p2.cpp:140-174, and the `CSE…++` lines) are not modelled: they only count and report.
- The unused globals `dce` and `simplified` (p2.cpp:30-31) are not modelled.
- `SimplifyInstruction` (p2.cpp:269) is a parameter `simplify`. The model only requires it to return a value that may replace the instruction (`SimplifierSound`); what it simplifies is not modelled.
- The dominator tree (p2.cpp:368-372) is a fixed table, `domChildren`, of each block's immediate children. It is fixed because the pass never changes control flow. Rebuilding the tree on every call, and the leak of the tree object, are not modelled.
- `isIdenticalTo` is `Identical`: same opcode, type, operands, opcode-specific data (`special`, for example a compare predicate) and volatility. `mayHaveSideEffects` is a per-instruction flag. Beyond these, the meaning of both LLVM helpers is not modelled.
- Floating point is not modelled: FAdd, FCmp and the like are opcode tags only.
- `inc_flag` is a field of `IRFunction`, not a global. Only the store scan writes it and only the driver reads it, both on the same function.
- Use after free at p2.cpp:428: `eliminateLoad` reads the opcode of a load it has just erased. Instructions are values in the model, so it tests the store case only for instructions it did not erase. The outcome is the same, because an erased load is never a store.
- What the instructions compute is not modelled. So the claim that the pass never changes a program's values or memory is not stated. Nor is the claim that a second run finds nothing more: the code is a single sweep and makes no such promise.
- `CseScans.ScanFromCollapses`: holds only for a candidate that is not a PHI. A PHI may use a later duplicate of itself through a loop edge; its own operands are then rewritten during the scan, and which instructions match depends on the order. The well-formedness lemmas still cover PHI candidates.
- `CseScans.ScanLeavesNoDuplicate`: for a non-PHI candidate only, for the same reason.
- `CseScans.DomFromCollapses`: for a non-PHI candidate only, for the same reason.
- `CseScans.DomScanKeepsOtherBlocks`: for a non-PHI candidate only, for the same reason.
- `Pass.IRFunction.SameBlockScan`: the closed form and the no-duplicate promise are stated for non-PHI candidates only. The method requires `isValidForCSE` of its candidate, which is what its only caller checks (p2.cpp:281).
- `Pass.IRFunction.DomBlockScan`: the closed form is stated for non-PHI candidates only. The method requires `isValidForCSE` of its candidate, as its only caller checks (p2.cpp:281).
- `MemoryScans.StoreFromCollapses`: excludes a store whose stored value is its own address (`store ptr %p, ptr %p`). Forwarding a load turns later operands naming that load into `%p`, which can make a later load or store match that did not match before. The well-formedness lemma still covers such stores.
- `MemoryScans.StoreScanStopsAtBarrier`: excludes a store of its own address, for the same reason.
- `Pass.IRFunction.EliminateStore`: the closed form is stated only for stores that do not store their own address.
- `MemoryScans.StoreScanSound`: the closed form (`StoreScanIs`) excludes a store of its own address, for the same reason as `StoreFromCollapses`. For such a store it states only what the scan keeps and can lose, and that the flag is set exactly when the store is gone.
- `CseScans.DomFrom`: assumes that every block is reachable from the entry block. For an unreachable block, `DT->getNode(BB)` returns null (p2.cpp:372) and the loop at p2.cpp:375 dereferences it, so the source crashes when an unreachable block holds a CSE candidate that survives. The model's `domChildren` table gives every block a list of children (empty for a leaf), so it scans nothing there instead of crashing.
- `Pass.IRFunction.DomBlockScan`: same assumption and same gap as `CseScans.DomFrom`.
- `IR.WF`: requires every operand of a non-PHI instruction to name an earlier instruction. LLVM also allows an instruction in an unreachable block to use a later value or itself; such functions are outside the model.
