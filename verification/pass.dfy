/** The pass itself: a function of the module as an object whose blocks the
    pass edits in place, the four scans and the driver loop as methods, and
    the driver over all functions of a module. Every method is proved
    against the function of `CseScans` or `MemoryScans` that describes its
    loop, and keeps the function well formed. */
module Pass {
  import opened IR
  import opened Collapsing
  import opened Classify
  import opened CseScans
  import opened MemoryScans

  datatype Option<T> = None | Some(value: T)

  /** What the pass relies on from the instruction simplifier it calls: when it
      simplifies an instruction, the instruction is not a terminator and
      the value it returns may replace the instruction. */
  ghost predicate SimplifierSound(simplify: (seq<Block>, Instr) -> Option<Value>) {
    forall bs: seq<Block>, x: Instr :: simplify(bs, x).Some? ==>
      !IsTerminator(x.op) && ReplacementOk(bs, x, simplify(bs, x).value)
  }

  /** One round of the driver loop on the instruction at (b, i) of `bs`: the
      blocks it leaves and whether the cursor moves on. The instructions
      before the cursor stay in place. The cursor stays put exactly when
      the instruction under it was erased: when it moves on, that
      instruction is still in place; when it stays, the instruction is gone
      and the block has shrunk (the next instruction has moved into
      position i). */
  ghost function Step(bs: seq<Block>, kids: seq<seq<nat>>, b: nat, i: nat,
                      simplify: (seq<Block>, Instr) -> Option<Value>): (r: (seq<Block>, bool))
    requires WF(bs, kids) && b < |bs| && i < |bs[b]|
    ensures |r.0| == |bs| && |r.0[b]| <= |bs[b]|
    ensures r.1 ==> i < |r.0[b]| && Skel(r.0[b][i]) == Skel(bs[b][i])
    ensures !r.1 ==> i <= |r.0[b]| < |bs[b]| && Skel(bs[b][i]) !in Skels(r.0[b])
    ensures KeptPrefix(bs, r.0, b, i)
  {
    var x := bs[b][i];
    if IsDead(bs, x) then
      EraseStepKeeps(bs, b, i);
      (EraseAt(bs, b, i), false)
    else if simplify(bs, x).Some? then
      FoldStepKeeps(bs, b, i, simplify(bs, x).value);
      (Fold(bs, b, i, simplify(bs, x).value), false)
    else if ValidForCSE(x) then
      CseStepKeeps(bs, kids, b, i);
      (DomFrom(ScanFrom(bs, b, i, b, i + 1), b, i, kids[b]), true)
    else if x.op.Load? then
      LoadStepKeeps(bs, b, i);
      (LoadFrom(bs, b, i, i + 1), true)
    else if x.op.Store? then
      StoreStepKeeps(bs, b, i);
      (StoreFrom(bs, b, i, i + 1).0, !StoreFrom(bs, b, i, i + 1).1)
    else (bs, true)
  }

  lemma EraseStepKeeps(bs: seq<Block>, b: nat, i: nat)
    requires UniqueIds(bs) && b < |bs| && i < |bs[b]|
    ensures KeptPrefix(bs, EraseAt(bs, b, i), b, i) && Skel(bs[b][i]) !in Skels(EraseAt(bs, b, i)[b])
  {
    EraseSameBefore(bs, b, i);
    EraseLoses(bs, b, i);
  }

  lemma FoldStepKeeps(bs: seq<Block>, b: nat, i: nat, v: Value)
    requires UniqueIds(bs) && b < |bs| && i < |bs[b]|
    ensures KeptPrefix(bs, Fold(bs, b, i, v), b, i) && Skel(bs[b][i]) !in Skels(Fold(bs, b, i, v)[b])
  {
    FoldSameBefore(bs, b, i, v);
    FoldLoses(bs, b, i, v);
  }

  lemma CseStepKeeps(bs: seq<Block>, kids: seq<seq<nat>>, b: nat, i: nat)
    requires WF(bs, kids) && b < |bs| && i < |bs[b]|
    ensures KeptPrefix(bs, DomFrom(ScanFrom(bs, b, i, b, i + 1), b, i, kids[b]), b, i)
  {
    var bs1 := ScanFrom(bs, b, i, b, i + 1);
    ScanFromLoses(bs, b, i, b, i + 1);
    assert KeptPrefix(bs, bs1, b, i + 1);
    DomFromLoses(bs1, b, i, kids[b]);
  }

  lemma LoadStepKeeps(bs: seq<Block>, b: nat, i: nat)
    requires b < |bs| && i < |bs[b]|
    ensures KeptPrefix(bs, LoadFrom(bs, b, i, i + 1), b, i)
  {
    LoadFromSameBefore(bs, b, i, i + 1);
    assert KeptPrefix(bs, LoadFrom(bs, b, i, i + 1), b, i + 1);
  }

  lemma StoreStepKeeps(bs: seq<Block>, b: nat, i: nat)
    requires UniqueIds(bs) && b < |bs| && i < |bs[b]|
    ensures KeptPrefix(bs, StoreFrom(bs, b, i, i + 1).0, b, i)
    ensures StoreFrom(bs, b, i, i + 1).1 ==> Skel(bs[b][i]) !in Skels(StoreFrom(bs, b, i, i + 1).0[b])
  {
    StoreFromLoses(bs, b, i, i + 1);
    assert KeptPrefix(bs, StoreFrom(bs, b, i, i + 1).0, b, i);
  }

  /** Every round of the driver keeps the function well formed, creates no
      instruction and never loses a terminator. */
  lemma StepKeepsWF(bs: seq<Block>, kids: seq<seq<nat>>, b: nat, i: nat,
                    simplify: (seq<Block>, Instr) -> Option<Value>)
    requires WF(bs, kids) && SimplifierSound(simplify) && b < |bs| && i < |bs[b]|
    ensures var cs := Step(bs, kids, b, i, simplify).0;
      WF(cs, kids) && Retained(bs, cs) && TerminatorsKept(bs, cs)
  {
    var x := bs[b][i];
    if IsDead(bs, x) {
      DeadErasureIsSafe(bs, kids, b, i);
    } else if simplify(bs, x).Some? {
      FoldKeepsWF(bs, kids, b, i, simplify(bs, x).value);
    } else if ValidForCSE(x) {
      var bs1 := ScanFrom(bs, b, i, b, i + 1);
      ScanFromKeepsWF(bs, kids, b, i, b, i + 1);
      DomFromKeepsWF(bs1, kids, b, i, kids[b]);
      RetainedTrans(bs, bs1, DomFrom(bs1, b, i, kids[b]));
      TerminatorsKeptTrans(bs, bs1, DomFrom(bs1, b, i, kids[b]));
    } else if x.op.Load? {
      LoadFromKeepsWF(bs, kids, b, i, i + 1);
    } else if x.op.Store? {
      StoreFromKeepsWF(bs, kids, b, i, i + 1);
    }
  }

  /** The driver loop from block b, position i on: every block in order,
      every instruction of it in order, the cursor kept in place whenever
      the instruction under it was erased. The whole pass on one function
      is `Sweep(bs, kids, 0, 0, simplify)`. */
  ghost function Sweep(bs: seq<Block>, kids: seq<seq<nat>>, b: nat, i: nat,
                       simplify: (seq<Block>, Instr) -> Option<Value>): seq<Block>
    requires WF(bs, kids) && SimplifierSound(simplify) && b <= |bs|
    decreases |bs| - b, if b < |bs| then |bs[b]| - i else 0
  {
    if b == |bs| then bs
    else if i >= |bs[b]| then Sweep(bs, kids, b + 1, 0, simplify)
    else
      StepKeepsWF(bs, kids, b, i, simplify);
      var st := Step(bs, kids, b, i, simplify);
      Sweep(st.0, kids, b, if st.1 then i + 1 else i, simplify)
  }

  /** The whole sweep keeps the function well formed, creates no
      instruction and never loses a terminator. */
  lemma {:induction false} SweepKeepsWF(bs: seq<Block>, kids: seq<seq<nat>>, b: nat, i: nat,
                                        simplify: (seq<Block>, Instr) -> Option<Value>)
    requires WF(bs, kids) && SimplifierSound(simplify) && b <= |bs|
    ensures var r := Sweep(bs, kids, b, i, simplify);
      WF(r, kids) && Retained(bs, r) && TerminatorsKept(bs, r)
    decreases |bs| - b, if b < |bs| then |bs[b]| - i else 0
  {
    if b == |bs| {
    } else if i >= |bs[b]| {
      SweepKeepsWF(bs, kids, b + 1, 0, simplify);
    } else {
      StepKeepsWF(bs, kids, b, i, simplify);
      var st := Step(bs, kids, b, i, simplify);
      var i' := if st.1 then i + 1 else i;
      SweepKeepsWF(st.0, kids, b, i', simplify);
      var r := Sweep(st.0, kids, b, i', simplify);
      RetainedTrans(bs, st.0, r);
      TerminatorsKeptTrans(bs, st.0, r);
    }
  }

  /** One function of the module: its blocks, which the pass edits, and its
      dominator tree, given as the list of blocks each block immediately
      dominates (the pass never changes control flow). `incFlag` is the
      flag the store scan sets when it erased the store under the cursor. */
  class IRFunction {
    var blocks: seq<Block>
    const domChildren: seq<seq<nat>>
    var incFlag: bool

    ghost predicate Valid()
      reads this
    {
      WF(blocks, domChildren)
    }

    constructor (bs: seq<Block>, kids: seq<seq<nat>>)
      requires WF(bs, kids)
      ensures blocks == bs && domChildren == kids && !incFlag && Valid()
    {
      blocks := bs;
      domChildren := kids;
      incFlag := false;
    }

    /** The loop `sameBBScan` and `domBBScan` share: from position `from` of
        block `blk` on, every instruction identical to the candidate at
        (cb, cp) has its uses redirected to the candidate and is erased. */
    method FoldDuplicates(cb: nat, cp: nat, blk: nat, from: nat)
      requires cb < |blocks| && cp < |blocks[cb]| && blk < |blocks| && from <= |blocks[blk]|
      requires blk != cb || cp < from
      modifies this
      ensures blocks == ScanFrom(old(blocks), cb, cp, blk, from)
      ensures incFlag == old(incFlag)
    {
      var j: nat := from;
      while j < |blocks[blk]|
        invariant |blocks| == |old(blocks)| && cb < |blocks| && blk < |blocks|
        invariant cp < |blocks[cb]| && j <= |blocks[blk]| && (blk != cb || cp < j)
        invariant ScanFrom(blocks, cb, cp, blk, j) == ScanFrom(old(blocks), cb, cp, blk, from)
        invariant incFlag == old(incFlag)
        decreases |blocks[blk]| - j
      {
        var current := blocks[cb][cp];
        var next := blocks[blk][j];
        if Identical(next, current) {
          blocks := ReplaceAllUses(blocks, next.id, Ref(current));
          blocks := EraseAt(blocks, blk, j);
        } else {
          j := j + 1;
        }
      }
    }

    /** `sameBBScan`: the instructions after the candidate in its own block. */
    method SameBlockScan(b: nat, p: nat)
      requires Valid() && b < |blocks| && p < |blocks[b]| && ValidForCSE(blocks[b][p])
      modifies this
      ensures blocks == ScanFrom(old(blocks), b, p, b, p + 1)
      ensures Valid() && Retained(old(blocks), blocks) && TerminatorsKept(old(blocks), blocks)
      ensures incFlag == old(incFlag)
      ensures !old(blocks)[b][p].op.PHI? ==>
                && blocks == Collapse(old(blocks), Duplicates(old(blocks)[b][p + 1..], old(blocks)[b][p]), Ref(old(blocks)[b][p]))
                && blocks[b][p] == old(blocks)[b][p]
                && forall q :: p < q < |blocks[b]| ==> !Identical(blocks[b][q], blocks[b][p])
    {
      ghost var bs := blocks;
      FoldDuplicates(b, p, b, p + 1);
      ScanFromKeepsWF(bs, domChildren, b, p, b, p + 1);
      if !bs[b][p].op.PHI? {
        ScanReadyFromWF(bs, domChildren, b, p);
        ScanFromCollapses(bs, b, p, b, p + 1);
        ScanLeavesNoDuplicate(bs, b, p, b, p + 1);
      }
    }

    /** `domBBScan`: every block the candidate's block immediately dominates,
        in the order of the dominator tree. */
    method DomBlockScan(b: nat, p: nat)
      requires Valid() && b < |blocks| && p < |blocks[b]| && ValidForCSE(blocks[b][p])
      modifies this
      ensures b < |domChildren|
      ensures forall k :: 0 <= k < |domChildren[b]| ==> domChildren[b][k] < |old(blocks)| && domChildren[b][k] != b
      ensures blocks == DomFrom(old(blocks), b, p, domChildren[b])
      ensures Valid() && Retained(old(blocks), blocks) && TerminatorsKept(old(blocks), blocks)
      ensures incFlag == old(incFlag)
      ensures !old(blocks)[b][p].op.PHI? ==>
                && blocks == Collapse(old(blocks), DomDuplicates(old(blocks), domChildren[b], old(blocks)[b][p]), Ref(old(blocks)[b][p]))
                && blocks[b][p] == old(blocks)[b][p]
    {
      ghost var bs := blocks;
      var children := domChildren[b];
      var n := 0;
      while n < |children|
        invariant n <= |children| && |blocks| == |bs| && p < |blocks[b]|
        invariant DomFrom(blocks, b, p, children[n..]) == DomFrom(bs, b, p, children)
        invariant incFlag == old(incFlag)
      {
        ghost var before := blocks;
        FoldDuplicates(b, p, children[n], 0);
        assert children[n..][1..] == children[n + 1..];
        assert DomFrom(before, b, p, children[n..]) == DomFrom(blocks, b, p, children[n + 1..]);
        n := n + 1;
      }
      assert children[n..] == [];
      DomFromKeepsWF(bs, domChildren, b, p, children);
      if !bs[b][p].op.PHI? {
        DomReadyFromWF(bs, domChildren, b, p);
        DomFromCollapses(bs, b, p, children);
      }
    }

    /** `eliminateLoad`: later loads of the block that repeat the load at
        (b, p), up to the first store. */
    method EliminateLoad(b: nat, p: nat)
      requires Valid() && b < |blocks| && p < |blocks[b]| && blocks[b][p].op.Load?
      modifies this
      ensures blocks == LoadFrom(old(blocks), b, p, p + 1)
      ensures blocks == Collapse(old(blocks), RedundantLoads(old(blocks)[b][p + 1..], old(blocks)[b][p]), Ref(old(blocks)[b][p]))
      ensures Valid() && Retained(old(blocks), blocks) && TerminatorsKept(old(blocks), blocks)
      ensures incFlag == old(incFlag)
    {
      ghost var bs := blocks;
      var j: nat := p + 1;
      while j < |blocks[b]|
        invariant |blocks| == |bs| && b < |blocks| && p < j <= |blocks[b]|
        invariant LoadFrom(blocks, b, p, j) == LoadFrom(bs, b, p, p + 1)
        invariant incFlag == old(incFlag)
        decreases |blocks[b]| - j
      {
        var current := blocks[b][p];
        var next := blocks[b][j];
        if SameLoad(next, current) {
          blocks := ReplaceAllUses(blocks, next.id, Ref(current));
          blocks := EraseAt(blocks, b, j);
        } else if next.op.Store? {
          break;
        } else {
          j := j + 1;
        }
      }
      LoadScanSound(bs, domChildren, b, p);
    }

    /** `eliminateStore`: forwards the stored value to the loads that read
        it back and erases the store at (b, p) when a later store overwrites
        it before any barrier; `incFlag` says whether it did. */
    method EliminateStore(b: nat, p: nat)
      requires Valid() && b < |blocks| && p < |blocks[b]| && blocks[b][p].op.Store?
      modifies this
      ensures (blocks, incFlag) == StoreFrom(old(blocks), b, p, p + 1)
      ensures Valid() && Retained(old(blocks), blocks) && TerminatorsKept(old(blocks), blocks)
      ensures !StoresOwnAddress(old(blocks)[b][p]) ==> StoreScanIs(old(blocks), b, p, p + 1, (blocks, incFlag))
    {
      ghost var bs := blocks;
      incFlag := false;
      var j: nat := p + 1;
      while j < |blocks[b]|
        invariant |blocks| == |bs| && b < |blocks| && p < j <= |blocks[b]|
        invariant StoreFrom(blocks, b, p, j) == StoreFrom(bs, b, p, p + 1)
        invariant !incFlag
        decreases |blocks[b]| - j
      {
        var current := blocks[b][p];
        var next := blocks[b][j];
        if ForwardsTo(next, current) {
          blocks := ReplaceAllUses(blocks, next.id, current.operands[0]);
          blocks := EraseAt(blocks, b, j);
          continue;
        }
        if Overwrites(next, current) {
          blocks := EraseAt(blocks, b, p);
          incFlag := true;
          break;
        }
        if Barrier(next) {
          break;
        }
        j := j + 1;
      }
      StoreScanSound(bs, domChildren, b, p);
    }
  
    /** One round of the driver loop for the instruction at (b, i): erase it
        when dead, replace it when the simplifier finds a value for it,
        otherwise run the scans its opcode calls for. `advance` is false
        exactly when the instruction under the cursor was erased, so that
        the next one has moved into position `i`. */
    method Visit(b: nat, i: nat, simplify: (seq<Block>, Instr) -> Option<Value>) returns (advance: bool)
      requires Valid() && SimplifierSound(simplify) && b < |blocks| && i < |blocks[b]|
      modifies this
      ensures (blocks, advance) == Step(old(blocks), domChildren, b, i, simplify)
      ensures Valid() && Retained(old(blocks), blocks) && TerminatorsKept(old(blocks), blocks)
    {
      var x := blocks[b][i];
      if IsDead(blocks, x) {
        DeadErasureIsSafe(blocks, domChildren, b, i);
        blocks := EraseAt(blocks, b, i);
        return false;
      }
      var simplified := simplify(blocks, x);
      if simplified.Some? {
        FoldKeepsWF(blocks, domChildren, b, i, simplified.value);
        blocks := ReplaceAllUses(blocks, x.id, simplified.value);
        blocks := EraseAt(blocks, b, i);
        return false;
      }
      if ValidForCSE(x) {
        SameBlockScan(b, i);
        DomBlockScan(b, i);
      }
      if x.op.Load? {
        EliminateLoad(b, i);
      }
      if x.op.Store? {
        EliminateStore(b, i);
        if incFlag {
          return false;
        }
      }
      return true;
    }

    /** The body of `CommonSubexpressionElimination` for one function: every
        block in order, every instruction of it in order, with the cursor
        kept in place when the instruction under it was erased. What it
        leaves is the sweep of the old blocks, which `SweepKeepsWF` shows is
        well formed, holds no new instruction and keeps every terminator. */
    method Run(simplify: (seq<Block>, Instr) -> Option<Value>)
      requires Valid() && SimplifierSound(simplify)
      modifies this
      ensures blocks == Sweep(old(blocks), domChildren, 0, 0, simplify)
    {
      var b: nat := 0;
      while b < |blocks|
        invariant Valid() && |blocks| == |old(blocks)| && b <= |blocks|
        invariant Sweep(blocks, domChildren, b, 0, simplify) == Sweep(old(blocks), domChildren, 0, 0, simplify)
      {
        SweepBlock(b, simplify);
        b := b + 1;
      }
    }

    /** The inner loop of the driver: visit every instruction of block `b`,
        keeping the cursor in place whenever the instruction under it was
        erased. What is left to do afterwards is the sweep of the later
        blocks. */
    method SweepBlock(b: nat, simplify: (seq<Block>, Instr) -> Option<Value>)
      requires Valid() && SimplifierSound(simplify) && b < |blocks|
      modifies this
      ensures Valid() && |blocks| == |old(blocks)|
      ensures Sweep(blocks, domChildren, b + 1, 0, simplify) == Sweep(old(blocks), domChildren, b, 0, simplify)
    {
      var i: nat := 0;
      while i < |blocks[b]|
        invariant Valid() && |blocks| == |old(blocks)| && i <= |blocks[b]|
        invariant Sweep(blocks, domChildren, b, i, simplify) == Sweep(old(blocks), domChildren, b, 0, simplify)
        decreases |blocks[b]| - i
      {
        var advance := Visit(b, i, simplify);
        if advance {
          i := i + 1;
        }
      }
    }
  }

  /** Blocks `after` are what the pass's sweep leaves of blocks `before`. */
  ghost predicate Swept(after: seq<Block>, before: seq<Block>, kids: seq<seq<nat>>,
                        simplify: (seq<Block>, Instr) -> Option<Value>)
  {
    WF(before, kids) && SimplifierSound(simplify) && after == Sweep(before, kids, 0, 0, simplify)
  }

  /** `CommonSubexpressionElimination`: run the pass over every function of
      the module; each ends up as the sweep of the driver loop over its
      blocks (which `SweepKeepsWF` shows well formed, with only erased
      instructions missing and every terminator in place). */
  method CommonSubexpressionElimination(m: seq<IRFunction>, simplify: (seq<Block>, Instr) -> Option<Value>)
    requires forall i, j :: 0 <= i < j < |m| ==> m[i] != m[j]
    requires forall k :: 0 <= k < |m| ==> m[k].Valid()
    requires SimplifierSound(simplify)
    modifies set k | 0 <= k < |m| :: m[k]
    ensures forall k :: 0 <= k < |m| ==> Swept(m[k].blocks, old(m[k].blocks), m[k].domChildren, simplify)
  {
    var n := 0;
    while n < |m|
      invariant n <= |m|
      invariant forall k :: 0 <= k < n ==> Swept(m[k].blocks, old(m[k].blocks), m[k].domChildren, simplify)
      invariant forall k :: n <= k < |m| ==> m[k].blocks == old(m[k].blocks)
    {
      assert old(m[n].Valid());
      m[n].Run(simplify);
      n := n + 1;
    }
  }
}
