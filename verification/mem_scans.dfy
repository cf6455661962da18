/** The two memory scans of the pass, as functions of the blocks: redundant
    load elimination after a load (`eliminateLoad`) and store-to-load
    forwarding and dead store elimination after a store (`eliminateStore`).
    Both look only at the rest of the instruction's own block. */
module MemoryScans {
  import opened IR
  import opened Collapsing
  import opened CseScans

  // ---------------------------------------------------------------------
  // Redundant loads

  /** `y` is a non-volatile load of the same address and type as load `c`. */
  predicate SameLoad(y: Instr, c: Instr) {
    && y.op.Load? && !y.isVolatile
    && |y.operands| > 0 && |c.operands| > 0
    && y.operands[0] == c.operands[0] && y.ty == c.ty
  }

  /** Scan the block of load (b, p) from position `j`: a matching load is
      folded into the candidate, the first store ends the scan, anything
      else (a volatile load among them) is passed over. */
  ghost function LoadFrom(bs: seq<Block>, b: nat, p: nat, j: nat): (r: seq<Block>)
    requires b < |bs| && p < j <= |bs[b]|
    ensures |r| == |bs| && p < |r[b]| && |r[b]| <= |bs[b]|
    ensures forall k :: 0 <= k < |bs| && k != b ==> |r[k]| == |bs[k]|
    ensures Skel(r[b][p]) == Skel(bs[b][p])
    decreases |bs[b]| - j
  {
    if j == |bs[b]| then bs
    else if SameLoad(bs[b][j], bs[b][p]) then
      FoldAt(bs, b, j, Ref(bs[b][p]), b, p);
      LoadFrom(Fold(bs, b, j, Ref(bs[b][p])), b, p, j)
    else if bs[b][j].op.Store? then bs
    else LoadFrom(bs, b, p, j + 1)
  }

  /** No instruction before position `q` of `s` is a store. */
  predicate NoStoreBefore(s: Block, q: nat)
    requires q <= |s|
  {
    forall q' :: 0 <= q' < q ==> !s[q'].op.Store?
  }

  /** The ids of the loads of `s` that repeat load `c` and come before the
      first store. */
  function RedundantLoads(s: Block, c: Instr): (d: set<nat>)
  {
    if s == [] then {}
    else if SameLoad(s[0], c) then {s[0].id} + RedundantLoads(s[1..], c)
    else if s[0].op.Store? then {}
    else RedundantLoads(s[1..], c)
  }

  /** `RedundantLoads` holds exactly the ids of the loads that repeat `c`
      with no store before them. */
  lemma {:induction false} RedundantLoadsMembers(s: Block, c: Instr)
    ensures forall q :: 0 <= q < |s| && SameLoad(s[q], c) && NoStoreBefore(s, q) ==> s[q].id in RedundantLoads(s, c)
    ensures forall id :: id in RedundantLoads(s, c) ==>
              exists q :: 0 <= q < |s| && s[q].id == id && SameLoad(s[q], c) && NoStoreBefore(s, q)
  {
    if s != [] && !s[0].op.Store? {
      var d := RedundantLoads(s, c);
      var d' := RedundantLoads(s[1..], c);
      RedundantLoadsMembers(s[1..], c);
      RedundantLoadsShift(s, c);
      forall q | 1 <= q < |s| && SameLoad(s[q], c) && NoStoreBefore(s, q) ensures s[q].id in d {
        assert s[q] == s[1..][q - 1];
      }
      forall id | id in d' ensures exists q :: 0 <= q < |s| && s[q].id == id && SameLoad(s[q], c) && NoStoreBefore(s, q) {
        var q1 :| 0 <= q1 < |s| - 1 && s[1..][q1].id == id && SameLoad(s[1..][q1], c) && NoStoreBefore(s[1..], q1);
        assert s[q1 + 1] == s[1..][q1];
      }
    }
  }

  lemma RedundantLoadsShift(s: Block, c: Instr)
    requires s != [] && !s[0].op.Store?
    ensures forall q :: 1 <= q <= |s| ==> NoStoreBefore(s, q) == NoStoreBefore(s[1..], q - 1)
  {
    forall q | 1 <= q <= |s| ensures NoStoreBefore(s, q) == NoStoreBefore(s[1..], q - 1) {
      if NoStoreBefore(s[1..], q - 1) {
        forall q' | 0 <= q' < q ensures !s[q'].op.Store? {
          if q' > 0 {
            assert s[q'] == s[1..][q' - 1];
          }
        }
      }
      if NoStoreBefore(s, q) {
        forall q' | 0 <= q' < q - 1 ensures !s[1..][q'].op.Store? {
          assert s[1..][q'] == s[q' + 1];
        }
      }
    }
  }

  lemma RedundantLoadsTail(s: Block, c: Instr)
    requires s != []
    ensures RedundantLoads(s, c)
         == if SameLoad(s[0], c) then {s[0].id} + RedundantLoads(s[1..], c)
            else if s[0].op.Store? then {}
            else RedundantLoads(s[1..], c)
  {
  }

  /** Whether a load repeats `c` does not change when uses are redirected
      away from `c`'s operands. */
  lemma {:induction false} RedundantLoadsRedirect(s: Block, c: Instr, gone: set<nat>, r: Value)
    requires Avoids(c, gone, r)
    ensures RedundantLoads(RedirectBlock(s, gone, r), c) == RedundantLoads(s, c)
  {
    if s != [] {
      RedirectBlockTail(s, gone, r);
      RedundantLoadsRedirect(s[1..], c, gone, r);
      var t := RedirectBlock(s, gone, r);
      assert t[1..] == RedirectBlock(s[1..], gone, r);
      var y := RedirectInstr(s[0], gone, r);
      assert t[0] == y;
      if |c.operands| > 0 && |s[0].operands| > 0 {
        assert y.operands[0] == Redirect(s[0].operands[0], gone, r);
      }
      assert SameLoad(y, c) == SameLoad(s[0], c);
      RedundantLoadsTail(s, c);
      RedundantLoadsTail(t, c);
    }
  }

  lemma LoadFoldKeepsWF(bs: seq<Block>, kids: seq<seq<nat>>, b: nat, p: nat, j: nat)
    requires WF(bs, kids) && b < |bs| && p < j < |bs[b]| && bs[b][p].op.Load?
    requires SameLoad(bs[b][j], bs[b][p])
    ensures var bs1 := Fold(bs, b, j, Ref(bs[b][p]));
      && WF(bs1, kids) && Retained(bs, bs1) && TerminatorsKept(bs, bs1)
      && p < |bs1[b]| && bs1[b][p].op.Load?
  {
    var r := Ref(bs[b][p]);
    assert bs[b][j].id > bs[b][p].id;
    FoldIntoCandidateOk(bs, kids, b, p, b, j);
    FoldKeepsWF(bs, kids, b, j, r);
    FoldAt(bs, b, j, r, b, p);
  }

  /** The load scan keeps the function well formed, creates no instruction
      and never loses a terminator (`LoadFromCollapses` says exactly what it
      loses). */
  lemma {:induction false} LoadFromKeepsWF(bs: seq<Block>, kids: seq<seq<nat>>, b: nat, p: nat, j: nat)
    requires WF(bs, kids) && b < |bs| && p < j <= |bs[b]| && bs[b][p].op.Load?
    ensures WF(LoadFrom(bs, b, p, j), kids)
    ensures Retained(bs, LoadFrom(bs, b, p, j))
    ensures TerminatorsKept(bs, LoadFrom(bs, b, p, j))
    decreases |bs[b]| - j
  {
    if j == |bs[b]| {
    } else if SameLoad(bs[b][j], bs[b][p]) {
      var bs1: seq<Block> := Fold(bs, b, j, Ref(bs[b][p]));
      LoadFoldKeepsWF(bs, kids, b, p, j);
      LoadFromKeepsWF(bs1, kids, b, p, j);
      RetainedTrans(bs, bs1, LoadFrom(bs1, b, p, j));
      TerminatorsKeptTrans(bs, bs1, LoadFrom(bs1, b, p, j));
    } else if bs[b][j].op.Store? {
    } else {
      LoadFromKeepsWF(bs, kids, b, p, j + 1);
    }
  }

  /** The load scan from position `j` leaves everything before `j`, the
      candidate among them, and every other block in place. */
  lemma {:induction false} LoadFromSameBefore(bs: seq<Block>, b: nat, p: nat, j: nat)
    requires b < |bs| && p < j <= |bs[b]|
    ensures SameBefore(bs, LoadFrom(bs, b, p, j), b, j)
    decreases |bs[b]| - j
  {
    if j == |bs[b]| {
    } else if SameLoad(bs[b][j], bs[b][p]) {
      var bs1: seq<Block> := Fold(bs, b, j, Ref(bs[b][p]));
      FoldSameBefore(bs, b, j, Ref(bs[b][p]));
      LoadFromSameBefore(bs1, b, p, j);
      SameBeforeTrans(bs, bs1, LoadFrom(bs1, b, p, j), b, j);
    } else if !bs[b][j].op.Store? {
      LoadFromSameBefore(bs, b, p, j + 1);
      SameBeforeLess(bs, LoadFrom(bs, b, p, j + 1), b, j, j + 1);
    }
  }

  lemma LoadFoldStep(bs: seq<Block>, b: nat, p: nat, j: nat)
    requires ScanReady(bs, b, p, b, j) && j < |bs[b]|
    requires SameLoad(bs[b][j], bs[b][p])
    requires var bs1 := Fold(bs, b, j, Ref(bs[b][p]));
      && LoadFrom(bs1, b, p, j) == Collapse(bs1, RedundantLoads(bs1[b][j..], bs1[b][p]), Ref(bs1[b][p]))
      && LoadFrom(bs1, b, p, j)[b][p] == bs1[b][p]
    ensures LoadFrom(bs, b, p, j) == Collapse(bs, RedundantLoads(bs[b][j..], bs[b][p]), Ref(bs[b][p]))
    ensures LoadFrom(bs, b, p, j)[b][p] == bs[b][p]
  {
    var c := bs[b][p];
    var r := Ref(c);
    var s := bs[b];
    var x := s[j];
    var bs1: seq<Block> := Fold(bs, b, j, r);
    assert LoadFrom(bs, b, p, j) == LoadFrom(bs1, b, p, j);
    FoldIntoCandidate(bs, b, p, b, j);
    var d' := RedundantLoads(s[j + 1..], c);
    RedundantLoadsRedirect(s[j + 1..], c, {x.id}, r);
    assert RedundantLoads(bs1[b][j..], c) == d';
    CollapseCompose(bs, {x.id}, d', r);
    assert s[j..][1..] == s[j + 1..];
    RedundantLoadsTail(s[j..], c);
    assert RedundantLoads(s[j..], c) == {x.id} + d';
  }

  /** The load scan is one collapse: exactly the non-volatile loads of the
      same address and type before the first store disappear and their uses
      now name the candidate; the store and everything else stays in order. */
  lemma {:induction false} LoadFromCollapses(bs: seq<Block>, b: nat, p: nat, j: nat)
    requires ScanReady(bs, b, p, b, j) && p < j <= |bs[b]|
    ensures LoadFrom(bs, b, p, j) == Collapse(bs, RedundantLoads(bs[b][j..], bs[b][p]), Ref(bs[b][p]))
    ensures LoadFrom(bs, b, p, j)[b][p] == bs[b][p]
    decreases |bs[b]| - j, 1
  {
    if j == |bs[b]| {
      assert bs[b][j..] == [];
      CollapseNothing(bs, Ref(bs[b][p]));
    } else if SameLoad(bs[b][j], bs[b][p]) {
      LoadFoldCollapses(bs, b, p, j);
    } else if bs[b][j].op.Store? {
      LoadStopCollapses(bs, b, p, j);
    } else {
      LoadSkipCollapses(bs, b, p, j);
    }
  }

  lemma {:induction false} LoadFoldCollapses(bs: seq<Block>, b: nat, p: nat, j: nat)
    requires ScanReady(bs, b, p, b, j) && p < j < |bs[b]|
    requires SameLoad(bs[b][j], bs[b][p])
    ensures LoadFrom(bs, b, p, j) == Collapse(bs, RedundantLoads(bs[b][j..], bs[b][p]), Ref(bs[b][p]))
    ensures LoadFrom(bs, b, p, j)[b][p] == bs[b][p]
    decreases |bs[b]| - j, 0
  {
    FoldKeepsReady(bs, b, p, b, j);
    LoadFromCollapses(Fold(bs, b, j, Ref(bs[b][p])), b, p, j);
    LoadFoldStep(bs, b, p, j);
  }

  lemma LoadStopCollapses(bs: seq<Block>, b: nat, p: nat, j: nat)
    requires b < |bs| && p < j < |bs[b]|
    requires !SameLoad(bs[b][j], bs[b][p]) && bs[b][j].op.Store?
    ensures LoadFrom(bs, b, p, j) == Collapse(bs, RedundantLoads(bs[b][j..], bs[b][p]), Ref(bs[b][p]))
    ensures LoadFrom(bs, b, p, j)[b][p] == bs[b][p]
  {
    RedundantLoadsTail(bs[b][j..], bs[b][p]);
    CollapseNothing(bs, Ref(bs[b][p]));
  }

  lemma {:induction false} LoadSkipCollapses(bs: seq<Block>, b: nat, p: nat, j: nat)
    requires ScanReady(bs, b, p, b, j) && p < j < |bs[b]|
    requires !SameLoad(bs[b][j], bs[b][p]) && !bs[b][j].op.Store?
    ensures LoadFrom(bs, b, p, j) == Collapse(bs, RedundantLoads(bs[b][j..], bs[b][p]), Ref(bs[b][p]))
    ensures LoadFrom(bs, b, p, j)[b][p] == bs[b][p]
    decreases |bs[b]| - j, 0
  {
    LoadFromCollapses(bs, b, p, j + 1);
    LoadSkipStep(bs, b, p, j);
  }

  lemma LoadSkipStep(bs: seq<Block>, b: nat, p: nat, j: nat)
    requires b < |bs| && p < j < |bs[b]|
    requires !SameLoad(bs[b][j], bs[b][p]) && !bs[b][j].op.Store?
    requires LoadFrom(bs, b, p, j + 1) == Collapse(bs, RedundantLoads(bs[b][j + 1..], bs[b][p]), Ref(bs[b][p]))
    requires LoadFrom(bs, b, p, j + 1)[b][p] == bs[b][p]
    ensures LoadFrom(bs, b, p, j) == Collapse(bs, RedundantLoads(bs[b][j..], bs[b][p]), Ref(bs[b][p]))
    ensures LoadFrom(bs, b, p, j)[b][p] == bs[b][p]
  {
    assert bs[b][j..][1..] == bs[b][j + 1..];
    RedundantLoadsTail(bs[b][j..], bs[b][p]);
    assert LoadFrom(bs, b, p, j) == LoadFrom(bs, b, p, j + 1);
  }

  /** What `eliminateLoad` is proved to do: the scan keeps the function well
      formed, loses nothing but the folded loads, and is one collapse onto
      the candidate. */
  lemma LoadScanSound(bs: seq<Block>, kids: seq<seq<nat>>, b: nat, p: nat)
    requires WF(bs, kids) && b < |bs| && p < |bs[b]| && bs[b][p].op.Load?
    ensures WF(LoadFrom(bs, b, p, p + 1), kids)
    ensures Retained(bs, LoadFrom(bs, b, p, p + 1)) && TerminatorsKept(bs, LoadFrom(bs, b, p, p + 1))
    ensures LoadFrom(bs, b, p, p + 1) == Collapse(bs, RedundantLoads(bs[b][p + 1..], bs[b][p]), Ref(bs[b][p]))
  {
    LoadFromKeepsWF(bs, kids, b, p, p + 1);
    ScanReadyFromWF(bs, kids, b, p);
    LoadFromCollapses(bs, b, p, p + 1);
  }

  // ---------------------------------------------------------------------
  // Store forwarding and dead stores

  /** `y` is a non-volatile load of the address that store `st` writes, of
      the stored value's type: it reads back the stored value. */
  predicate ForwardsTo(y: Instr, st: Instr) {
    && y.op.Load? && !y.isVolatile
    && |y.operands| > 0 && |st.operands| > 1
    && y.operands[0] == st.operands[1] && y.ty == st.operands[0].ty
  }

  /** `y` is a store to the address of the non-volatile store `st`, of a
      value of the same type: it overwrites what `st` wrote. */
  predicate Overwrites(y: Instr, st: Instr) {
    && y.op.Store? && !st.isVolatile
    && |y.operands| > 1 && |st.operands| > 1
    && y.operands[1] == st.operands[1] && y.operands[0].ty == st.operands[0].ty
  }

  /** What ends the scan after a store: any load or store, a call, or an
      instruction that may have side effects. */
  predicate Barrier(y: Instr) {
    y.op.Load? || y.op.Store? || y.op.Call? || y.sideEffects
  }

  /** Scan the block of store (b, p) from position `j`. A load reading back
      the stored value is folded into that value and the scan goes on; a
      store overwriting the candidate erases the candidate and ends the scan
      with `true`; any other barrier ends it with `false`. */
  ghost function StoreFrom(bs: seq<Block>, b: nat, p: nat, j: nat): (r: (seq<Block>, bool))
    requires b < |bs| && p < j <= |bs[b]|
    ensures |r.0| == |bs| && |r.0[b]| <= |bs[b]|
    ensures forall k :: 0 <= k < |bs| && k != b ==> |r.0[k]| == |bs[k]|
    ensures if r.1 then p <= |r.0[b]| < |bs[b]| else p < |r.0[b]| && Skel(r.0[b][p]) == Skel(bs[b][p])
    decreases |bs[b]| - j
  {
    if j == |bs[b]| then (bs, false)
    else if ForwardsTo(bs[b][j], bs[b][p]) then
      FoldAt(bs, b, j, bs[b][p].operands[0], b, p);
      StoreFrom(Fold(bs, b, j, bs[b][p].operands[0]), b, p, j)
    else if Overwrites(bs[b][j], bs[b][p]) then (EraseAt(bs, b, p), true)
    else if Barrier(bs[b][j]) then (bs, false)
    else StoreFrom(bs, b, p, j + 1)
  }

  /** The scan after store `st` reaches position `q` of `s`: everything
      before `q` is a forwarded load or neither a dead-store match nor a
      barrier. */
  predicate Reaches(s: Block, st: Instr, q: nat)
    requires q <= |s|
  {
    forall q' :: 0 <= q' < q ==> ForwardsTo(s[q'], st) || (!Overwrites(s[q'], st) && !Barrier(s[q']))
  }

  /** The loads of `s` that store `st` forwards to, and whether a later store
      makes `st` dead. */
  function Forwarded(s: Block, st: Instr): (f: (set<nat>, bool))
  {
    if s == [] then ({}, false)
    else if ForwardsTo(s[0], st) then
      var t := Forwarded(s[1..], st);
      ({s[0].id} + t.0, t.1)
    else if Overwrites(s[0], st) then ({}, true)
    else if Barrier(s[0]) then ({}, false)
    else Forwarded(s[1..], st)
  }

  /** `Forwarded` holds exactly the loads the scan reaches that read back
      the stored value, and flags the store dead exactly when the scan
      reaches a store that overwrites it. */
  lemma {:induction false} ForwardedMembers(s: Block, st: Instr)
    ensures forall q :: 0 <= q < |s| && ForwardsTo(s[q], st) && Reaches(s, st, q) ==> s[q].id in Forwarded(s, st).0
    ensures forall id :: id in Forwarded(s, st).0 ==>
              exists q :: 0 <= q < |s| && s[q].id == id && ForwardsTo(s[q], st) && Reaches(s, st, q)
    ensures Forwarded(s, st).1 <==> exists q :: 0 <= q < |s| && Overwrites(s[q], st) && Reaches(s, st, q)
  {
    if s == [] {
    } else if ForwardsTo(s[0], st) || (!Overwrites(s[0], st) && !Barrier(s[0])) {
      var f := Forwarded(s, st);
      var f' := Forwarded(s[1..], st);
      assert f.0 == (if ForwardsTo(s[0], st) then {s[0].id} else {}) + f'.0 && f.1 == f'.1;
      ForwardedMembers(s[1..], st);
      ReachesShift(s, st);
      forall q | 1 <= q < |s| && ForwardsTo(s[q], st) && Reaches(s, st, q) ensures s[q].id in f.0 {
        assert s[q] == s[1..][q - 1];
      }
      forall id | id in f'.0
        ensures exists q :: 0 <= q < |s| && s[q].id == id && ForwardsTo(s[q], st) && Reaches(s, st, q)
      {
        var q1 :| 0 <= q1 < |s| - 1 && s[1..][q1].id == id && ForwardsTo(s[1..][q1], st) && Reaches(s[1..], st, q1);
        assert s[q1 + 1] == s[1..][q1];
      }
      if f.1 {
        var q1 :| 0 <= q1 < |s| - 1 && Overwrites(s[1..][q1], st) && Reaches(s[1..], st, q1);
        assert s[q1 + 1] == s[1..][q1];
      }
      if exists q :: 0 <= q < |s| && Overwrites(s[q], st) && Reaches(s, st, q) {
        var q :| 0 <= q < |s| && Overwrites(s[q], st) && Reaches(s, st, q);
        assert q != 0;
        assert s[q] == s[1..][q - 1];
      }
    } else {
      assert Reaches(s, st, 0);
      forall q | 0 < q < |s| ensures !Reaches(s, st, q) {
        assert !(ForwardsTo(s[0], st) || (!Overwrites(s[0], st) && !Barrier(s[0])));
      }
    }
  }

  lemma ReachesShift(s: Block, st: Instr)
    requires s != [] && (ForwardsTo(s[0], st) || (!Overwrites(s[0], st) && !Barrier(s[0])))
    ensures forall q :: 1 <= q <= |s| ==> Reaches(s, st, q) == Reaches(s[1..], st, q - 1)
  {
    forall q | 1 <= q <= |s| ensures Reaches(s, st, q) == Reaches(s[1..], st, q - 1) {
      if Reaches(s[1..], st, q - 1) {
        forall q' | 0 <= q' < q
          ensures ForwardsTo(s[q'], st) || (!Overwrites(s[q'], st) && !Barrier(s[q']))
        {
          if q' > 0 {
            assert s[q'] == s[1..][q' - 1];
          }
        }
      }
      if Reaches(s, st, q) {
        forall q' | 0 <= q' < q - 1
          ensures ForwardsTo(s[1..][q'], st) || (!Overwrites(s[1..][q'], st) && !Barrier(s[1..][q']))
        {
          assert s[1..][q'] == s[q' + 1];
        }
      }
    }
  }

  lemma ForwardedTail(s: Block, st: Instr)
    requires s != []
    ensures Forwarded(s, st)
         == if ForwardsTo(s[0], st) then ({s[0].id} + Forwarded(s[1..], st).0, Forwarded(s[1..], st).1)
            else if Overwrites(s[0], st) then ({}, true)
            else if Barrier(s[0]) then ({}, false)
            else Forwarded(s[1..], st)
  {
  }

  /** Every operand of `s` that names one of `gone` has the type of `r`. */
  ghost predicate TypedUses(s: Block, gone: set<nat>, r: Value) {
    forall q, k :: 0 <= q < |s| && 0 <= k < |s[q].operands| && NamesOneOf(s[q].operands[k], gone)
      ==> s[q].operands[k].ty == r.ty
  }

  /** The address of `st` is neither redirected nor the replacement. */
  predicate AddressAvoids(st: Instr, gone: set<nat>, r: Value) {
    |st.operands| > 1 ==> !NamesOneOf(st.operands[1], gone) && st.operands[1] != r
  }

  lemma StoreTestsUnderRedirect(y: Instr, st: Instr, gone: set<nat>, r: Value)
    requires AddressAvoids(st, gone, r)
    requires forall k :: 0 <= k < |y.operands| && NamesOneOf(y.operands[k], gone) ==> y.operands[k].ty == r.ty
    ensures ForwardsTo(RedirectInstr(y, gone, r), st) == ForwardsTo(y, st)
    ensures Overwrites(RedirectInstr(y, gone, r), st) == Overwrites(y, st)
    ensures Barrier(RedirectInstr(y, gone, r)) == Barrier(y)
  {
    var y' := RedirectInstr(y, gone, r);
    if |y.operands| > 0 {
      assert y'.operands[0] == Redirect(y.operands[0], gone, r);
    }
    if |y.operands| > 1 {
      assert y'.operands[1] == Redirect(y.operands[1], gone, r);
    }
  }

  lemma {:induction false} ForwardedRedirect(s: Block, st: Instr, gone: set<nat>, r: Value)
    requires AddressAvoids(st, gone, r) && TypedUses(s, gone, r)
    ensures Forwarded(RedirectBlock(s, gone, r), st) == Forwarded(s, st)
  {
    if s != [] {
      RedirectBlockTail(s, gone, r);
      var t := RedirectBlock(s, gone, r);
      assert t[1..] == RedirectBlock(s[1..], gone, r);
      assert TypedUses(s[1..], gone, r) by {
        forall q, k | 0 <= q < |s[1..]| && 0 <= k < |s[1..][q].operands| && NamesOneOf(s[1..][q].operands[k], gone)
          ensures s[1..][q].operands[k].ty == r.ty
        {
          assert s[1..][q] == s[q + 1];
        }
      }
      ForwardedRedirect(s[1..], st, gone, r);
      StoreTestsUnderRedirect(s[0], st, gone, r);
      assert t[0] == RedirectInstr(s[0], gone, r);
      ForwardedTail(s, st);
      ForwardedTail(t, st);
    }
  }

  /** The stored value may replace a load that reads it back: it has the
      load's type and, if it is an instruction, it comes before the store. */
  lemma StoredValueOk(bs: seq<Block>, kids: seq<seq<nat>>, b: nat, p: nat, j: nat)
    requires WF(bs, kids) && b < |bs| && p < j < |bs[b]| && bs[b][p].op.Store?
    requires ForwardsTo(bs[b][j], bs[b][p])
    ensures ReplacementOk(bs, bs[b][j], bs[b][p].operands[0])
    ensures forall k :: 0 <= k < |bs[b][p].operands| && bs[b][p].operands[k].InstRef?
              ==> bs[b][p].operands[k].id < bs[b][j].id
  {
    var st := bs[b][p];
    var v := st.operands[0];
    assert bs[b][j].id > st.id;
    assert LocalOk(st);
    assert v.InstRef? ==> DefinedAs(bs, v.id, v.ty);
  }

  /** Forwarding one load of the scan after store (b, p) keeps the function
      well formed and the store in place. */
  lemma StoreFold(bs: seq<Block>, kids: seq<seq<nat>>, b: nat, p: nat, j: nat)
    requires WF(bs, kids) && b < |bs| && p < j < |bs[b]| && bs[b][p].op.Store?
    requires ForwardsTo(bs[b][j], bs[b][p])
    ensures var bs1 := Fold(bs, b, j, bs[b][p].operands[0]);
      && WF(bs1, kids) && Retained(bs, bs1) && TerminatorsKept(bs, bs1)
      && p < |bs1[b]| && bs1[b][p].op.Store?
  {
    var v := bs[b][p].operands[0];
    StoredValueOk(bs, kids, b, p, j);
    FoldKeepsWF(bs, kids, b, j, v);
    FoldAt(bs, b, j, v, b, p);
  }

  /** The store scan keeps the function well formed, creates no instruction
      and never loses a terminator (`StoreFromLoses` says what it can
      lose). */
  lemma {:induction false} StoreFromKeepsWF(bs: seq<Block>, kids: seq<seq<nat>>, b: nat, p: nat, j: nat)
    requires WF(bs, kids) && b < |bs| && p < j <= |bs[b]| && bs[b][p].op.Store?
    ensures WF(StoreFrom(bs, b, p, j).0, kids)
    ensures Retained(bs, StoreFrom(bs, b, p, j).0)
    ensures TerminatorsKept(bs, StoreFrom(bs, b, p, j).0)
    decreases |bs[b]| - j
  {
    if j == |bs[b]| {
    } else if ForwardsTo(bs[b][j], bs[b][p]) {
      var bs1: seq<Block> := Fold(bs, b, j, bs[b][p].operands[0]);
      StoreFold(bs, kids, b, p, j);
      StoreFromKeepsWF(bs1, kids, b, p, j);
      RetainedTrans(bs, bs1, StoreFrom(bs1, b, p, j).0);
      TerminatorsKeptTrans(bs, bs1, StoreFrom(bs1, b, p, j).0);
    } else if Overwrites(bs[b][j], bs[b][p]) {
      StoreIsUnused(bs, kids, b, p);
      EraseUnusedKeepsWF(bs, kids, b, p);
    } else if Barrier(bs[b][j]) {
    } else {
      StoreFromKeepsWF(bs, kids, b, p, j + 1);
    }
  }

  /** `y` is a non-volatile load of the type of the value store `st` writes:
      what the scan after `st` may fold, whatever its address. */
  predicate LoadOfStoredType(y: Instr, st: Instr) {
    y.op.Load? && !y.isVolatile && |st.operands| > 0 && y.ty == st.operands[0].ty
  }

  /** Every instruction of `bs` that `cs` no longer holds was in block `b`
      and was either store `st` or a load of the type it stores. */
  ghost predicate LostOnlyForwarded(bs: seq<Block>, cs: seq<Block>, b: nat, st: Instr) {
    |cs| == |bs|
    && forall k, q :: 0 <= k < |bs| && 0 <= q < |bs[k]| && Skel(bs[k][q]) !in Skels(cs[k])
         ==> k == b && (Skel(bs[k][q]) == Skel(st) || LoadOfStoredType(bs[k][q], st))
  }

  /** The scan after store (b, p) leaves everything before the store, and
      every other block, in place; it loses only the store and loads of the
      stored type; and when it reports the store dead (and ids are unique)
      the store is gone. */
  lemma {:induction false} StoreFromLoses(bs: seq<Block>, b: nat, p: nat, j: nat)
    requires b < |bs| && p < j <= |bs[b]|
    ensures SameBefore(bs, StoreFrom(bs, b, p, j).0, b, p)
    ensures LostOnlyForwarded(bs, StoreFrom(bs, b, p, j).0, b, bs[b][p])
    ensures UniqueIds(bs) && StoreFrom(bs, b, p, j).1 ==> Skel(bs[b][p]) !in Skels(StoreFrom(bs, b, p, j).0[b])
    decreases |bs[b]| - j, 1
  {
    if j == |bs[b]| || (!ForwardsTo(bs[b][j], bs[b][p]) && !Overwrites(bs[b][j], bs[b][p]) && Barrier(bs[b][j])) {
      StoreStopLoses(bs, b, p, j);
    } else if ForwardsTo(bs[b][j], bs[b][p]) {
      StoreFoldLoses(bs, b, p, j);
    } else if Overwrites(bs[b][j], bs[b][p]) {
      StoreEraseLoses(bs, b, p, j);
    } else {
      StoreSkipLoses(bs, b, p, j);
    }
  }

  /** `StoreFromLoses` when the scan stops with the store live. */
  lemma StoreStopLoses(bs: seq<Block>, b: nat, p: nat, j: nat)
    requires b < |bs| && p < j <= |bs[b]|
    requires j == |bs[b]| || (!ForwardsTo(bs[b][j], bs[b][p]) && !Overwrites(bs[b][j], bs[b][p]) && Barrier(bs[b][j]))
    ensures SameBefore(bs, StoreFrom(bs, b, p, j).0, b, p)
    ensures LostOnlyForwarded(bs, StoreFrom(bs, b, p, j).0, b, bs[b][p])
    ensures !StoreFrom(bs, b, p, j).1
  {
    assert StoreFrom(bs, b, p, j) == (bs, false);
    SameBeforeLess(bs, bs, b, p, |bs[b]|);
  }

  /** `StoreFromLoses` when the store is overwritten: it is erased. */
  lemma StoreEraseLoses(bs: seq<Block>, b: nat, p: nat, j: nat)
    requires b < |bs| && p < j < |bs[b]|
    requires !ForwardsTo(bs[b][j], bs[b][p]) && Overwrites(bs[b][j], bs[b][p])
    ensures SameBefore(bs, StoreFrom(bs, b, p, j).0, b, p)
    ensures LostOnlyForwarded(bs, StoreFrom(bs, b, p, j).0, b, bs[b][p])
    ensures UniqueIds(bs) ==> Skel(bs[b][p]) !in Skels(StoreFrom(bs, b, p, j).0[b])
  {
    assert StoreFrom(bs, b, p, j) == (EraseAt(bs, b, p), true);
    EraseSameBefore(bs, b, p);
    EraseLoses(bs, b, p);
  }

  /** `StoreFromLoses` when the instruction at `j` is passed over. */
  lemma {:induction false} StoreSkipLoses(bs: seq<Block>, b: nat, p: nat, j: nat)
    requires b < |bs| && p < j < |bs[b]|
    requires !ForwardsTo(bs[b][j], bs[b][p]) && !Overwrites(bs[b][j], bs[b][p]) && !Barrier(bs[b][j])
    ensures SameBefore(bs, StoreFrom(bs, b, p, j).0, b, p)
    ensures LostOnlyForwarded(bs, StoreFrom(bs, b, p, j).0, b, bs[b][p])
    ensures UniqueIds(bs) && StoreFrom(bs, b, p, j).1 ==> Skel(bs[b][p]) !in Skels(StoreFrom(bs, b, p, j).0[b])
    decreases |bs[b]| - j, 0
  {
    assert StoreFrom(bs, b, p, j) == StoreFrom(bs, b, p, j + 1);
    StoreFromLoses(bs, b, p, j + 1);
  }

  lemma LostOnlyForwardedTrans(a: seq<Block>, bb: seq<Block>, c: seq<Block>, b: nat, st1: Instr, st2: Instr)
    requires LostOnlyForwarded(a, bb, b, st1) && LostOnlyForwarded(bb, c, b, st2) && Skel(st1) == Skel(st2)
    requires |st1.operands| > 0 && |st2.operands| > 0 && st1.operands[0] == st2.operands[0]
    ensures LostOnlyForwarded(a, c, b, st1)
  {
    forall k, q | 0 <= k < |a| && 0 <= q < |a[k]| && Skel(a[k][q]) !in Skels(c[k])
      ensures k == b && (Skel(a[k][q]) == Skel(st1) || LoadOfStoredType(a[k][q], st1))
    {
      if Skel(a[k][q]) in Skels(bb[k]) {
        var z :| z in bb[k] && Skel(z) == Skel(a[k][q]);
        var q' :| 0 <= q' < |bb[k]| && bb[k][q'] == z;
        assert Skel(z).op == z.op && Skel(z).ty == z.ty && Skel(z).isVolatile == z.isVolatile;
      }
    }
  }

  /** `StoreFromLoses` when the instruction at `j` is a forwarded load. */
  lemma {:induction false} StoreFoldLoses(bs: seq<Block>, b: nat, p: nat, j: nat)
    requires b < |bs| && p < j < |bs[b]| && ForwardsTo(bs[b][j], bs[b][p])
    ensures SameBefore(bs, StoreFrom(bs, b, p, j).0, b, p)
    ensures LostOnlyForwarded(bs, StoreFrom(bs, b, p, j).0, b, bs[b][p])
    ensures UniqueIds(bs) && StoreFrom(bs, b, p, j).1 ==> Skel(bs[b][p]) !in Skels(StoreFrom(bs, b, p, j).0[b])
    decreases |bs[b]| - j, 0
  {
    var v := bs[b][p].operands[0];
    var bs1: seq<Block> := Fold(bs, b, j, v);
    var r := StoreFrom(bs1, b, p, j).0;
    assert StoreFrom(bs, b, p, j) == StoreFrom(bs1, b, p, j);
    FoldAt(bs, b, j, v, b, p);
    assert bs1[b][p].operands[0] == v;
    FoldSameBefore(bs, b, j, v);
    SameBeforeLess(bs, bs1, b, p, j);
    FoldLoses(bs, b, j, v);
    assert LostOnlyForwarded(bs, bs1, b, bs[b][p]);
    if UniqueIds(bs) {
      FoldKeepsUnique(bs, b, j, v);
    }
    StoreFromLoses(bs1, b, p, j);
    SameBeforeTrans(bs, bs1, r, b, p);
    LostOnlyForwardedTrans(bs, bs1, r, b, bs[b][p], bs1[b][p]);
  }

  /** What `eliminateStore` is proved to do: the scan keeps the function
      well formed, creates no instruction and loses nothing but loads of
      the stored type and perhaps the candidate, which is gone exactly when
      the flag is set; when the store does not write its own address, the
      scan is one collapse onto the stored value. */
  lemma StoreScanSound(bs: seq<Block>, kids: seq<seq<nat>>, b: nat, p: nat)
    requires WF(bs, kids) && b < |bs| && p < |bs[b]| && bs[b][p].op.Store?
    ensures WF(StoreFrom(bs, b, p, p + 1).0, kids)
    ensures Retained(bs, StoreFrom(bs, b, p, p + 1).0) && TerminatorsKept(bs, StoreFrom(bs, b, p, p + 1).0)
    ensures LostOnlyForwarded(bs, StoreFrom(bs, b, p, p + 1).0, b, bs[b][p])
    ensures StoreFrom(bs, b, p, p + 1).1 <==> Skel(bs[b][p]) !in Skels(StoreFrom(bs, b, p, p + 1).0[b])
    ensures !StoresOwnAddress(bs[b][p]) ==> StoreScanIs(bs, b, p, p + 1, StoreFrom(bs, b, p, p + 1))
  {
    StoreFromKeepsWF(bs, kids, b, p, p + 1);
    StoreFromLoses(bs, b, p, p + 1);
    if !StoresOwnAddress(bs[b][p]) {
      StoreReadyFromWF(bs, kids, b, p);
      StoreFromCollapses(bs, b, p, p + 1);
    }
  }

  /** `store %p, %p`: the store writes its own address. */
  predicate StoresOwnAddress(st: Instr) {
    |st.operands| > 1 && st.operands[0] == st.operands[1]
  }

  /** Every operand of `s` that names an instruction of `s` has that
      instruction's type. */
  ghost predicate RefsTyped(s: Block) {
    forall q, q2, i :: 0 <= q < |s| && 0 <= q2 < |s| && 0 <= i < |s[q].operands|
      && s[q].operands[i].InstRef? && s[q].operands[i].id == s[q2].id
      ==> s[q].operands[i].ty == s[q2].ty
  }

  lemma RefsTypedTail(s: Block)
    requires s != [] && RefsTyped(s)
    ensures RefsTyped(s[1..])
  {
    var t := s[1..];
    forall q, q2, i | 0 <= q < |t| && 0 <= q2 < |t| && 0 <= i < |t[q].operands|
      && t[q].operands[i].InstRef? && t[q].operands[i].id == t[q2].id
      ensures t[q].operands[i].ty == t[q2].ty
    {
      assert t[q] == s[q + 1] && t[q2] == s[q2 + 1];
    }
  }

  /** Redirecting the uses of the first instruction of `s` to a value
      defined before all of `s` keeps the rest of `s` typed. */
  lemma RedirectKeepsRefsTyped(s: Block, v: Value, lo: nat)
    requires s != [] && RefsTyped(s)
    requires forall q :: 0 <= q < |s| ==> s[q].id > lo
    requires v.InstRef? ==> v.id < lo
    ensures RefsTyped(RedirectBlock(s[1..], {s[0].id}, v))
  {
    var u := s[1..];
    var t := RedirectBlock(u, {s[0].id}, v);
    forall q, q2, i | 0 <= q < |t| && 0 <= q2 < |t| && 0 <= i < |t[q].operands|
      && t[q].operands[i].InstRef? && t[q].operands[i].id == t[q2].id
      ensures t[q].operands[i].ty == t[q2].ty
    {
      var o := u[q].operands[i];
      assert t[q].operands[i] == Redirect(o, {s[0].id}, v);
      assert u[q] == s[q + 1] && u[q2] == s[q2 + 1];
      assert t[q2].id == u[q2].id > lo;
    }
  }

  /** What the closed form of the scan after store (b, p) from position `j`
      needs. */
  ghost predicate StoreReady(bs: seq<Block>, b: nat, p: nat, j: nat) {
    && b < |bs| && p < j <= |bs[b]| && UniqueIds(bs)
    && bs[b][p].op.Store? && LocalOk(bs[b][p]) && !StoresOwnAddress(bs[b][p])
    && (forall q :: j <= q < |bs[b]| ==> bs[b][q].id > bs[b][p].id)
    && RefsTyped(bs[b][j..])
  }

  /** In a well-formed function every operand naming an instruction has that
      instruction's type, so a store is ready for its scan. */
  lemma StoreReadyFromWF(bs: seq<Block>, kids: seq<seq<nat>>, b: nat, p: nat)
    requires WF(bs, kids) && b < |bs| && p < |bs[b]| && bs[b][p].op.Store?
    requires !StoresOwnAddress(bs[b][p])
    ensures StoreReady(bs, b, p, p + 1)
  {
    var s := bs[b][p + 1..];
    forall q, q2, i | 0 <= q < |s| && 0 <= q2 < |s| && 0 <= i < |s[q].operands|
      && s[q].operands[i].InstRef? && s[q].operands[i].id == s[q2].id
      ensures s[q].operands[i].ty == s[q2].ty
    {
      assert s[q] == bs[b][q + p + 1] && s[q2] == bs[b][q2 + p + 1];
      var v := s[q].operands[i];
      assert DefinedAs(bs, v.id, v.ty);
      var b': nat, p': nat :| 0 <= b' < |bs| && 0 <= p' < |bs[b']|
        && bs[b'][p'].id == v.id && bs[b'][p'].ty == v.ty && !bs[b'][p'].op.Store?;
      assert b' == b && p' == q2 + p + 1;
    }
  }

  /** Forwarding one load of the scan after store (b, p) is the collapse of
      that load and leaves the rest of the scan ready. */
  lemma StoreFoldReady(bs: seq<Block>, b: nat, p: nat, j: nat)
    requires StoreReady(bs, b, p, j) && j < |bs[b]|
    requires ForwardsTo(bs[b][j], bs[b][p])
    ensures var bs1 := Fold(bs, b, j, bs[b][p].operands[0]);
      && bs1 == Collapse(bs, {bs[b][j].id}, bs[b][p].operands[0])
      && p < |bs1[b]| && bs1[b][p] == bs[b][p]
      && bs1[b][j..] == RedirectBlock(bs[b][j + 1..], {bs[b][j].id}, bs[b][p].operands[0])
      && StoreReady(bs1, b, p, j)
  {
    var st := bs[b][p];
    var v := st.operands[0];
    var s := bs[b];
    var y := s[j];
    FoldIsCollapse(bs, b, j, v);
    FoldKeepsUnique(bs, b, j, v);
    var bs1: seq<Block> := Fold(bs, b, j, v);
    FoldAt(bs, b, j, v, b, p);
    RedirectInstrNoop(st, {y.id}, v);
    forall q | j <= q < |bs1[b]| ensures bs1[b][q] == RedirectInstr(s[q + 1], {y.id}, v) {
      FoldAt(bs, b, j, v, b, q);
    }
    assert bs1[b][j..] == RedirectBlock(s[j + 1..], {y.id}, v);
    assert s[j..][1..] == s[j + 1..];
    RedirectKeepsRefsTyped(s[j..], v, st.id);
  }

  /** The closed form of the store scan from position `j`. */
  ghost predicate StoreScanIs(bs: seq<Block>, b: nat, p: nat, j: nat, out: (seq<Block>, bool))
    requires b < |bs| && p < j <= |bs[b]| && |bs[b][p].operands| > 0
  {
    var st := bs[b][p];
    var f := Forwarded(bs[b][j..], st);
    var cs := Collapse(bs, f.0, st.operands[0]);
    && p < |cs[b]| && cs[b][p] == st
    && out == (if f.1 then EraseAt(cs, b, p) else cs, f.1)
  }

  /** Forwarding the first instruction of `s` to the stored value leaves
      the rest of the scan as it was. */
  lemma ForwardedAfterRedirect(s: Block, st: Instr, v: Value)
    requires s != [] && RefsTyped(s)
    requires ForwardsTo(s[0], st) && v == st.operands[0]
    requires AddressAvoids(st, {s[0].id}, v)
    ensures Forwarded(RedirectBlock(s[1..], {s[0].id}, v), st) == Forwarded(s[1..], st)
    ensures Forwarded(s, st) == ({s[0].id} + Forwarded(s[1..], st).0, Forwarded(s[1..], st).1)
  {
    var y := s[0];
    var t := s[1..];
    assert TypedUses(t, {y.id}, v) by {
      forall q, k | 0 <= q < |t| && 0 <= k < |t[q].operands| && NamesOneOf(t[q].operands[k], {y.id})
        ensures t[q].operands[k].ty == v.ty
      {
        assert t[q] == s[q + 1];
      }
    }
    ForwardedRedirect(t, st, {y.id}, v);
    ForwardedTail(s, st);
  }

  /** Forwarding one load leaves the rest of the scan as it was. */
  lemma ForwardedAfterFold(bs: seq<Block>, b: nat, p: nat, j: nat)
    requires StoreReady(bs, b, p, j) && j < |bs[b]|
    requires ForwardsTo(bs[b][j], bs[b][p])
    ensures var bs1 := Fold(bs, b, j, bs[b][p].operands[0]);
      var f' := Forwarded(bs[b][j + 1..], bs[b][p]);
      && j <= |bs1[b]|
      && Forwarded(bs1[b][j..], bs[b][p]) == f'
      && Forwarded(bs[b][j..], bs[b][p]) == ({bs[b][j].id} + f'.0, f'.1)
  {
    var st := bs[b][p];
    var v := st.operands[0];
    var s := bs[b];
    StoreFoldReady(bs, b, p, j);
    assert AddressAvoids(st, {s[j].id}, v);
    assert s[j..][1..] == s[j + 1..];
    ForwardedAfterRedirect(s[j..], st, v);
  }

  lemma StoreFoldStep(bs: seq<Block>, b: nat, p: nat, j: nat)
    requires StoreReady(bs, b, p, j) && j < |bs[b]|
    requires ForwardsTo(bs[b][j], bs[b][p])
    requires var bs1 := Fold(bs, b, j, bs[b][p].operands[0]);
      p < |bs1[b]| && bs1[b][p] == bs[b][p] && StoreScanIs(bs1, b, p, j, StoreFrom(bs1, b, p, j))
    ensures StoreScanIs(bs, b, p, j, StoreFrom(bs, b, p, j))
  {
    var st := bs[b][p];
    var v := st.operands[0];
    var y := bs[b][j];
    StoreFoldReady(bs, b, p, j);
    var bs1: seq<Block> := Fold(bs, b, j, v);
    assert StoreFrom(bs, b, p, j) == StoreFrom(bs1, b, p, j);
    ForwardedAfterFold(bs, b, p, j);
    var f' := Forwarded(bs[b][j + 1..], st);
    CollapseCompose(bs, {y.id}, f'.0, v);
  }

  /** For a store that does not write its own address, the store scan is one
      collapse towards the stored value of exactly the loads `Forwarded`
      lists, followed by the erasure of the candidate when the scan meets a
      store that overwrites it; nothing else changes, and the result flag
      says whether the candidate went. */
  lemma {:induction false} StoreFromCollapses(bs: seq<Block>, b: nat, p: nat, j: nat)
    requires StoreReady(bs, b, p, j)
    ensures |bs[b][p].operands| > 0
    ensures StoreScanIs(bs, b, p, j, StoreFrom(bs, b, p, j))
    decreases |bs[b]| - j, 1
  {
    if j == |bs[b]| {
      assert bs[b][j..] == [];
      CollapseNothing(bs, bs[b][p].operands[0]);
    } else if ForwardsTo(bs[b][j], bs[b][p]) {
      StoreFoldCollapses(bs, b, p, j);
    } else if Overwrites(bs[b][j], bs[b][p]) || Barrier(bs[b][j]) {
      StoreStopStep(bs, b, p, j);
    } else {
      StoreReadyNext(bs, b, p, j);
      StoreSkipCollapses(bs, b, p, j);
    }
  }

  lemma {:induction false} StoreFoldCollapses(bs: seq<Block>, b: nat, p: nat, j: nat)
    requires StoreReady(bs, b, p, j) && j < |bs[b]|
    requires ForwardsTo(bs[b][j], bs[b][p])
    ensures StoreScanIs(bs, b, p, j, StoreFrom(bs, b, p, j))
    decreases |bs[b]| - j, 0
  {
    StoreFoldReady(bs, b, p, j);
    StoreFromCollapses(Fold(bs, b, j, bs[b][p].operands[0]), b, p, j);
    StoreFoldStep(bs, b, p, j);
  }

  lemma {:induction false} StoreSkipCollapses(bs: seq<Block>, b: nat, p: nat, j: nat)
    requires StoreReady(bs, b, p, j + 1) && p < j
    requires !ForwardsTo(bs[b][j], bs[b][p]) && !Overwrites(bs[b][j], bs[b][p]) && !Barrier(bs[b][j])
    ensures StoreScanIs(bs, b, p, j, StoreFrom(bs, b, p, j))
    decreases |bs[b]| - j, 0
  {
    StoreFromCollapses(bs, b, p, j + 1);
    StoreSkipStep(bs, b, p, j);
  }

  lemma StoreReadyNext(bs: seq<Block>, b: nat, p: nat, j: nat)
    requires StoreReady(bs, b, p, j) && j < |bs[b]|
    ensures StoreReady(bs, b, p, j + 1)
  {
    assert bs[b][j..][1..] == bs[b][j + 1..];
    RefsTypedTail(bs[b][j..]);
  }

  lemma StoreStopStep(bs: seq<Block>, b: nat, p: nat, j: nat)
    requires b < |bs| && p < j < |bs[b]| && |bs[b][p].operands| > 1
    requires !ForwardsTo(bs[b][j], bs[b][p]) && (Overwrites(bs[b][j], bs[b][p]) || Barrier(bs[b][j]))
    ensures StoreScanIs(bs, b, p, j, StoreFrom(bs, b, p, j))
  {
    var st := bs[b][p];
    var s := bs[b];
    ForwardedTail(s[j..], st);
    assert s[j..][0] == s[j];
    CollapseNothing(bs, st.operands[0]);
  }

  lemma StoreSkipStep(bs: seq<Block>, b: nat, p: nat, j: nat)
    requires b < |bs| && p < j < |bs[b]| && |bs[b][p].operands| > 1
    requires !ForwardsTo(bs[b][j], bs[b][p]) && !Overwrites(bs[b][j], bs[b][p]) && !Barrier(bs[b][j])
    requires StoreScanIs(bs, b, p, j + 1, StoreFrom(bs, b, p, j + 1))
    ensures StoreScanIs(bs, b, p, j, StoreFrom(bs, b, p, j))
  {
    var st := bs[b][p];
    var s := bs[b];
    ForwardedTail(s[j..], st);
    assert s[j..][0] == s[j];
    assert s[j..][1..] == s[j + 1..];
    assert StoreFrom(bs, b, p, j) == StoreFrom(bs, b, p, j + 1);
  }

  // ---------------------------------------------------------------------
  // Where the memory scans stop

  /** `eliminateLoad` stops at the first store after the candidate: that
      store and everything after it stay in place, whole; only operands that
      named a removed load change, and they now name the candidate. */
  lemma LoadScanStopsAtStore(bs: seq<Block>, kids: seq<seq<nat>>, b: nat, p: nat, q0: nat)
    requires WF(bs, kids) && b < |bs| && p < q0 < |bs[b]| && bs[b][p].op.Load?
    requires bs[b][q0].op.Store? && forall q :: p < q < q0 ==> !bs[b][q].op.Store?
    ensures var c := bs[b][p];
      var d := RedundantLoads(bs[b][p + 1..], c);
      LoadFrom(bs, b, p, p + 1)[b]
        == RedirectBlock(Keep(bs[b][..q0], d), d, Ref(c)) + RedirectBlock(bs[b][q0..], d, Ref(c))
  {
    ScanReadyFromWF(bs, kids, b, p);
    LoadStopsAt(bs, b, p, q0);
  }

  /** The loads the scan removes all come before the first store. */
  lemma RedundantLoadsBefore(t: Block, c: Instr, m: nat)
    requires m < |t| && t[m].op.Store?
    ensures forall e :: e in RedundantLoads(t, c) ==> exists q :: 0 <= q < m && t[q].id == e
  {
    RedundantLoadsMembers(t, c);
    forall e | e in RedundantLoads(t, c) ensures exists q :: 0 <= q < m && t[q].id == e {
      var q1 :| 0 <= q1 < |t| && t[q1].id == e && SameLoad(t[q1], c) && NoStoreBefore(t, q1);
      assert q1 < m;
    }
  }

  lemma RedundantLoadsNotAfter(bs: seq<Block>, b: nat, p: nat, q0: nat)
    requires UniqueIds(bs) && b < |bs| && p < q0 < |bs[b]| && bs[b][q0].op.Store?
    ensures forall q :: q0 <= q < |bs[b]| ==> bs[b][q].id !in RedundantLoads(bs[b][p + 1..], bs[b][p])
  {
    var s := bs[b];
    var t := s[p + 1..];
    var d := RedundantLoads(t, s[p]);
    assert t[q0 - p - 1] == s[q0];
    RedundantLoadsBefore(t, s[p], q0 - p - 1);
    forall q | q0 <= q < |s| ensures s[q].id !in d {
      forall q1 | 0 <= q1 < q0 - p - 1 ensures t[q1].id != s[q].id {
        assert t[q1] == s[q1 + p + 1];
      }
    }
  }

  lemma LoadStopsAt(bs: seq<Block>, b: nat, p: nat, q0: nat)
    requires ScanReady(bs, b, p, b, p + 1) && p < q0 < |bs[b]|
    requires bs[b][q0].op.Store? && forall q :: p < q < q0 ==> !bs[b][q].op.Store?
    ensures var c := bs[b][p];
      var d := RedundantLoads(bs[b][p + 1..], c);
      LoadFrom(bs, b, p, p + 1)[b]
        == RedirectBlock(Keep(bs[b][..q0], d), d, Ref(c)) + RedirectBlock(bs[b][q0..], d, Ref(c))
  {
    var c := bs[b][p];
    var s := bs[b];
    var t := s[p + 1..];
    var d := RedundantLoads(t, c);
    LoadFromCollapses(bs, b, p, p + 1);
    RedundantLoadsNotAfter(bs, b, p, q0);
    CollapseKeepsSuffix(bs, d, Ref(c), b, q0);
  }

  /** In a block suffix whose position `m` is the first stop of the store
      scan, the scan flags the candidate dead exactly when that instruction
      overwrites it, and it forwards only loads before `m`. */
  lemma ForwardedStopsAt(t: Block, st: Instr, m: nat)
    requires m < |t| && !ForwardsTo(t[m], st) && (Overwrites(t[m], st) || Barrier(t[m]))
    requires Reaches(t, st, m)
    ensures Forwarded(t, st).1 == Overwrites(t[m], st)
    ensures forall e :: e in Forwarded(t, st).0 ==> exists q :: 0 <= q < m && t[q].id == e
  {
    var f := Forwarded(t, st);
    ForwardedMembers(t, st);
    if f.1 {
      var q :| 0 <= q < |t| && Overwrites(t[q], st) && Reaches(t, st, q);
      assert q <= m;
    }
    forall e | e in f.0 ensures exists q :: 0 <= q < m && t[q].id == e {
      var q1 :| 0 <= q1 < |t| && t[q1].id == e && ForwardsTo(t[q1], st) && Reaches(t, st, q1);
      assert q1 < m;
    }
  }

  /** `eliminateStore` stops at the first instruction after the candidate
      that is not forwarded and either overwrites the candidate or is a
      barrier. The flag is set exactly when that instruction overwrites the
      candidate, which then goes; otherwise the candidate stays. That
      instruction and everything after it stay in place, whole; only operands
      that named a forwarded load change, and they now name the stored
      value. */
  lemma StoreScanStopsAtBarrier(bs: seq<Block>, kids: seq<seq<nat>>, b: nat, p: nat, q0: nat)
    requires WF(bs, kids) && b < |bs| && p < q0 < |bs[b]| && bs[b][p].op.Store?
    requires !StoresOwnAddress(bs[b][p])
    requires !ForwardsTo(bs[b][q0], bs[b][p]) && (Overwrites(bs[b][q0], bs[b][p]) || Barrier(bs[b][q0]))
    requires forall q :: p < q < q0 ==>
               ForwardsTo(bs[b][q], bs[b][p]) || (!Overwrites(bs[b][q], bs[b][p]) && !Barrier(bs[b][q]))
    ensures |bs[b][p].operands| > 1
    ensures var st := bs[b][p];
      var f := Forwarded(bs[b][p + 1..], st);
      var cs := Collapse(bs, f.0, st.operands[0]);
      && StoreFrom(bs, b, p, p + 1).1 == Overwrites(bs[b][q0], st)
      && p < |cs[b]| && cs[b][p] == st
      && cs[b] == RedirectBlock(Keep(bs[b][..q0], f.0), f.0, st.operands[0])
                  + RedirectBlock(bs[b][q0..], f.0, st.operands[0])
      && StoreFrom(bs, b, p, p + 1).0 == if Overwrites(bs[b][q0], st) then EraseAt(cs, b, p) else cs
  {
    StoreReadyFromWF(bs, kids, b, p);
    ForwardedNotAfter(bs, b, p, q0);
    StoreStopsAt(bs, b, p, q0);
  }

  /** The store scan's forwarded loads all come before its stop at `q0`,
      and its flag says whether the instruction at `q0` overwrites the
      candidate. */
  lemma ForwardedNotAfter(bs: seq<Block>, b: nat, p: nat, q0: nat)
    requires UniqueIds(bs) && b < |bs| && p < q0 < |bs[b]|
    requires !ForwardsTo(bs[b][q0], bs[b][p]) && (Overwrites(bs[b][q0], bs[b][p]) || Barrier(bs[b][q0]))
    requires forall q :: p < q < q0 ==>
               ForwardsTo(bs[b][q], bs[b][p]) || (!Overwrites(bs[b][q], bs[b][p]) && !Barrier(bs[b][q]))
    ensures Forwarded(bs[b][p + 1..], bs[b][p]).1 == Overwrites(bs[b][q0], bs[b][p])
    ensures forall q :: q0 <= q < |bs[b]| ==> bs[b][q].id !in Forwarded(bs[b][p + 1..], bs[b][p]).0
  {
    var s := bs[b];
    var st := s[p];
    var t := s[p + 1..];
    var m := q0 - p - 1;
    assert t[m] == s[q0];
    assert Reaches(t, st, m) by {
      forall q' | 0 <= q' < m
        ensures ForwardsTo(t[q'], st) || (!Overwrites(t[q'], st) && !Barrier(t[q']))
      {
        assert t[q'] == s[q' + p + 1];
      }
    }
    ForwardedStopsAt(t, st, m);
    var f := Forwarded(t, st);
    forall q | q0 <= q < |s| ensures s[q].id !in f.0 {
      forall q1 | 0 <= q1 < m ensures t[q1].id != s[q].id {
        assert t[q1] == s[q1 + p + 1];
      }
    }
  }

  /** The store scan from a ready position, stopped at `q0`, as a collapse
      that leaves `q0` and what follows in place. */
  lemma StoreStopsAt(bs: seq<Block>, b: nat, p: nat, q0: nat)
    requires StoreReady(bs, b, p, p + 1) && p < q0 < |bs[b]|
    requires Forwarded(bs[b][p + 1..], bs[b][p]).1 == Overwrites(bs[b][q0], bs[b][p])
    requires forall q :: q0 <= q < |bs[b]| ==> bs[b][q].id !in Forwarded(bs[b][p + 1..], bs[b][p]).0
    ensures |bs[b][p].operands| > 1
    ensures var st := bs[b][p];
      var f := Forwarded(bs[b][p + 1..], st);
      var cs := Collapse(bs, f.0, st.operands[0]);
      && StoreFrom(bs, b, p, p + 1).1 == Overwrites(bs[b][q0], st)
      && p < |cs[b]| && cs[b][p] == st
      && cs[b] == RedirectBlock(Keep(bs[b][..q0], f.0), f.0, st.operands[0])
                  + RedirectBlock(bs[b][q0..], f.0, st.operands[0])
      && StoreFrom(bs, b, p, p + 1).0 == if Overwrites(bs[b][q0], st) then EraseAt(cs, b, p) else cs
  {
    var st := bs[b][p];
    StoreFromCollapses(bs, b, p, p + 1);
    CollapseKeepsSuffix(bs, Forwarded(bs[b][p + 1..], st).0, st.operands[0], b, q0);
  }
}
