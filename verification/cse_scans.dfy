/** The two redundancy scans of the pass, as functions of the blocks: the
    scan of the rest of the candidate's block (`sameBBScan`) and the scan of
    the blocks its block immediately dominates (`domBBScan`). Each folds
    every instruction identical to the candidate into it, one at a time, in
    program order; the lemmas give the result in closed form. */
module CseScans {
  import opened IR
  import opened Collapsing
  import opened Classify

  /** The ids of the instructions of `s` identical to `c`. */
  function Duplicates(s: Block, c: Instr): (d: set<nat>)
    ensures forall q :: 0 <= q < |s| && Identical(s[q], c) ==> s[q].id in d
    ensures forall id :: id in d ==> exists q :: 0 <= q < |s| && s[q].id == id && Identical(s[q], c)
  {
    if s == [] then {}
    else (if Identical(s[0], c) then {s[0].id} else {}) + Duplicates(s[1..], c)
  }

  /** Scan block `blk` from position `j`, folding every instruction identical
      to the candidate at (cb, cp) into it; the candidate is compared as it
      stands at each step. */
  ghost function ScanFrom(bs: seq<Block>, cb: nat, cp: nat, blk: nat, j: nat): (r: seq<Block>)
    requires cb < |bs| && cp < |bs[cb]| && blk < |bs|
    requires blk != cb || cp < j
    ensures |r| == |bs| && |r[blk]| <= |bs[blk]|
    ensures forall k :: 0 <= k < |bs| && k != blk ==> |r[k]| == |bs[k]|
    ensures cp < |r[cb]| && Skel(r[cb][cp]) == Skel(bs[cb][cp])
    decreases |bs[blk]| - j
  {
    if j >= |bs[blk]| then bs
    else if Identical(bs[blk][j], bs[cb][cp]) then
      FoldAt(bs, blk, j, Ref(bs[cb][cp]), cb, cp);
      ScanFrom(Fold(bs, blk, j, Ref(bs[cb][cp])), cb, cp, blk, j)
    else ScanFrom(bs, cb, cp, blk, j + 1)
  }

  /** The fold of the instruction at (blk, j) into an instruction of the
      same type that defines a value is an acceptable replacement when the
      folded one comes later in dominance order. */
  lemma FoldIntoCandidateOk(bs: seq<Block>, kids: seq<seq<nat>>, cb: nat, cp: nat, blk: nat, j: nat)
    requires WF(bs, kids) && cb < |bs| && cp < |bs[cb]| && blk < |bs| && j < |bs[blk]|
    requires !bs[cb][cp].op.Store? && bs[blk][j].ty == bs[cb][cp].ty
    requires bs[blk][j].id > bs[cb][cp].id
    ensures ReplacementOk(bs, bs[blk][j], Ref(bs[cb][cp]))
  {
  }

  /** The scan keeps the function well formed, creates no instruction and
      never loses a terminator (`ScanFromLoses` says what it can lose). */
  lemma {:induction false} ScanFromKeepsWF(bs: seq<Block>, kids: seq<seq<nat>>, cb: nat, cp: nat, blk: nat, j: nat)
    requires WF(bs, kids) && cb < |bs| && cp < |bs[cb]| && blk < |bs|
    requires blk != cb || cp < j
    requires ValidForCSE(bs[cb][cp])
    requires forall q :: j <= q < |bs[blk]| ==> bs[blk][q].id > bs[cb][cp].id
    ensures WF(ScanFrom(bs, cb, cp, blk, j), kids)
    ensures Retained(bs, ScanFrom(bs, cb, cp, blk, j))
    ensures TerminatorsKept(bs, ScanFrom(bs, cb, cp, blk, j))
    decreases |bs[blk]| - j
  {
    if j >= |bs[blk]| {
    } else if Identical(bs[blk][j], bs[cb][cp]) {
      var r := Ref(bs[cb][cp]);
      var bs1: seq<Block> := Fold(bs, blk, j, r);
      FoldIntoCandidateOk(bs, kids, cb, cp, blk, j);
      FoldKeepsWF(bs, kids, blk, j, r);
      FoldAt(bs, blk, j, r, cb, cp);
      forall q | j <= q < |bs1[blk]| ensures bs1[blk][q].id > bs1[cb][cp].id {
        FoldAt(bs, blk, j, r, blk, q);
      }
      ScanFromKeepsWF(bs1, kids, cb, cp, blk, j);
      RetainedTrans(bs, bs1, ScanFrom(bs1, cb, cp, blk, j));
      TerminatorsKeptTrans(bs, bs1, ScanFrom(bs1, cb, cp, blk, j));
    } else {
      ScanFromKeepsWF(bs, kids, cb, cp, blk, j + 1);
    }
  }

  /** `y` has the opcode, type, predicate and volatility of `c`: all an
      instruction identical to `c` shares with it apart from its operands. */
  predicate Like(y: Instr, c: Instr) {
    y.op == c.op && y.ty == c.ty && y.special == c.special && y.isVolatile == c.isVolatile
  }

  /** Every instruction of `bs` that `cs` no longer holds was in one of the
      blocks `blks` and was like `c`. */
  ghost predicate LostOnlyLike(bs: seq<Block>, cs: seq<Block>, blks: seq<nat>, c: Instr) {
    |cs| == |bs|
    && forall k, q :: 0 <= k < |bs| && 0 <= q < |bs[k]| && Skel(bs[k][q]) !in Skels(cs[k]) ==> k in blks && Like(bs[k][q], c)
  }

  lemma LostOnlyLikeTrans(a: seq<Block>, b: seq<Block>, c: seq<Block>, blks1: seq<nat>, blks2: seq<nat>, x1: Instr, x2: Instr)
    requires LostOnlyLike(a, b, blks1, x1) && LostOnlyLike(b, c, blks2, x2) && Skel(x1) == Skel(x2)
    ensures LostOnlyLike(a, c, blks1 + blks2, x1)
  {
    forall k, q | 0 <= k < |a| && 0 <= q < |a[k]| && Skel(a[k][q]) !in Skels(c[k]) ensures k in blks1 + blks2 && Like(a[k][q], x1) {
      if Skel(a[k][q]) in Skels(b[k]) {
        var z :| z in b[k] && Skel(z) == Skel(a[k][q]);
        var q' :| 0 <= q' < |b[k]| && b[k][q'] == z;
        assert Skel(x1).op == x1.op && Skel(x2).op == x2.op && Skel(z).op == z.op;
      }
    }
  }

  /** The scan of block `blk` from position `j` leaves everything before
      `j`, and every other block, in place, and loses only instructions of
      block `blk` like the candidate. */
  lemma {:induction false} ScanFromLoses(bs: seq<Block>, cb: nat, cp: nat, blk: nat, j: nat)
    requires cb < |bs| && cp < |bs[cb]| && blk < |bs| && j <= |bs[blk]|
    requires blk != cb || cp < j
    ensures SameBefore(bs, ScanFrom(bs, cb, cp, blk, j), blk, j)
    ensures LostOnlyLike(bs, ScanFrom(bs, cb, cp, blk, j), [blk], bs[cb][cp])
    decreases |bs[blk]| - j, 1
  {
    if j == |bs[blk]| {
    } else if Identical(bs[blk][j], bs[cb][cp]) {
      ScanFoldLoses(bs, cb, cp, blk, j);
    } else {
      assert ScanFrom(bs, cb, cp, blk, j) == ScanFrom(bs, cb, cp, blk, j + 1);
      ScanFromLoses(bs, cb, cp, blk, j + 1);
      SameBeforeLess(bs, ScanFrom(bs, cb, cp, blk, j + 1), blk, j, j + 1);
    }
  }

  /** `ScanFromLoses` when the instruction at `j` is folded. */
  lemma {:induction false} ScanFoldLoses(bs: seq<Block>, cb: nat, cp: nat, blk: nat, j: nat)
    requires cb < |bs| && cp < |bs[cb]| && blk < |bs| && j < |bs[blk]|
    requires blk != cb || cp < j
    requires Identical(bs[blk][j], bs[cb][cp])
    ensures SameBefore(bs, ScanFrom(bs, cb, cp, blk, j), blk, j)
    ensures LostOnlyLike(bs, ScanFrom(bs, cb, cp, blk, j), [blk], bs[cb][cp])
    decreases |bs[blk]| - j, 0
  {
    var r := Ref(bs[cb][cp]);
    var bs1: seq<Block> := Fold(bs, blk, j, r);
    assert ScanFrom(bs, cb, cp, blk, j) == ScanFrom(bs1, cb, cp, blk, j);
    FoldAt(bs, blk, j, r, cb, cp);
    FoldSameBefore(bs, blk, j, r);
    FoldLoses(bs, blk, j, r);
    assert LostOnlyLike(bs, bs1, [blk], bs[cb][cp]);
    ScanFromLoses(bs1, cb, cp, blk, j);
    SameBeforeTrans(bs, bs1, ScanFrom(bs1, cb, cp, blk, j), blk, j);
    LostOnlyLikeTrans(bs, bs1, ScanFrom(bs1, cb, cp, blk, j), [blk], [blk], bs[cb][cp], bs1[cb][cp]);
  }

  lemma DuplicatesTail(s: Block, c: Instr)
    requires s != []
    ensures Duplicates(s, c) == (if Identical(s[0], c) then {s[0].id} else {}) + Duplicates(s[1..], c)
  {
  }

  lemma {:induction false} DuplicatesRedirect(s: Block, c: Instr, gone: set<nat>, r: Value)
    requires Avoids(c, gone, r)
    ensures Duplicates(RedirectBlock(s, gone, r), c) == Duplicates(s, c)
  {
    if s != [] {
      RedirectBlockTail(s, gone, r);
      IdenticalUnderRedirect(s[0], c, gone, r);
      DuplicatesRedirect(s[1..], c, gone, r);
      var t := RedirectBlock(s, gone, r);
      assert t[1..] == RedirectBlock(s[1..], gone, r);
    }
  }

  lemma {:induction false} DuplicatesKeep(s: Block, c: Instr, gone: set<nat>)
    ensures Duplicates(Keep(s, gone), c) == Duplicates(s, c) - gone
  {
    if s != [] {
      DuplicatesKeep(s[1..], c, gone);
      var rest := Keep(s[1..], gone);
      if s[0].id in gone {
        assert Keep(s, gone) == rest;
      } else {
        assert Keep(s, gone) == [s[0]] + rest;
        assert ([s[0]] + rest)[1..] == rest;
      }
    }
  }

  /** What the closed form of a scan of block `blk` from position `j` into
      the candidate at (cb, cp) needs: unique ids, a candidate that is not
      a PHI (so its operands are defined before it), and nothing from `j`
      on that comes before the candidate in dominance order. */
  ghost predicate ScanReady(bs: seq<Block>, cb: nat, cp: nat, blk: nat, j: nat) {
    && cb < |bs| && cp < |bs[cb]| && blk < |bs| && (blk != cb || cp < j)
    && UniqueIds(bs) && LocalOk(bs[cb][cp]) && !bs[cb][cp].op.PHI?
    && forall q :: j <= q < |bs[blk]| ==> bs[blk][q].id > bs[cb][cp].id
  }

  lemma ScanReadyFromWF(bs: seq<Block>, kids: seq<seq<nat>>, b: nat, p: nat)
    requires WF(bs, kids) && b < |bs| && p < |bs[b]| && !bs[b][p].op.PHI?
    ensures ScanReady(bs, b, p, b, p + 1)
  {
  }

  /** One fold into the candidate leaves the scan ready at the same position. */
  lemma FoldKeepsReady(bs: seq<Block>, cb: nat, cp: nat, blk: nat, j: nat)
    requires ScanReady(bs, cb, cp, blk, j) && j < |bs[blk]|
    ensures var bs1 := Fold(bs, blk, j, Ref(bs[cb][cp]));
      && cp < |bs1[cb]| && bs1[cb][cp] == bs[cb][cp]
      && ScanReady(bs1, cb, cp, blk, j)
  {
    var c := bs[cb][cp];
    var r := Ref(c);
    var bs1: seq<Block> := Fold(bs, blk, j, r);
    FoldKeepsUnique(bs, blk, j, r);
    FoldAt(bs, blk, j, r, cb, cp);
    RedirectInstrNoop(c, {bs[blk][j].id}, r);
    forall q | j <= q < |bs1[blk]| ensures bs1[blk][q].id > c.id {
      FoldAt(bs, blk, j, r, blk, q);
    }
  }

  /** What one fold into a non-PHI candidate leaves for the rest of a scan. */
  lemma FoldIntoCandidate(bs: seq<Block>, cb: nat, cp: nat, blk: nat, j: nat)
    requires ScanReady(bs, cb, cp, blk, j) && j < |bs[blk]|
    ensures var bs1 := Fold(bs, blk, j, Ref(bs[cb][cp]));
      && bs1 == Collapse(bs, {bs[blk][j].id}, Ref(bs[cb][cp]))
      && cp < |bs1[cb]| && bs1[cb][cp] == bs[cb][cp]
      && bs1[blk][j..] == RedirectBlock(bs[blk][j + 1..], {bs[blk][j].id}, Ref(bs[cb][cp]))
      && Avoids(bs[cb][cp], {bs[blk][j].id}, Ref(bs[cb][cp]))
  {
    var c := bs[cb][cp];
    var r := Ref(c);
    var s := bs[blk];
    var x := s[j];
    var bs1: seq<Block> := Fold(bs, blk, j, r);
    FoldIsCollapse(bs, blk, j, r);
    AvoidsLater(c, {x.id});
    FoldAt(bs, blk, j, r, cb, cp);
    RedirectInstrNoop(c, {x.id}, r);
    forall q | j <= q < |bs1[blk]| ensures bs1[blk][q] == RedirectInstr(s[q + 1], {x.id}, r) {
      FoldAt(bs, blk, j, r, blk, q);
    }
    assert bs1[blk][j..] == RedirectBlock(s[j + 1..], {x.id}, r);
  }

  lemma ScanCollapseStep(bs: seq<Block>, cb: nat, cp: nat, blk: nat, j: nat)
    requires ScanReady(bs, cb, cp, blk, j) && j < |bs[blk]|
    requires Identical(bs[blk][j], bs[cb][cp])
    requires var bs1 := Fold(bs, blk, j, Ref(bs[cb][cp]));
      && cp < |bs1[cb]| && j <= |bs1[blk]|
      && ScanFrom(bs1, cb, cp, blk, j) == Collapse(bs1, Duplicates(bs1[blk][j..], bs1[cb][cp]), Ref(bs1[cb][cp]))
      && ScanFrom(bs1, cb, cp, blk, j)[cb][cp] == bs1[cb][cp]
    ensures ScanFrom(bs, cb, cp, blk, j)
         == Collapse(bs, Duplicates(bs[blk][j..], bs[cb][cp]), Ref(bs[cb][cp]))
    ensures ScanFrom(bs, cb, cp, blk, j)[cb][cp] == bs[cb][cp]
  {
    var c := bs[cb][cp];
    var r := Ref(c);
    var s := bs[blk];
    var x := s[j];
    var bs1: seq<Block> := Fold(bs, blk, j, r);
    assert ScanFrom(bs, cb, cp, blk, j) == ScanFrom(bs1, cb, cp, blk, j);
    FoldIntoCandidate(bs, cb, cp, blk, j);
    var d' := Duplicates(s[j + 1..], c);
    DuplicatesRedirect(s[j + 1..], c, {x.id}, r);
    assert Duplicates(bs1[blk][j..], c) == d';
    CollapseCompose(bs, {x.id}, d', r);
    assert s[j..][1..] == s[j + 1..];
    DuplicatesTail(s[j..], c);
    assert Duplicates(s[j..], c) == {x.id} + d';
  }

  lemma ScanSkipStep(bs: seq<Block>, cb: nat, cp: nat, blk: nat, j: nat)
    requires cb < |bs| && cp < |bs[cb]| && blk < |bs| && j < |bs[blk]|
    requires blk != cb || cp < j
    requires !Identical(bs[blk][j], bs[cb][cp])
    requires ScanFrom(bs, cb, cp, blk, j + 1)
          == Collapse(bs, Duplicates(bs[blk][j + 1..], bs[cb][cp]), Ref(bs[cb][cp]))
    ensures ScanFrom(bs, cb, cp, blk, j)
         == Collapse(bs, Duplicates(bs[blk][j..], bs[cb][cp]), Ref(bs[cb][cp]))
  {
    var s := bs[blk];
    assert s[j..][1..] == s[j + 1..];
    DuplicatesTail(s[j..], bs[cb][cp]);
    assert Duplicates(s[j..], bs[cb][cp]) == Duplicates(s[j + 1..], bs[cb][cp]);
    assert ScanFrom(bs, cb, cp, blk, j) == ScanFrom(bs, cb, cp, blk, j + 1);
  }

  /** For a candidate that is not a PHI the scan is one collapse: exactly
      the instructions from position `j` on that are identical to the
      candidate disappear, every use of them now names the candidate,
      everything else stays in order, and the candidate itself is unchanged. */
  lemma {:induction false} ScanFromCollapses(bs: seq<Block>, cb: nat, cp: nat, blk: nat, j: nat)
    requires ScanReady(bs, cb, cp, blk, j) && j <= |bs[blk]|
    ensures ScanFrom(bs, cb, cp, blk, j)
         == Collapse(bs, Duplicates(bs[blk][j..], bs[cb][cp]), Ref(bs[cb][cp]))
    ensures ScanFrom(bs, cb, cp, blk, j)[cb][cp] == bs[cb][cp]
    decreases |bs[blk]| - j, 1
  {
    if j == |bs[blk]| {
      ScanEndCollapses(bs, cb, cp, blk, j);
    } else if Identical(bs[blk][j], bs[cb][cp]) {
      ScanFoldCollapses(bs, cb, cp, blk, j);
    } else {
      ScanSkipCollapses(bs, cb, cp, blk, j);
    }
  }

  lemma {:induction false} ScanFoldCollapses(bs: seq<Block>, cb: nat, cp: nat, blk: nat, j: nat)
    requires ScanReady(bs, cb, cp, blk, j) && j < |bs[blk]|
    requires Identical(bs[blk][j], bs[cb][cp])
    ensures ScanFrom(bs, cb, cp, blk, j)
         == Collapse(bs, Duplicates(bs[blk][j..], bs[cb][cp]), Ref(bs[cb][cp]))
    ensures ScanFrom(bs, cb, cp, blk, j)[cb][cp] == bs[cb][cp]
    decreases |bs[blk]| - j, 0
  {
    FoldKeepsReady(bs, cb, cp, blk, j);
    ScanFromCollapses(Fold(bs, blk, j, Ref(bs[cb][cp])), cb, cp, blk, j);
    ScanCollapseStep(bs, cb, cp, blk, j);
  }

  lemma ScanEndCollapses(bs: seq<Block>, cb: nat, cp: nat, blk: nat, j: nat)
    requires ScanReady(bs, cb, cp, blk, j) && j == |bs[blk]|
    ensures ScanFrom(bs, cb, cp, blk, j)
         == Collapse(bs, Duplicates(bs[blk][j..], bs[cb][cp]), Ref(bs[cb][cp]))
    ensures ScanFrom(bs, cb, cp, blk, j)[cb][cp] == bs[cb][cp]
  {
    assert bs[blk][j..] == [];
    CollapseNothing(bs, Ref(bs[cb][cp]));
  }

  lemma {:induction false} ScanSkipCollapses(bs: seq<Block>, cb: nat, cp: nat, blk: nat, j: nat)
    requires ScanReady(bs, cb, cp, blk, j) && j < |bs[blk]|
    requires !Identical(bs[blk][j], bs[cb][cp])
    ensures ScanFrom(bs, cb, cp, blk, j)
         == Collapse(bs, Duplicates(bs[blk][j..], bs[cb][cp]), Ref(bs[cb][cp]))
    ensures ScanFrom(bs, cb, cp, blk, j)[cb][cp] == bs[cb][cp]
    decreases |bs[blk]| - j, 0
  {
    ScanFromCollapses(bs, cb, cp, blk, j + 1);
    ScanSkipStep(bs, cb, cp, blk, j);
  }

  /** After the scan no instruction of the scanned block that comes after
      the candidate in dominance order is identical to it. */
  lemma ScanLeavesNoDuplicate(bs: seq<Block>, cb: nat, cp: nat, blk: nat, j: nat)
    requires ScanReady(bs, cb, cp, blk, j) && j <= |bs[blk]|
    requires forall q :: 0 <= q < j ==> bs[blk][q].id <= bs[cb][cp].id
    ensures var r := ScanFrom(bs, cb, cp, blk, j);
      forall q :: 0 <= q < |r[blk]| && r[blk][q].id > bs[cb][cp].id ==> !Identical(r[blk][q], bs[cb][cp])
  {
    var c: Instr := bs[cb][cp];
    var s: Block := bs[blk];
    var d: set<nat> := Duplicates(s[j..], c);
    ScanFromCollapses(bs, cb, cp, blk, j);
    KeptNotIdentical(s, c, j);
    assert ScanFrom(bs, cb, cp, blk, j)[blk] == RedirectBlock(Keep(s, d), d, Ref(c));
  }

  /** Collapsing the duplicates of `c` from position `j` of a block whose
      earlier ids are at most `c`'s and later ones above it leaves nothing
      above `c` identical to it. */
  lemma KeptNotIdentical(s: Block, c: Instr, j: nat)
    requires LocalOk(c) && !c.op.PHI? && j <= |s|
    requires forall q :: 0 <= q < j ==> s[q].id <= c.id
    requires forall q :: j <= q < |s| ==> s[q].id > c.id
    ensures var d := Duplicates(s[j..], c);
      var t := RedirectBlock(Keep(s, d), d, Ref(c));
      forall q :: 0 <= q < |t| && t[q].id > c.id ==> !Identical(t[q], c)
  {
    var d: set<nat> := Duplicates(s[j..], c);
    forall e | e in d ensures e > c.id {
      var q :| 0 <= q < |s[j..]| && s[j..][q].id == e && Identical(s[j..][q], c);
      assert s[j..][q] == s[j + q];
    }
    AvoidsLater(c, d);
    KeepMembers(s, d);
    var kept: Block := Keep(s, d);
    forall q | 0 <= q < |kept| && kept[q].id > c.id ensures !Identical(RedirectInstr(kept[q], d, Ref(c)), c) {
      var y0: Instr := kept[q];
      assert y0 in s && y0.id !in d;
      var q0 :| 0 <= q0 < |s| && s[q0] == y0;
      assert q0 >= j;
      assert s[j..][q0 - j] == y0;
      IdenticalUnderRedirect(y0, c, d, Ref(c));
    }
  }

  // ---------------------------------------------------------------------
  // The scan of the immediately dominated blocks

  /** Scan each of the blocks `kids`, in order, in full. */
  ghost function DomFrom(bs: seq<Block>, cb: nat, cp: nat, kids: seq<nat>): (r: seq<Block>)
    requires cb < |bs| && cp < |bs[cb]|
    requires forall k :: 0 <= k < |kids| ==> kids[k] < |bs| && kids[k] != cb
    ensures |r| == |bs| && |r[cb]| == |bs[cb]| && Skel(r[cb][cp]) == Skel(bs[cb][cp])
    decreases |kids|
  {
    if kids == [] then bs
    else DomFrom(ScanFrom(bs, cb, cp, kids[0], 0), cb, cp, kids[1..])
  }

  /** The ids of the instructions identical to `c` in the blocks `kids`. */
  function DomDuplicates(bs: seq<Block>, kids: seq<nat>, c: Instr): set<nat>
    requires forall k :: 0 <= k < |kids| ==> kids[k] < |bs|
  {
    if kids == [] then {} else Duplicates(bs[kids[0]], c) + DomDuplicates(bs, kids[1..], c)
  }

  /** Every block listed in `kids` is immediately dominated by block `cb`. */
  ghost predicate DominatedBy(table: seq<seq<nat>>, cb: nat, kids: seq<nat>) {
    cb < |table| && forall k :: 0 <= k < |kids| ==> kids[k] in table[cb]
  }

  lemma ChildIdsAbove(bs: seq<Block>, table: seq<seq<nat>>, cb: nat, cp: nat, c: nat)
    requires WF(bs, table) && cb < |bs| && cp < |bs[cb]| && c in table[cb]
    ensures c < |bs| && c != cb
    ensures forall q :: 0 <= q < |bs[c]| ==> bs[c][q].id > bs[cb][cp].id
  {
    var k :| 0 <= k < |table[cb]| && table[cb][k] == c;
  }

  /** The scan of the blocks `kids` keeps the function well formed, creates
      no instruction and never loses a terminator (`DomFromLoses` says what
      it can lose). */
  lemma {:induction false} DomFromKeepsWF(bs: seq<Block>, table: seq<seq<nat>>, cb: nat, cp: nat, kids: seq<nat>)
    requires WF(bs, table) && cb < |bs| && cp < |bs[cb]| && DominatedBy(table, cb, kids)
    requires forall k :: 0 <= k < |kids| ==> kids[k] < |bs| && kids[k] != cb
    requires ValidForCSE(bs[cb][cp])
    ensures WF(DomFrom(bs, cb, cp, kids), table)
    ensures Retained(bs, DomFrom(bs, cb, cp, kids))
    ensures TerminatorsKept(bs, DomFrom(bs, cb, cp, kids))
    decreases |kids|
  {
    if kids != [] {
      ChildIdsAbove(bs, table, cb, cp, kids[0]);
      ScanFromKeepsWF(bs, table, cb, cp, kids[0], 0);
      var bs1: seq<Block> := ScanFrom(bs, cb, cp, kids[0], 0);
      DomFromKeepsWF(bs1, table, cb, cp, kids[1..]);
      RetainedTrans(bs, bs1, DomFrom(bs1, cb, cp, kids[1..]));
      TerminatorsKeptTrans(bs, bs1, DomFrom(bs1, cb, cp, kids[1..]));
    }
  }

  /** The scan of the blocks `kids` leaves the candidate's block in place
      and loses only instructions of those blocks like the candidate. */
  lemma {:induction false} DomFromLoses(bs: seq<Block>, cb: nat, cp: nat, kids: seq<nat>)
    requires cb < |bs| && cp < |bs[cb]|
    requires forall k :: 0 <= k < |kids| ==> kids[k] < |bs| && kids[k] != cb
    ensures KeptPrefix(bs, DomFrom(bs, cb, cp, kids), cb, |bs[cb]|)
    ensures LostOnlyLike(bs, DomFrom(bs, cb, cp, kids), kids, bs[cb][cp])
    decreases |kids|
  {
    if kids != [] {
      ScanFromLoses(bs, cb, cp, kids[0], 0);
      var bs1: seq<Block> := ScanFrom(bs, cb, cp, kids[0], 0);
      assert KeptPrefix(bs, bs1, cb, |bs[cb]|);
      DomFromLoses(bs1, cb, cp, kids[1..]);
      var r := DomFrom(bs1, cb, cp, kids[1..]);
      LostOnlyLikeTrans(bs, bs1, r, [kids[0]], kids[1..], bs[cb][cp], bs1[cb][cp]);
      assert [kids[0]] + kids[1..] == kids;
    }
  }

  lemma {:induction false} DomDuplicatesAfterCollapse(bs: seq<Block>, gone: set<nat>, r: Value, kids: seq<nat>, c: Instr)
    requires forall k :: 0 <= k < |kids| ==> kids[k] < |bs|
    requires Avoids(c, gone, r)
    ensures DomDuplicates(Collapse(bs, gone, r), kids, c) == DomDuplicates(bs, kids, c) - gone
  {
    if kids != [] {
      var k := kids[0];
      DuplicatesRedirect(Keep(bs[k], gone), c, gone, r);
      DuplicatesKeep(bs[k], c, gone);
      DomDuplicatesAfterCollapse(bs, gone, r, kids[1..], c);
    }
  }

  /** Every instruction of the blocks `kids` comes after the candidate at
      (cb, cp) in dominance order. */
  ghost predicate ChildrenAbove(bs: seq<Block>, cb: nat, cp: nat, kids: seq<nat>)
    requires cb < |bs| && cp < |bs[cb]|
  {
    forall n, q :: 0 <= n < |kids| && kids[n] < |bs| && 0 <= q < |bs[kids[n]]| ==> bs[kids[n]][q].id > bs[cb][cp].id
  }

  lemma DomReadyFromWF(bs: seq<Block>, table: seq<seq<nat>>, cb: nat, cp: nat)
    requires WF(bs, table) && cb < |bs| && cp < |bs[cb]| && !bs[cb][cp].op.PHI?
    ensures cb < |table| && DomReady(bs, cb, cp, table[cb])
  {
  }

  /** Only the ids of instructions erased by the scan go. */
  lemma {:induction false} ScanFromKeepsUnique(bs: seq<Block>, cb: nat, cp: nat, blk: nat, j: nat)
    requires UniqueIds(bs) && cb < |bs| && cp < |bs[cb]| && blk < |bs| && (blk != cb || cp < j)
    ensures UniqueIds(ScanFrom(bs, cb, cp, blk, j))
    decreases |bs[blk]| - j
  {
    if j >= |bs[blk]| {
    } else if Identical(bs[blk][j], bs[cb][cp]) {
      var r := Ref(bs[cb][cp]);
      FoldKeepsUnique(bs, blk, j, r);
      FoldAt(bs, blk, j, r, cb, cp);
      ScanFromKeepsUnique(Fold(bs, blk, j, r), cb, cp, blk, j);
    } else {
      ScanFromKeepsUnique(bs, cb, cp, blk, j + 1);
    }
  }

  /** What the closed form of the scan of the blocks `kids` needs. */
  ghost predicate DomReady(bs: seq<Block>, cb: nat, cp: nat, kids: seq<nat>) {
    && cb < |bs| && cp < |bs[cb]| && UniqueIds(bs)
    && LocalOk(bs[cb][cp]) && !bs[cb][cp].op.PHI?
    && (forall k :: 0 <= k < |kids| ==> kids[k] < |bs| && kids[k] != cb)
    && ChildrenAbove(bs, cb, cp, kids)
  }

  /** Scanning the first of the blocks is one collapse and leaves the rest
      ready. */
  lemma FirstChildCollapses(bs: seq<Block>, cb: nat, cp: nat, kids: seq<nat>)
    requires DomReady(bs, cb, cp, kids) && kids != []
    ensures var bs1 := ScanFrom(bs, cb, cp, kids[0], 0);
      && bs1 == Collapse(bs, Duplicates(bs[kids[0]], bs[cb][cp]), Ref(bs[cb][cp]))
      && bs1[cb][cp] == bs[cb][cp]
      && DomReady(bs1, cb, cp, kids[1..])
    ensures forall e :: e in Duplicates(bs[kids[0]], bs[cb][cp]) ==> e > bs[cb][cp].id
  {
    var c: Instr := bs[cb][cp];
    var r: Value := Ref(c);
    var k0 := kids[0];
    assert ScanReady(bs, cb, cp, k0, 0);
    ScanFromCollapses(bs, cb, cp, k0, 0);
    ScanFromKeepsUnique(bs, cb, cp, k0, 0);
    assert bs[k0][0..] == bs[k0];
    var d0: set<nat> := Duplicates(bs[k0], c);
    var bs1: seq<Block> := ScanFrom(bs, cb, cp, k0, 0);
    var rest: seq<nat> := kids[1..];
    forall n, q | 0 <= n < |rest| && rest[n] < |bs1| && 0 <= q < |bs1[rest[n]]|
      ensures bs1[rest[n]][q].id > c.id
    {
      CollapseIdsFrom(bs, d0, r, rest[n], q);
      assert rest[n] == kids[n + 1];
    }
    forall e | e in d0 ensures e > c.id {
      var q :| 0 <= q < |bs[k0]| && bs[k0][q].id == e && Identical(bs[k0][q], c);
    }
  }

  /** A collapse of the first block's duplicates followed by a collapse of
      the remaining blocks' duplicates is the collapse of them all. */
  lemma DomCollapseStep(bs: seq<Block>, kids: seq<nat>, c: Instr, bs1: seq<Block>, tail: seq<Block>)
    requires kids != [] && forall k :: 0 <= k < |kids| ==> kids[k] < |bs|
    requires LocalOk(c) && !c.op.PHI?
    requires forall e :: e in Duplicates(bs[kids[0]], c) ==> e > c.id
    requires bs1 == Collapse(bs, Duplicates(bs[kids[0]], c), Ref(c))
    requires tail == Collapse(bs1, DomDuplicates(bs1, kids[1..], c), Ref(c))
    ensures tail == Collapse(bs, DomDuplicates(bs, kids, c), Ref(c))
  {
    var d0: set<nat> := Duplicates(bs[kids[0]], c);
    AvoidsLater(c, d0);
    DomDuplicatesAfterCollapse(bs, d0, Ref(c), kids[1..], c);
    var later: set<nat> := DomDuplicates(bs, kids[1..], c);
    CollapseCompose(bs, d0, later - d0, Ref(c));
    assert d0 + (later - d0) == DomDuplicates(bs, kids, c);
  }

  /** For a candidate that is not a PHI the scan of the dominated blocks is
      one collapse: exactly their instructions identical to the candidate
      disappear and every use of them now names the candidate. */
  lemma {:induction false} DomFromCollapses(bs: seq<Block>, cb: nat, cp: nat, kids: seq<nat>)
    requires DomReady(bs, cb, cp, kids)
    ensures DomFrom(bs, cb, cp, kids) == Collapse(bs, DomDuplicates(bs, kids, bs[cb][cp]), Ref(bs[cb][cp]))
    ensures DomFrom(bs, cb, cp, kids)[cb][cp] == bs[cb][cp]
    decreases |kids|
  {
    if kids == [] {
      CollapseNothing(bs, Ref(bs[cb][cp]));
    } else {
      var c: Instr := bs[cb][cp];
      var bs1: seq<Block> := ScanFrom(bs, cb, cp, kids[0], 0);
      FirstChildCollapses(bs, cb, cp, kids);
      DomFromCollapses(bs1, cb, cp, kids[1..]);
      DomCollapseStep(bs, kids, c, bs1, DomFrom(bs1, cb, cp, kids[1..]));
    }
  }

  lemma {:induction false} DomDuplicatesFrom(bs: seq<Block>, kids: seq<nat>, c: Instr, id: nat)
    requires forall k :: 0 <= k < |kids| ==> kids[k] < |bs|
    requires id in DomDuplicates(bs, kids, c)
    ensures exists n, q :: 0 <= n < |kids| && 0 <= q < |bs[kids[n]]| && bs[kids[n]][q].id == id
  {
    if id in Duplicates(bs[kids[0]], c) {
      var q :| 0 <= q < |bs[kids[0]]| && bs[kids[0]][q].id == id && Identical(bs[kids[0]][q], c);
      assert bs[kids[0]][q].id == id;
    } else {
      DomDuplicatesFrom(bs, kids[1..], c, id);
      var n, q :| 0 <= n < |kids[1..]| && 0 <= q < |bs[kids[1..][n]]| && bs[kids[1..][n]][q].id == id;
      assert kids[1..][n] == kids[n + 1];
    }
  }

  /** `domBBScan` keeps every block that the candidate's block does not
      immediately dominate, the candidate's own block among them, whole and
      in order: only its operands that named an erased duplicate change, and
      they now name the candidate. */
  lemma DomScanKeepsOtherBlocks(bs: seq<Block>, table: seq<seq<nat>>, cb: nat, cp: nat, k: nat)
    requires WF(bs, table) && cb < |bs| && cp < |bs[cb]| && ValidForCSE(bs[cb][cp]) && !bs[cb][cp].op.PHI?
    requires k < |bs| && k !in table[cb]
    ensures DomFrom(bs, cb, cp, table[cb])[k]
         == RedirectBlock(bs[k], DomDuplicates(bs, table[cb], bs[cb][cp]), Ref(bs[cb][cp]))
  {
    var c := bs[cb][cp];
    var kids := table[cb];
    var d := DomDuplicates(bs, kids, c);
    DomReadyFromWF(bs, table, cb, cp);
    DomFromCollapses(bs, cb, cp, kids);
    forall e | e in d ensures forall q :: 0 <= q < |bs[k]| ==> bs[k][q].id != e {
      DomDuplicatesFrom(bs, kids, c, e);
      var n, q' :| 0 <= n < |kids| && 0 <= q' < |bs[kids[n]]| && bs[kids[n]][q'].id == e;
      assert kids[n] in kids && kids[n] != k;
    }
    CollapseKeepsSuffix(bs, d, Ref(c), k, 0);
    assert bs[k][..0] == [] && bs[k][0..] == bs[k];
  }
}
