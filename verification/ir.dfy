/** The instruction model the pass works on: opcodes, operand values,
    instructions, blocks, the two graph edits the pass performs
    (redirecting uses and erasing an instruction), and the well-formedness
    that the input IR guarantees and that every edit of the pass keeps. */
module IR {

  /** The opcodes of the IR (the instruction set the pass switches on). */
  datatype Opcode =
    // terminators
    | Ret | Br | Switch | IndirectBr | Invoke | Resume | Unreachable
    | CleanupRet | CatchRet | CatchSwitch | CallBr
    // unary and binary arithmetic and logic
    | FNeg
    | Add | FAdd | Sub | FSub | Mul | FMul | UDiv | SDiv | FDiv
    | URem | SRem | FRem | Shl | LShr | AShr | And | Or | Xor
    // memory
    | Alloca | Load | Store | GetElementPtr | Fence | AtomicCmpXchg | AtomicRMW
    // casts
    | Trunc | ZExt | SExt | FPToUI | FPToSI | UIToFP | SIToFP | FPTrunc | FPExt
    | PtrToInt | IntToPtr | BitCast | AddrSpaceCast
    // everything else
    | CleanupPad | CatchPad | ICmp | FCmp | PHI | Call | Select
    | UserOp1 | UserOp2 | VAArg
    | ExtractElement | InsertElement | ShuffleVector | ExtractValue | InsertValue
    | LandingPad | Freeze

  predicate IsTerminator(op: Opcode) {
    op.Ret? || op.Br? || op.Switch? || op.IndirectBr? || op.Invoke? || op.Resume?
    || op.Unreachable? || op.CleanupRet? || op.CatchRet? || op.CatchSwitch? || op.CallBr?
  }

  /** Types are compared for identity only. */
  type TypeId = nat

  /** An operand: the result of another instruction (named by its id), or a
      value that is not an instruction (constant, argument, global, block).
      A value knows its type, as every IR value does. */
  datatype Value = InstRef(id: nat, ty: TypeId) | Const(key: int, ty: TypeId)

  /** One instruction. `special` stands for the opcode-specific state that
      instruction identity also compares (compare predicate, alignment,
      incoming blocks of a PHI, ...). A load's operand 0 is its address; a
      store's operand 0 is the stored value and operand 1 the address. */
  datatype Instr = Instr(
    id: nat,
    op: Opcode,
    ty: TypeId,
    operands: seq<Value>,
    special: int,
    isVolatile: bool,
    sideEffects: bool)

  type Block = seq<Instr>

  /** The value an instruction defines, as an operand of another one. */
  function Ref(i: Instr): (v: Value)
    ensures v.InstRef? && v.id == i.id && v.ty == i.ty
  {
    InstRef(i.id, i.ty)
  }

  /** Structural identity: same operation on the same operands. */
  predicate Identical(a: Instr, b: Instr) {
    a.op == b.op && a.ty == b.ty && a.operands == b.operands
    && a.special == b.special && a.isVolatile == b.isVolatile
  }

  /** Operand `v` names one of the instructions whose ids are in `ids`. */
  predicate NamesOneOf(v: Value, ids: set<nat>) {
    v.InstRef? && v.id in ids
  }

  /** Operand `v` names instruction `x`. */
  predicate Names(v: Value, x: nat) {
    NamesOneOf(v, {x})
  }

  predicate Mentions(i: Instr, x: nat) {
    exists k :: 0 <= k < |i.operands| && Names(i.operands[k], x)
  }

  /** Instruction `x` has a use somewhere in the function. */
  predicate HasUses(bs: seq<Block>, x: nat) {
    exists b, p :: 0 <= b < |bs| && 0 <= p < |bs[b]| && Mentions(bs[b][p], x)
  }

  /** The instruction without its operands: what no edit of the pass changes. */
  function Skel(i: Instr): Instr {
    i.(operands := [])
  }

  // ---------------------------------------------------------------------
  // Redirecting uses and erasing

  /** An operand naming one of `gone` now names `r`. */
  function Redirect(v: Value, gone: set<nat>, r: Value): Value {
    if NamesOneOf(v, gone) then r else v
  }

  function RedirectInstr(i: Instr, gone: set<nat>, r: Value): (j: Instr)
    ensures Skel(j) == Skel(i) && |j.operands| == |i.operands|
  {
    i.(operands := seq(|i.operands|, k requires 0 <= k < |i.operands| => Redirect(i.operands[k], gone, r)))
  }

  function RedirectBlock(s: Block, gone: set<nat>, r: Value): (t: Block)
    ensures |t| == |s|
    ensures forall q :: 0 <= q < |s| ==> t[q] == RedirectInstr(s[q], gone, r)
  {
    seq(|s|, q requires 0 <= q < |s| => RedirectInstr(s[q], gone, r))
  }

  function RedirectAll(bs: seq<Block>, gone: set<nat>, r: Value): (cs: seq<Block>)
    ensures |cs| == |bs|
    ensures forall b :: 0 <= b < |bs| ==> cs[b] == RedirectBlock(bs[b], gone, r)
  {
    seq(|bs|, b requires 0 <= b < |bs| => RedirectBlock(bs[b], gone, r))
  }

  /** `x.replaceAllUsesWith(r)`: every operand of the function naming `x`
      now names `r`. */
  function ReplaceAllUses(bs: seq<Block>, x: nat, r: Value): seq<Block> {
    RedirectAll(bs, {x}, r)
  }

  /** `eraseFromParent` of the instruction at position `j` of block `b`. */
  function EraseAt(bs: seq<Block>, b: nat, j: nat): (cs: seq<Block>)
    requires b < |bs| && j < |bs[b]|
    ensures |cs| == |bs| && |cs[b]| == |bs[b]| - 1
    ensures forall k :: 0 <= k < |bs| && k != b ==> cs[k] == bs[k]
    ensures forall q :: 0 <= q < |cs[b]| ==> cs[b][q] == bs[b][if q < j then q else q + 1]
  {
    bs[b := bs[b][..j] + bs[b][j + 1..]]
  }

  /** One fold of the pass: the uses of the instruction at (b, j) are
      redirected to `r`, then the instruction is erased. */
  function Fold(bs: seq<Block>, b: nat, j: nat, r: Value): (cs: seq<Block>)
    requires b < |bs| && j < |bs[b]|
    ensures |cs| == |bs| && |cs[b]| == |bs[b]| - 1
    ensures forall k :: 0 <= k < |bs| && k != b ==> |cs[k]| == |bs[k]|
  {
    EraseAt(ReplaceAllUses(bs, bs[b][j].id, r), b, j)
  }

  lemma FoldAt(bs: seq<Block>, b: nat, j: nat, r: Value, k: nat, q: nat)
    requires b < |bs| && j < |bs[b]| && k < |bs|
    requires q < |Fold(bs, b, j, r)[k]|
    ensures Fold(bs, b, j, r)[k][q]
         == RedirectInstr(bs[k][if k == b && q >= j then q + 1 else q], {bs[b][j].id}, r)
  {
  }

  // ---------------------------------------------------------------------
  // Well-formedness of a function's blocks

  /** No two instructions of the function share an id. */
  ghost predicate UniqueIds(bs: seq<Block>) {
    forall b1, p1, b2, p2 {:trigger bs[b1][p1].id, bs[b2][p2].id} ::
      (0 <= b1 < |bs| && 0 <= p1 < |bs[b1]| && 0 <= b2 < |bs| && 0 <= p2 < |bs[b2]|
       && bs[b1][p1].id == bs[b2][p2].id) ==> b1 == b2 && p1 == p2
  }

  /** Ids increase along every block (a numbering in dominance order). */
  ghost predicate IncreasingIds(bs: seq<Block>) {
    forall b, p, q :: 0 <= b < |bs| && 0 <= p < q < |bs[b]| ==> bs[b][p].id < bs[b][q].id
  }

  /** `kids[a]` lists the blocks that block `a` immediately dominates; every
      id of a block is smaller than every id of the blocks it dominates. */
  ghost predicate DomOrdered(bs: seq<Block>, kids: seq<seq<nat>>) {
    && |kids| == |bs|
    && (forall a, k :: 0 <= a < |kids| && 0 <= k < |kids[a]| ==> kids[a][k] < |bs| && kids[a][k] != a)
    && (forall a, k, p, q ::
          0 <= a < |kids| && 0 <= k < |kids[a]| && kids[a][k] < |bs|
          && 0 <= p < |bs[a]| && 0 <= q < |bs[kids[a][k]]|
          ==> bs[a][p].id < bs[kids[a][k]][q].id)
  }

  /** Loads have one operand (the address), stores two (value, address);
      outside PHIs, an operand is defined before its user (smaller id). */
  ghost predicate LocalOk(i: Instr) {
    && (i.op.Load? ==> |i.operands| == 1)
    && (i.op.Store? ==> |i.operands| == 2)
    && (!i.op.PHI? ==> forall k :: 0 <= k < |i.operands| && i.operands[k].InstRef? ==> i.operands[k].id < i.id)
  }

  /** Some instruction of the function with this id and type defines a value
      (a store defines none). */
  ghost predicate DefinedAs(bs: seq<Block>, id: nat, ty: TypeId) {
    exists b, p :: 0 <= b < |bs| && 0 <= p < |bs[b]|
      && bs[b][p].id == id && bs[b][p].ty == ty && !bs[b][p].op.Store?
  }

  /** No dangling uses: every operand naming an instruction names one that
      is still in the function. */
  ghost predicate Closed(bs: seq<Block>) {
    forall b, p, k :: 0 <= b < |bs| && 0 <= p < |bs[b]| && 0 <= k < |bs[b][p].operands|
      && bs[b][p].operands[k].InstRef?
      ==> DefinedAs(bs, bs[b][p].operands[k].id, bs[b][p].operands[k].ty)
  }

  ghost predicate WF(bs: seq<Block>, kids: seq<seq<nat>>) {
    && UniqueIds(bs)
    && IncreasingIds(bs)
    && DomOrdered(bs, kids)
    && (forall b, p :: 0 <= b < |bs| && 0 <= p < |bs[b]| ==> LocalOk(bs[b][p]))
    && Closed(bs)
  }

  /** What redirecting the uses of `x` to `r` needs: the same type, and if
      `r` is an instruction, one that exists, defines a value and comes
      before `x` in dominance order. */
  ghost predicate ReplacementOk(bs: seq<Block>, x: Instr, r: Value) {
    r.ty == x.ty && (r.InstRef? ==> r.id < x.id && DefinedAs(bs, r.id, r.ty))
  }

  // ---------------------------------------------------------------------
  // Instructions kept by an edit

  /** The operand-less instructions of a block. */
  ghost function Skels(s: Block): set<Instr> {
    set y | y in s :: Skel(y)
  }

  ghost function TerminatorSkels(s: Block): set<Instr> {
    set y | y in s && IsTerminator(y.op) :: Skel(y)
  }

  /** `cs` only lost instructions of `bs` (and rewired operands): no
      instruction was created or moved to another block, and what survives
      keeps its id, opcode, type and flags. */
  ghost predicate Retained(bs: seq<Block>, cs: seq<Block>) {
    |cs| == |bs| && forall k :: 0 <= k < |bs| ==> Skels(cs[k]) <= Skels(bs[k])
  }

  /** Every terminator of `bs` is still in its block in `cs`. */
  ghost predicate TerminatorsKept(bs: seq<Block>, cs: seq<Block>) {
    |cs| == |bs| && forall k :: 0 <= k < |bs| ==> TerminatorSkels(bs[k]) <= Skels(cs[k])
  }

  lemma RetainedTrans(a: seq<Block>, b: seq<Block>, c: seq<Block>)
    requires Retained(a, b) && Retained(b, c)
    ensures Retained(a, c)
  {
  }

  lemma TerminatorsKeptTrans(a: seq<Block>, b: seq<Block>, c: seq<Block>)
    requires Retained(a, b) && TerminatorsKept(a, b) && TerminatorsKept(b, c)
    ensures TerminatorsKept(a, c)
  {
    forall k | 0 <= k < |a| ensures TerminatorSkels(a[k]) <= Skels(c[k]) {
      forall t | t in TerminatorSkels(a[k]) ensures t in Skels(c[k]) {
        var y :| y in a[k] && IsTerminator(y.op) && t == Skel(y);
        assert t in Skels(b[k]);
        var z :| z in b[k] && t == Skel(z);
        assert z.op == y.op;
        assert t in TerminatorSkels(b[k]);
      }
    }
  }

  // ---------------------------------------------------------------------
  // One fold keeps the function well formed

  lemma DefinedAfterFold(bs: seq<Block>, b: nat, j: nat, r: Value, id: nat, ty: TypeId)
    requires b < |bs| && j < |bs[b]|
    requires DefinedAs(bs, id, ty) && id != bs[b][j].id
    ensures DefinedAs(Fold(bs, b, j, r), id, ty)
  {
    var cs: seq<Block> := Fold(bs, b, j, r);
    var b': nat, p': nat :| 0 <= b' < |bs| && 0 <= p' < |bs[b']|
      && bs[b'][p'].id == id && bs[b'][p'].ty == ty && !bs[b'][p'].op.Store?;
    var q: nat := if b' == b && p' > j then p' - 1 else p';
    FoldAt(bs, b, j, r, b', q);
    assert cs[b'][q].id == id && cs[b'][q].ty == ty && !cs[b'][q].op.Store?;
  }

  /** A fold keeps every other instruction's id, shifting the ones after
      the erased position down by one. */
  lemma FoldIds(bs: seq<Block>, b: nat, j: nat, r: Value)
    requires b < |bs| && j < |bs[b]|
    ensures forall k, q :: 0 <= k < |bs| && 0 <= q < |Fold(bs, b, j, r)[k]|
              ==> Fold(bs, b, j, r)[k][q].id == bs[k][if k == b && q >= j then q + 1 else q].id
  {
    forall k, q | 0 <= k < |bs| && 0 <= q < |Fold(bs, b, j, r)[k]|
      ensures Fold(bs, b, j, r)[k][q].id == bs[k][if k == b && q >= j then q + 1 else q].id
    {
      FoldAt(bs, b, j, r, k, q);
    }
  }

  lemma FoldKeepsUnique(bs: seq<Block>, b: nat, j: nat, r: Value)
    requires UniqueIds(bs) && b < |bs| && j < |bs[b]|
    ensures UniqueIds(Fold(bs, b, j, r))
  {
    FoldIds(bs, b, j, r);
  }

  lemma FoldKeepsIncreasing(bs: seq<Block>, b: nat, j: nat, r: Value)
    requires IncreasingIds(bs) && b < |bs| && j < |bs[b]|
    ensures IncreasingIds(Fold(bs, b, j, r))
  {
    FoldIds(bs, b, j, r);
  }

  lemma FoldKeepsDomOrdered(bs: seq<Block>, kids: seq<seq<nat>>, b: nat, j: nat, r: Value)
    requires DomOrdered(bs, kids) && b < |bs| && j < |bs[b]|
    ensures DomOrdered(Fold(bs, b, j, r), kids)
  {
    FoldIds(bs, b, j, r);
  }

  lemma FoldKeepsLocal(bs: seq<Block>, kids: seq<seq<nat>>, b: nat, j: nat, r: Value)
    requires WF(bs, kids) && b < |bs| && j < |bs[b]|
    requires ReplacementOk(bs, bs[b][j], r)
    ensures forall k, q :: 0 <= k < |Fold(bs, b, j, r)| && 0 <= q < |Fold(bs, b, j, r)[k]|
              ==> LocalOk(Fold(bs, b, j, r)[k][q])
  {
    var x: Instr := bs[b][j];
    var cs: seq<Block> := Fold(bs, b, j, r);
    forall k, q | 0 <= k < |cs| && 0 <= q < |cs[k]| ensures LocalOk(cs[k][q]) {
      var y := bs[k][if k == b && q >= j then q + 1 else q];
      FoldAt(bs, b, j, r, k, q);
      assert cs[k][q] == RedirectInstr(y, {x.id}, r);
      assert LocalOk(y);
    }
  }

  lemma FoldKeepsClosed(bs: seq<Block>, kids: seq<seq<nat>>, b: nat, j: nat, r: Value)
    requires WF(bs, kids) && b < |bs| && j < |bs[b]|
    requires ReplacementOk(bs, bs[b][j], r)
    ensures Closed(Fold(bs, b, j, r))
  {
    var x: Instr := bs[b][j];
    var cs: seq<Block> := Fold(bs, b, j, r);
    forall k, q, i | 0 <= k < |cs| && 0 <= q < |cs[k]| && 0 <= i < |cs[k][q].operands|
      && cs[k][q].operands[i].InstRef?
      ensures DefinedAs(cs, cs[k][q].operands[i].id, cs[k][q].operands[i].ty)
    {
      var q0 := if k == b && q >= j then q + 1 else q;
      FoldAt(bs, b, j, r, k, q);
      var v := bs[k][q0].operands[i];
      assert cs[k][q].operands[i] == Redirect(v, {x.id}, r);
      if v.id == x.id {
        DefinedAfterFold(bs, b, j, r, r.id, r.ty);
      } else {
        assert DefinedAs(bs, v.id, v.ty);
        DefinedAfterFold(bs, b, j, r, v.id, v.ty);
      }
    }
  }

  lemma FoldRetains(bs: seq<Block>, b: nat, j: nat, r: Value)
    requires b < |bs| && j < |bs[b]|
    ensures Retained(bs, Fold(bs, b, j, r))
  {
    var cs: seq<Block> := Fold(bs, b, j, r);
    forall k | 0 <= k < |bs| ensures Skels(cs[k]) <= Skels(bs[k]) {
      forall t | t in Skels(cs[k]) ensures t in Skels(bs[k]) {
        var y :| y in cs[k] && t == Skel(y);
        var q :| 0 <= q < |cs[k]| && cs[k][q] == y;
        var q0 := if k == b && q >= j then q + 1 else q;
        FoldAt(bs, b, j, r, k, q);
        assert Skel(y) == Skel(bs[k][q0]);
      }
    }
  }

  /** Every instruction but the folded one survives a fold, in its block. */
  lemma FoldKeepsOthers(bs: seq<Block>, b: nat, j: nat, r: Value, k: nat, q0: nat)
    requires b < |bs| && j < |bs[b]| && k < |bs| && q0 < |bs[k]| && (k != b || q0 != j)
    ensures Skel(bs[k][q0]) in Skels(Fold(bs, b, j, r)[k])
  {
    var q := if k == b && q0 > j then q0 - 1 else q0;
    FoldAt(bs, b, j, r, k, q);
    var y := Fold(bs, b, j, r)[k][q];
    assert y in Fold(bs, b, j, r)[k];
  }

  lemma FoldKeepsTerminators(bs: seq<Block>, b: nat, j: nat, r: Value)
    requires b < |bs| && j < |bs[b]| && !IsTerminator(bs[b][j].op)
    ensures TerminatorsKept(bs, Fold(bs, b, j, r))
  {
    var cs: seq<Block> := Fold(bs, b, j, r);
    forall k | 0 <= k < |bs| ensures TerminatorSkels(bs[k]) <= Skels(cs[k]) {
      forall t | t in TerminatorSkels(bs[k]) ensures t in Skels(cs[k]) {
        var y :| y in bs[k] && IsTerminator(y.op) && t == Skel(y);
        var q0 :| 0 <= q0 < |bs[k]| && bs[k][q0] == y;
        FoldKeepsOthers(bs, b, j, r, k, q0);
      }
    }
  }

  lemma FoldLeavesNoUses(bs: seq<Block>, kids: seq<seq<nat>>, b: nat, j: nat, r: Value)
    requires WF(bs, kids) && b < |bs| && j < |bs[b]|
    requires ReplacementOk(bs, bs[b][j], r)
    ensures !HasUses(Fold(bs, b, j, r), bs[b][j].id)
  {
    var x: Instr := bs[b][j];
    var cs: seq<Block> := Fold(bs, b, j, r);
    forall k, q | 0 <= k < |cs| && 0 <= q < |cs[k]| ensures !Mentions(cs[k][q], x.id) {
      var q0 := if k == b && q >= j then q + 1 else q;
      FoldAt(bs, b, j, r, k, q);
      var y := bs[k][q0];
      forall i | 0 <= i < |y.operands| ensures !Names(Redirect(y.operands[i], {x.id}, r), x.id) {
      }
    }
  }

  /** Redirecting the uses of the instruction at (b, j) to an acceptable
      replacement and erasing it keeps the function well formed, creates
      no instruction, and leaves no operand naming it (`FoldLoses` says it
      loses nothing else). */
  lemma FoldKeepsWF(bs: seq<Block>, kids: seq<seq<nat>>, b: nat, j: nat, r: Value)
    requires WF(bs, kids) && b < |bs| && j < |bs[b]|
    requires ReplacementOk(bs, bs[b][j], r)
    ensures WF(Fold(bs, b, j, r), kids)
    ensures Retained(bs, Fold(bs, b, j, r))
    ensures !IsTerminator(bs[b][j].op) ==> TerminatorsKept(bs, Fold(bs, b, j, r))
    ensures !HasUses(Fold(bs, b, j, r), bs[b][j].id)
  {
    FoldKeepsUnique(bs, b, j, r);
    FoldKeepsIncreasing(bs, b, j, r);
    FoldKeepsDomOrdered(bs, kids, b, j, r);
    FoldKeepsLocal(bs, kids, b, j, r);
    FoldKeepsClosed(bs, kids, b, j, r);
    FoldRetains(bs, b, j, r);
    if !IsTerminator(bs[b][j].op) {
      FoldKeepsTerminators(bs, b, j, r);
    }
    FoldLeavesNoUses(bs, kids, b, j, r);
  }

  /** Erasing an instruction nobody uses is a fold towards any value. */
  lemma EraseUnusedIsFold(bs: seq<Block>, b: nat, j: nat, r: Value)
    requires b < |bs| && j < |bs[b]| && !HasUses(bs, bs[b][j].id)
    ensures EraseAt(bs, b, j) == Fold(bs, b, j, r)
  {
    var x := bs[b][j];
    forall k | 0 <= k < |bs| ensures RedirectBlock(bs[k], {x.id}, r) == bs[k] {
      forall q | 0 <= q < |bs[k]| ensures RedirectInstr(bs[k][q], {x.id}, r) == bs[k][q] {
        assert !Mentions(bs[k][q], x.id);
        assert RedirectInstr(bs[k][q], {x.id}, r).operands == bs[k][q].operands;
      }
    }
    assert ReplaceAllUses(bs, x.id, r) == bs;
  }

  /** Erasing an unused instruction keeps the function well formed. */
  lemma EraseUnusedKeepsWF(bs: seq<Block>, kids: seq<seq<nat>>, b: nat, j: nat)
    requires WF(bs, kids) && b < |bs| && j < |bs[b]| && !HasUses(bs, bs[b][j].id)
    ensures WF(EraseAt(bs, b, j), kids) && Retained(bs, EraseAt(bs, b, j))
    ensures !IsTerminator(bs[b][j].op) ==> TerminatorsKept(bs, EraseAt(bs, b, j))
  {
    var r := Const(0, bs[b][j].ty);
    EraseUnusedIsFold(bs, b, j, r);
    FoldKeepsWF(bs, kids, b, j, r);
  }

  /** A store defines no value, so in a well-formed function nothing uses it. */
  lemma StoreIsUnused(bs: seq<Block>, kids: seq<seq<nat>>, b: nat, j: nat)
    requires WF(bs, kids) && b < |bs| && j < |bs[b]| && bs[b][j].op.Store?
    ensures !HasUses(bs, bs[b][j].id)
  {
    var x := bs[b][j];
    forall k, q, i | 0 <= k < |bs| && 0 <= q < |bs[k]| && 0 <= i < |bs[k][q].operands|
      && bs[k][q].operands[i].InstRef?
      ensures bs[k][q].operands[i].id != x.id
    {
      var v := bs[k][q].operands[i];
      assert DefinedAs(bs, v.id, v.ty);
      var b': nat, p': nat :| 0 <= b' < |bs| && 0 <= p' < |bs[b']|
        && bs[b'][p'].id == v.id && bs[b'][p'].ty == v.ty && !bs[b'][p'].op.Store?;
      assert b' != b || p' != j;
    }
  }

  // ---------------------------------------------------------------------
  // What stays in place and what goes

  /** The first `n` instructions of block `k` of `cs` are those of `bs`, in
      order, up to their operands. */
  ghost predicate KeptPrefix(bs: seq<Block>, cs: seq<Block>, k: nat, n: nat) {
    && k < |bs| && k < |cs| && n <= |bs[k]| && n <= |cs[k]|
    && forall q :: 0 <= q < n ==> Skel(cs[k][q]) == Skel(bs[k][q])
  }

  /** `cs` holds every instruction of `bs` in place, up to its operands,
      except from position `j` of block `blk` on. */
  ghost predicate SameBefore(bs: seq<Block>, cs: seq<Block>, blk: nat, j: nat) {
    |cs| == |bs| && forall k :: 0 <= k < |bs| ==> KeptPrefix(bs, cs, k, if k == blk then j else |bs[k]|)
  }

  lemma SameBeforeTrans(a: seq<Block>, b: seq<Block>, c: seq<Block>, blk: nat, j: nat)
    requires SameBefore(a, b, blk, j) && SameBefore(b, c, blk, j)
    ensures SameBefore(a, c, blk, j)
  {
    forall k | 0 <= k < |a| ensures KeptPrefix(a, c, k, if k == blk then j else |a[k]|) {
      assert KeptPrefix(a, b, k, if k == blk then j else |a[k]|);
      assert KeptPrefix(b, c, k, if k == blk then j else |b[k]|);
    }
  }

  lemma SameBeforeLess(a: seq<Block>, c: seq<Block>, blk: nat, j: nat, j': nat)
    requires SameBefore(a, c, blk, j') && j <= j'
    ensures SameBefore(a, c, blk, j)
  {
    forall k | 0 <= k < |a| ensures KeptPrefix(a, c, k, if k == blk then j else |a[k]|) {
      assert KeptPrefix(a, c, k, if k == blk then j' else |a[k]|);
    }
  }

  /** A fold at (b, j) leaves everything before it, and every other block,
      in place. */
  lemma FoldSameBefore(bs: seq<Block>, b: nat, j: nat, r: Value)
    requires b < |bs| && j < |bs[b]|
    ensures SameBefore(bs, Fold(bs, b, j, r), b, j)
  {
    var cs := Fold(bs, b, j, r);
    forall k | 0 <= k < |bs| ensures KeptPrefix(bs, cs, k, if k == b then j else |bs[k]|) {
      forall q | 0 <= q < (if k == b then j else |bs[k]|) ensures Skel(cs[k][q]) == Skel(bs[k][q]) {
        FoldAt(bs, b, j, r, k, q);
      }
    }
  }

  /** So does erasing the instruction at (b, j). */
  lemma EraseSameBefore(bs: seq<Block>, b: nat, j: nat)
    requires b < |bs| && j < |bs[b]|
    ensures SameBefore(bs, EraseAt(bs, b, j), b, j)
  {
    var cs := EraseAt(bs, b, j);
    forall k | 0 <= k < |bs| ensures KeptPrefix(bs, cs, k, if k == b then j else |bs[k]|) {
      if k != b {
        assert cs[k] == bs[k];
      }
    }
  }

  /** The only instruction a fold at (b, j) can lose is the folded one, and
      when ids are unique it does lose it. */
  lemma FoldLoses(bs: seq<Block>, b: nat, j: nat, r: Value)
    requires b < |bs| && j < |bs[b]|
    ensures forall k, q :: 0 <= k < |bs| && 0 <= q < |bs[k]| && Skel(bs[k][q]) !in Skels(Fold(bs, b, j, r)[k])
              ==> k == b && q == j
    ensures UniqueIds(bs) ==> Skel(bs[b][j]) !in Skels(Fold(bs, b, j, r)[b])
  {
    var cs := Fold(bs, b, j, r);
    forall k, q0 | 0 <= k < |bs| && 0 <= q0 < |bs[k]| && (k != b || q0 != j) ensures Skel(bs[k][q0]) in Skels(cs[k]) {
      FoldKeepsOthers(bs, b, j, r, k, q0);
    }
    if UniqueIds(bs) {
      forall q | 0 <= q < |cs[b]| ensures cs[b][q].id != bs[b][j].id {
        FoldAt(bs, b, j, r, b, q);
        assert cs[b][q].id == bs[b][if q >= j then q + 1 else q].id;
      }
    }
  }

  /** The same for erasing the instruction at (b, j). */
  lemma EraseLoses(bs: seq<Block>, b: nat, j: nat)
    requires b < |bs| && j < |bs[b]|
    ensures forall k, q :: 0 <= k < |bs| && 0 <= q < |bs[k]| && Skel(bs[k][q]) !in Skels(EraseAt(bs, b, j)[k])
              ==> k == b && q == j
    ensures UniqueIds(bs) ==> Skel(bs[b][j]) !in Skels(EraseAt(bs, b, j)[b])
  {
    var cs := EraseAt(bs, b, j);
    forall k, q0 | 0 <= k < |bs| && 0 <= q0 < |bs[k]| && (k != b || q0 != j) ensures Skel(bs[k][q0]) in Skels(cs[k]) {
      var q := if k == b && q0 > j then q0 - 1 else q0;
      assert cs[k][q] == bs[k][q0];
    }
    if UniqueIds(bs) {
      forall q | 0 <= q < |cs[b]| ensures cs[b][q].id != bs[b][j].id {
        assert cs[b][q].id == bs[b][if q < j then q else q + 1].id;
      }
    }
  }
}
