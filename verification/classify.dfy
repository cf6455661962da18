/** The two opcode tests of the pass: which unused instructions may be
    deleted outright, and which instructions may be merged with an
    identical one. */
module Classify {
  import opened IR

  /** The opcodes whose unused instructions are deleted: arithmetic, logic,
      GEP, casts, compares, PHI, select and the vector and aggregate
      operations. Loads and allocas are deliberately absent. */
  predicate DeadOpcode(op: Opcode) {
    match op
    case Add | FNeg | FAdd | Sub | FSub | Mul | FMul | UDiv | SDiv | FDiv
       | URem | SRem | FRem | Shl | LShr | AShr | And | Or | Xor => true
    case GetElementPtr => true
    case Trunc | ZExt | SExt | FPToUI | FPToSI | UIToFP | SIToFP | FPTrunc | FPExt
       | PtrToInt | IntToPtr | BitCast | AddrSpaceCast => true
    case ICmp | FCmp | PHI | Select => true
    case ExtractElement | InsertElement | ShuffleVector | ExtractValue | InsertValue => true
    case _ => false
  }

  /** `isDead`: the instruction has no use and its opcode is in the list. */
  predicate IsDead(bs: seq<Block>, x: Instr)
    ensures IsDead(bs, x) ==> !HasUses(bs, x.id)
    ensures IsDead(bs, x) ==>
              !x.op.Load? && !x.op.Store? && !x.op.Alloca? && !x.op.Call? && !x.op.VAArg? && !IsTerminator(x.op)
  {
    !HasUses(bs, x.id) && DeadOpcode(x.op)
  }

  /** `isValidForCSE`: everything except loads, stores, FCmp, allocas,
      va_arg, calls and terminators. */
  predicate ValidForCSE(x: Instr)
    ensures ValidForCSE(x) ==> !x.op.Load? && !x.op.Store? && !x.op.Call? && !IsTerminator(x.op)
    ensures DeadOpcode(x.op) && !x.op.FCmp? ==> ValidForCSE(x)
  {
    !(x.op.Load? || x.op.Store? || x.op.FCmp? || x.op.Alloca? || x.op.VAArg? || x.op.Call?
      || IsTerminator(x.op))
  }

  /** An instruction `isDead` finds can be erased on the spot: the function
      stays well formed, no instruction is created, every terminator stays
      (`EraseLoses` says nothing else is lost). */
  lemma DeadErasureIsSafe(bs: seq<Block>, kids: seq<seq<nat>>, b: nat, p: nat)
    requires WF(bs, kids) && b < |bs| && p < |bs[b]| && IsDead(bs, bs[b][p])
    ensures WF(EraseAt(bs, b, p), kids)
    ensures Retained(bs, EraseAt(bs, b, p)) && TerminatorsKept(bs, EraseAt(bs, b, p))
  {
    EraseUnusedKeepsWF(bs, kids, b, p);
  }
}
