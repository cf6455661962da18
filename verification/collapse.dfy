/** A reference description of what a run of folds does to a function, all
    at once: the instructions whose ids are in `gone` disappear, and every
    operand that named one of them names `r` instead. The scans of the pass
    fold one instruction at a time; the lemmas here say that a sequence of
    such folds towards the same value is one collapse. */
module Collapsing {
  import opened IR

  /** The block without the instructions whose ids are in `gone`, in order. */
  function Keep(s: Block, gone: set<nat>): (t: Block)
    ensures |t| <= |s|
  {
    if s == [] then []
    else (if s[0].id in gone then [] else [s[0]]) + Keep(s[1..], gone)
  }

  /** `Keep` keeps exactly the instructions whose ids are not in `gone`. */
  lemma {:induction false} KeepMembers(s: Block, gone: set<nat>)
    ensures forall y :: y in Keep(s, gone) <==> y in s && y.id !in gone
  {
    if s != [] {
      KeepMembers(s[1..], gone);
      assert forall y :: y in s <==> y == s[0] || y in s[1..];
    }
  }

  ghost function Collapse(bs: seq<Block>, gone: set<nat>, r: Value): (cs: seq<Block>)
    ensures |cs| == |bs|
  {
    seq(|bs|, k requires 0 <= k < |bs| => RedirectBlock(Keep(bs[k], gone), gone, r))
  }

  lemma RedirectBlockTail(s: Block, gone: set<nat>, r: Value)
    requires s != []
    ensures RedirectBlock(s, gone, r) == [RedirectInstr(s[0], gone, r)] + RedirectBlock(s[1..], gone, r)
  {
  }

  lemma RedirectNothing(s: Block, r: Value)
    ensures RedirectBlock(s, {}, r) == s
  {
    forall q | 0 <= q < |s| ensures RedirectInstr(s[q], {}, r) == s[q] {
      assert RedirectInstr(s[q], {}, r).operands == s[q].operands;
    }
  }

  lemma {:induction false} KeepNothing(s: Block)
    ensures Keep(s, {}) == s
  {
    if s != [] {
      KeepNothing(s[1..]);
    }
  }

  lemma CollapseNothing(bs: seq<Block>, r: Value)
    ensures Collapse(bs, {}, r) == bs
  {
    forall k | 0 <= k < |bs| ensures Collapse(bs, {}, r)[k] == bs[k] {
      KeepNothing(bs[k]);
      RedirectNothing(bs[k], r);
    }
  }

  lemma {:induction false} KeepAbsent(s: Block, gone: set<nat>)
    requires forall q :: 0 <= q < |s| ==> s[q].id !in gone
    ensures Keep(s, gone) == s
  {
    if s != [] {
      KeepAbsent(s[1..], gone);
    }
  }

  lemma {:induction false} KeepOne(s: Block, j: nat)
    requires j < |s|
    requires forall q :: 0 <= q < |s| && q != j ==> s[q].id != s[j].id
    ensures Keep(s, {s[j].id}) == s[..j] + s[j + 1..]
  {
    if j == 0 {
      KeepAbsent(s[1..], {s[0].id});
    } else {
      KeepOne(s[1..], j - 1);
      assert s[1..][..j - 1] + s[1..][j..] == s[1..j] + s[j + 1..];
      assert s[..j] + s[j + 1..] == [s[0]] + (s[1..j] + s[j + 1..]);
    }
  }

  lemma {:induction false} KeepKeep(s: Block, d1: set<nat>, d2: set<nat>)
    ensures Keep(Keep(s, d1), d2) == Keep(s, d1 + d2)
  {
    if s != [] {
      KeepKeep(s[1..], d1, d2);
      var rest := Keep(s[1..], d1);
      if s[0].id in d1 {
        assert Keep(s, d1) == rest;
      } else {
        assert Keep(s, d1) == [s[0]] + rest;
        assert ([s[0]] + rest)[1..] == rest;
      }
    }
  }

  lemma {:induction false} KeepRedirect(s: Block, d: set<nat>, e: set<nat>, r: Value)
    ensures Keep(RedirectBlock(s, d, r), e) == RedirectBlock(Keep(s, e), d, r)
  {
    if s != [] {
      RedirectBlockTail(s, d, r);
      KeepRedirect(s[1..], d, e, r);
      var t := RedirectBlock(s, d, r);
      assert t[1..] == RedirectBlock(s[1..], d, r);
      var rest := Keep(s[1..], e);
      if s[0].id in e {
        assert Keep(s, e) == rest;
      } else {
        assert Keep(s, e) == [s[0]] + rest;
        RedirectBlockTail([s[0]] + rest, d, r);
        assert ([s[0]] + rest)[1..] == rest;
      }
    }
  }

  lemma RedirectRedirect(s: Block, d1: set<nat>, d2: set<nat>, r: Value)
    ensures RedirectBlock(RedirectBlock(s, d1, r), d2, r) == RedirectBlock(s, d1 + d2, r)
  {
    forall q | 0 <= q < |s|
      ensures RedirectInstr(RedirectInstr(s[q], d1, r), d2, r) == RedirectInstr(s[q], d1 + d2, r)
    {
      assert RedirectInstr(RedirectInstr(s[q], d1, r), d2, r).operands == RedirectInstr(s[q], d1 + d2, r).operands;
    }
  }

  /** Two collapses towards the same value are one collapse. */
  lemma CollapseCompose(bs: seq<Block>, d1: set<nat>, d2: set<nat>, r: Value)
    ensures Collapse(Collapse(bs, d1, r), d2, r) == Collapse(bs, d1 + d2, r)
  {
    forall k | 0 <= k < |bs|
      ensures Collapse(Collapse(bs, d1, r), d2, r)[k] == Collapse(bs, d1 + d2, r)[k]
    {
      var s := bs[k];
      KeepRedirect(Keep(s, d1), d1, d2, r);
      KeepKeep(s, d1, d2);
      RedirectRedirect(Keep(Keep(s, d1), d2), d1, d2, r);
    }
  }

  /** A single fold is the collapse of the folded instruction. */
  lemma FoldIsCollapse(bs: seq<Block>, b: nat, j: nat, r: Value)
    requires UniqueIds(bs) && b < |bs| && j < |bs[b]|
    ensures Fold(bs, b, j, r) == Collapse(bs, {bs[b][j].id}, r)
  {
    var x := bs[b][j];
    forall k | 0 <= k < |bs| ensures Fold(bs, b, j, r)[k] == Collapse(bs, {x.id}, r)[k] {
      if k == b {
        KeepOne(bs[b], j);
        var t := RedirectBlock(bs[b], {x.id}, r);
        assert Fold(bs, b, j, r)[b] == t[..j] + t[j + 1..];
      } else {
        KeepAbsent(bs[k], {x.id});
      }
    }
  }

  lemma {:induction false} KeepAppend(s: Block, t: Block, gone: set<nat>)
    ensures Keep(s + t, gone) == Keep(s, gone) + Keep(t, gone)
  {
    if s == [] {
      assert s + t == t;
    } else {
      var h: Block := if s[0].id in gone then [] else [s[0]];
      assert (s + t)[0] == s[0] && (s + t)[1..] == s[1..] + t;
      assert Keep(s + t, gone) == h + Keep(s[1..] + t, gone);
      KeepAppend(s[1..], t, gone);
      assert h + (Keep(s[1..], gone) + Keep(t, gone)) == (h + Keep(s[1..], gone)) + Keep(t, gone);
    }
  }

  lemma RedirectAppend(s: Block, t: Block, gone: set<nat>, r: Value)
    ensures RedirectBlock(s + t, gone, r) == RedirectBlock(s, gone, r) + RedirectBlock(t, gone, r)
  {
  }

  /** A collapse creates no ids: every instruction it leaves in a block
      carries the id of one the block had. */
  lemma CollapseIdsFrom(bs: seq<Block>, gone: set<nat>, r: Value, k: nat, q: nat)
    requires k < |bs| && q < |Collapse(bs, gone, r)[k]|
    ensures exists q0 :: 0 <= q0 < |bs[k]| && bs[k][q0].id == Collapse(bs, gone, r)[k][q].id
  {
    var t := Keep(bs[k], gone);
    KeepMembers(bs[k], gone);
    assert Collapse(bs, gone, r)[k] == RedirectBlock(t, gone, r);
    assert t[q] in t;
    var q0 :| 0 <= q0 < |bs[k]| && bs[k][q0] == t[q];
  }

  /** When nothing from position `from` of block `k` on is collapsed, that
      part of the block survives whole and in place at the end of the
      block; only its operands that named a collapsed instruction change. */
  lemma CollapseKeepsSuffix(bs: seq<Block>, gone: set<nat>, r: Value, k: nat, from: nat)
    requires k < |bs| && from <= |bs[k]|
    requires forall q :: from <= q < |bs[k]| ==> bs[k][q].id !in gone
    ensures Collapse(bs, gone, r)[k]
         == RedirectBlock(Keep(bs[k][..from], gone), gone, r) + RedirectBlock(bs[k][from..], gone, r)
  {
    var s := bs[k];
    assert s == s[..from] + s[from..];
    KeepAppend(s[..from], s[from..], gone);
    KeepAbsent(s[from..], gone);
    RedirectAppend(Keep(s[..from], gone), s[from..], gone, r);
  }

  /** `c`'s operands name none of `gone` and none is `r`: rewriting towards
      `r` cannot change whether an instruction is identical to `c`. */
  predicate Avoids(c: Instr, gone: set<nat>, r: Value) {
    forall k :: 0 <= k < |c.operands| ==> !NamesOneOf(c.operands[k], gone) && c.operands[k] != r
  }

  lemma RedirectInstrNoop(i: Instr, gone: set<nat>, r: Value)
    requires forall k :: 0 <= k < |i.operands| ==> !NamesOneOf(i.operands[k], gone)
    ensures RedirectInstr(i, gone, r) == i
  {
    assert RedirectInstr(i, gone, r).operands == i.operands;
  }

  lemma IdenticalUnderRedirect(y: Instr, c: Instr, gone: set<nat>, r: Value)
    requires Avoids(c, gone, r)
    ensures Identical(RedirectInstr(y, gone, r), c) == Identical(y, c)
  {
    var y' := RedirectInstr(y, gone, r);
    if Identical(y, c) {
      RedirectInstrNoop(y, gone, r);
    }
    if Identical(y', c) {
      forall k | 0 <= k < |y.operands| ensures y.operands[k] == c.operands[k] {
        assert y'.operands[k] == Redirect(y.operands[k], gone, r);
      }
      assert y.operands == c.operands;
    }
  }

  /** A non-PHI instruction's operands are defined before it, so they avoid
      every later id and the instruction's own value. */
  lemma AvoidsLater(c: Instr, gone: set<nat>)
    requires LocalOk(c) && !c.op.PHI?
    requires forall d :: d in gone ==> d > c.id
    ensures Avoids(c, gone, Ref(c))
  {
  }
}
