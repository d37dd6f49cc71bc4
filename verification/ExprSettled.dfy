/**
 * Where expr_eliminate_dups stops (kconfig/expr.c:502-634): exactly where no two operands
 * of a chain join and none of them excludes another operand or group of operands.
 */
module ExprSettled {
  import opened KconfigExpr
  import opened ExprEquality
  import opened ExprJoin
  import opened ExprRegion
  import opened ExprExtract
  import opened ExprDups
  import opened ExprDupsSound

  // ---- slots below slots

  /** There is nothing below a leaf of the region. */
  lemma {:induction false} LeafEnds(op: Op, e: Expr, p: Slot, p': Slot)
    requires RegionLeaf(op, e, p) && InRegion(op, e, p') && p <= p'
    ensures p' == p
  {
    if p == [] {
    } else {
      LeafEnds(op, Child(e, p[0]), p[1..], p'[1..]);
    }
  }

  /** Below an inner node there are the node itself and what is below its two operands. */
  lemma BelowNode(op: Op, e: Expr, p: Slot, p': Slot)
    requires InRegion(op, e, p) && IsOp(op, At(op, e, p)) && InRegion(op, e, p') && p <= p'
    ensures p' == p || p + [L] <= p' || p + [R] <= p'
  {
    if p' != p { assert p' == p + [p'[|p|]] + p'[|p| + 1..]; }
  }

  // ---- the first pass

  /** These two operands do not join, and neither do the operands below the first one. */
  ghost predicate Apart(op: Op, e: Expr, p: Slot, q: Slot)
    requires RegionLeaf(op, e, p) && RegionLeaf(op, e, q)
    decreases Size(e), 0
  {
    p != q ==>
      && Join(op, At(op, e, p), At(op, e, q)).None?
      && (p != [] && At(op, e, p).Bin? ==> AllApart(At(op, e, p).op, At(op, e, p)))
  }

  ghost predicate AllApart(op: Op, e: Expr)
    decreases Size(e), 1
  {
    forall p, q :: RegionLeaf(op, e, p) && RegionLeaf(op, e, q) ==> Apart(op, e, p, q)
  }

  ghost predicate ApartBelow(op: Op, e: Expr, p: Slot, q: Slot) {
    forall p', q' :: p <= p' && q <= q' && RegionLeaf(op, e, p') && RegionLeaf(op, e, q') ==> Apart(op, e, p', q')
  }

  lemma ApartSplit(op: Op, e: Expr, p: Slot, q: Slot)
    requires InRegion(op, e, p) && InRegion(op, e, q)
    ensures IsOp(op, At(op, e, p)) ==>
      (ApartBelow(op, e, p, q) <==> ApartBelow(op, e, p + [L], q) && ApartBelow(op, e, p + [R], q))
    ensures IsOp(op, At(op, e, q)) ==>
      (ApartBelow(op, e, p, q) <==> ApartBelow(op, e, p, q + [L]) && ApartBelow(op, e, p, q + [R]))
  {
    hide Apart, IsOp;
    if IsOp(op, At(op, e, p)) {
      forall p' | p <= p' && RegionLeaf(op, e, p') ensures p + [L] <= p' || p + [R] <= p' { BelowNode(op, e, p, p'); }
    }
    if IsOp(op, At(op, e, q)) {
      forall q' | q <= q' && RegionLeaf(op, e, q') ensures q + [L] <= q' || q + [R] <= q' { BelowNode(op, e, q, q'); }
    }
  }

  lemma ApartAtLeaves(op: Op, e: Expr, p: Slot, q: Slot)
    requires RegionLeaf(op, e, p) && RegionLeaf(op, e, q)
    ensures ApartBelow(op, e, p, q) <==> Apart(op, e, p, q)
  {
    hide Apart, IsOp;
    forall p' | p <= p' && RegionLeaf(op, e, p') ensures p' == p { LeafEnds(op, e, p, p'); }
    forall q' | q <= q' && RegionLeaf(op, e, q') ensures q' == q { LeafEnds(op, e, q, q'); }
  }

  lemma {:induction false} Dups1Exact(op: Op, e: Expr, p: Slot, q: Slot)
    requires InRegion(op, e, p) && InRegion(op, e, q)
    ensures Dups1(op, e, p, q).count == 0 <==> ApartBelow(op, e, p, q)
    decreases Bulk(e), RegionSize(op, At(op, e, p)) + RegionSize(op, At(op, e, q)), 1
  {
    hide Apart, ApartBelow;
    ApartSplit(op, e, p, q);
    if IsOp(op, At(op, e, p)) {
      ChildSlot(op, e, p, L);
      ChildSlot(op, e, p, R);
      Dups1Exact(op, e, p + [L], q);
      Dups1Exact(op, e, p + [R], q);
    } else if IsOp(op, At(op, e, q)) {
      ChildSlot(op, e, q, L);
      ChildSlot(op, e, q, R);
      Dups1Exact(op, e, p, q + [L]);
      Dups1Exact(op, e, p, q + [R]);
    } else {
      ApartAtLeaves(op, e, p, q);
      JoinLeavesExact(op, e, p, q);
    }
  }

  lemma {:induction false} JoinLeavesExact(op: Op, e: Expr, p: Slot, q: Slot)
    requires RegionLeaf(op, e, p) && RegionLeaf(op, e, q)
    ensures JoinLeaves(op, e, p, q).count == 0 <==> Apart(op, e, p, q)
    decreases Bulk(e), RegionSize(op, At(op, e, p)) + RegionSize(op, At(op, e, q)), 0
  {
    if p != q {
      var x := At(op, e, p);
      PutBulk(op, e, p, x);
      PutSame(op, e, p);
      if x.Bin? {
        Dups1Exact(x.op, x, [], []);
        assert AllApart(x.op, x) == ApartBelow(x.op, x, [], []);
      }
    }
  }

  // ---- the second pass

  /** The operand does not exclude what is in the other slot, and nothing below it does. */
  ghost predicate Admits(op: Op, e: Expr, p: Slot, q: Slot)
    requires RegionLeaf(op, e, p) && InRegion(op, e, q)
    decreases Size(e), 0
  {
    p != q && p != [] && At(op, e, p).Bin? ==>
      !Excludes(op, At(op, e, p), At(op, e, q)) && AllAdmit(At(op, e, p).op, At(op, e, p))
  }

  ghost predicate AllAdmit(op: Op, e: Expr)
    decreases Size(e), 1
  {
    forall p, q :: RegionLeaf(op, e, p) && InRegion(op, e, q) ==> Admits(op, e, p, q)
  }

  ghost predicate AdmitBelow(op: Op, e: Expr, p: Slot, q: Slot) {
    forall p', q' :: p <= p' && q <= q' && RegionLeaf(op, e, p') && InRegion(op, e, q') ==> Admits(op, e, p', q')
  }

  lemma AdmitSplit(op: Op, e: Expr, p: Slot, q: Slot)
    requires InRegion(op, e, p) && InRegion(op, e, q)
    ensures IsOp(op, At(op, e, p)) ==>
      (AdmitBelow(op, e, p, q) <==> AdmitBelow(op, e, p + [L], q) && AdmitBelow(op, e, p + [R], q))
    ensures RegionLeaf(op, e, p) && IsOp(op, At(op, e, q)) ==>
      (AdmitBelow(op, e, p, q) <==> Admits(op, e, p, q) && AdmitBelow(op, e, p, q + [L]) && AdmitBelow(op, e, p, q + [R]))
  {
    hide Admits, IsOp;
    if IsOp(op, At(op, e, p)) {
      forall p' | p <= p' && RegionLeaf(op, e, p') ensures p + [L] <= p' || p + [R] <= p' { BelowNode(op, e, p, p'); }
    } else {
      forall p' | p <= p' && RegionLeaf(op, e, p') ensures p' == p { LeafEnds(op, e, p, p'); }
    }
    if IsOp(op, At(op, e, q)) {
      forall q' | q <= q' && InRegion(op, e, q') ensures q' == q || q + [L] <= q' || q + [R] <= q' { BelowNode(op, e, q, q'); }
    }
  }

  lemma AdmitAtLeaves(op: Op, e: Expr, p: Slot, q: Slot)
    requires RegionLeaf(op, e, p) && RegionLeaf(op, e, q)
    ensures AdmitBelow(op, e, p, q) <==> Admits(op, e, p, q)
  {
    hide Admits, IsOp;
    forall p' | p <= p' && RegionLeaf(op, e, p') ensures p' == p { LeafEnds(op, e, p, p'); }
    forall q' | q <= q' && InRegion(op, e, q') ensures q' == q { LeafEnds(op, e, q, q'); }
  }

  lemma {:induction false} Dups2Exact(op: Op, e: Expr, p: Slot, q: Slot)
    requires InRegion(op, e, p) && InRegion(op, e, q)
    ensures Dups2(op, e, p, q).count == 0 <==> AdmitBelow(op, e, p, q)
    decreases Bulk(e), RegionSize(op, At(op, e, p)) + RegionSize(op, At(op, e, q)), 1
  {
    hide Admits, AdmitBelow, Exclude;
    AdmitSplit(op, e, p, q);
    if IsOp(op, At(op, e, p)) {
      ChildSlot(op, e, p, L);
      ChildSlot(op, e, p, R);
      Dups2Exact(op, e, p + [L], q);
      Dups2Exact(op, e, p + [R], q);
    } else {
      ExcludeExact(op, e, p, q);
      if IsOp(op, At(op, e, q)) {
        ChildSlot(op, e, q, L);
        ChildSlot(op, e, q, R);
        Dups2Exact(op, e, p, q + [L]);
        Dups2Exact(op, e, p, q + [R]);
      } else {
        AdmitAtLeaves(op, e, p, q);
      }
    }
  }

  lemma {:induction false} ExcludeExact(op: Op, e: Expr, p: Slot, q: Slot)
    requires RegionLeaf(op, e, p) && InRegion(op, e, q)
    ensures Exclude(op, e, p, q).count == 0 <==> Admits(op, e, p, q)
    decreases Bulk(e), RegionSize(op, At(op, e, p)) + RegionSize(op, At(op, e, q)), 0
  {
    var x := At(op, e, p);
    if p != q && x.Bin? {
      if p == [] { LeafEnds(op, e, p, q); }
      PutBulk(op, e, p, x);
      PutSame(op, e, p);
      Dups2Exact(x.op, x, [], []);
      assert AllAdmit(x.op, x) == AdmitBelow(x.op, x, [], []);
    }
  }

  // ---- the loop

  ghost predicate Settled(e: Expr) { e.Bin? ==> AllApart(e.op, e) && AllAdmit(e.op, e) }

  /** A round finds nothing to do exactly if no two operands join and none excludes another. */
  lemma RoundExact(e: Expr)
    ensures Round(e).count == 0 <==> Settled(e)
  {
    if e.Bin? {
      Dups1Exact(e.op, e, [], []);
      Dups2Exact(e.op, e, [], []);
      assert AllApart(e.op, e) == ApartBelow(e.op, e, [], []);
      assert AllAdmit(e.op, e) == AdmitBelow(e.op, e, [], []);
    }
  }

  /** The result has no such operands, and an expression without them is not touched. */
  lemma EliminateDupsSettles(e: Expr)
    ensures Settled(EliminateDups(e))
    ensures EliminateDups(e) == e <==> Settled(e)
  {
    EliminateDupsComplete(e);
    RoundExact(EliminateDups(e));
    RoundExact(e);
  }
}
