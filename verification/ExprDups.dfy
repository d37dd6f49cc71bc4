/**
 * expr_eliminate_dups and its two passes (kconfig/expr.c:502-634).
 */
module ExprDups {
  import opened KconfigExpr
  import opened ExprYn
  import opened ExprEquality
  import opened ExprJoin
  import opened ExprRegion
  import opened ExprExtract

  /** The tree after a pass and how often it raised trans_count. */
  datatype Pass = Pass(e: Expr, count: nat)

  /** What a counted rewrite shrinks: y and n weigh less than any other leaf. */
  function Bulk(e: Expr): (n: nat)
    ensures n >= 1
    ensures n == 1 <==> IsYn(e)
  {
    match e
    case Bin(_, l, r) => 1 + Bulk(l) + Bulk(r)
    case Not(a) => 1 + Bulk(a)
    case _ => if IsYn(e) then 1 else 2
  }

  lemma {:induction false} PutBulk(op: Op, e: Expr, p: Slot, x: Expr)
    requires InRegion(op, e, p)
    ensures Bulk(Put(op, e, p, x)) == Bulk(e) - Bulk(At(op, e, p)) + Bulk(x)
    ensures Bulk(At(op, e, p)) <= Bulk(e)
    ensures p != [] ==> Bulk(At(op, e, p)) < Bulk(e)
  {
    if p != [] { PutBulk(op, Child(e, p[0]), p[1..], x); }
  }

  /** A join never adds weight, and loses some unless both operands are y or n. */
  lemma JoinBulk(op: Op, e1: Expr, e2: Expr)
    requires Join(op, e1, e2).Some? && !IsOp(op, e1)
    ensures var j := Join(op, e1, e2).value; !IsOp(op, j) && 1 + Bulk(j) <= Bulk(e1) + Bulk(e2)
    ensures var j := Join(op, e1, e2).value; !IsYn(e1) ==> 1 + Bulk(j) < Bulk(e1) + Bulk(e2)
  {
  }

  /** Store the unit through one leaf and the joined expression through the other. */
  function PutJoin(op: Op, e: Expr, p: Slot, q: Slot, j: Expr): (r: Expr)
    requires RegionLeaf(op, e, p) && RegionLeaf(op, e, q) && p != q && !IsOp(op, j)
    ensures SameRegion(op, e, r)
    ensures Bulk(r) == Bulk(e) - Bulk(At(op, e, p)) - Bulk(At(op, e, q)) + 1 + Bulk(j)
  {
    var u := Symbol(Unit(op));
    PutLeaf(op, e, p, u);
    PutOther(op, e, p, u, q);
    var t := Put(op, e, p, u);
    PutLeaf(op, t, q, j);
    SameRegionTrans(op, e, t, Put(op, t, q, j));
    PutBulk(op, e, p, u);
    PutBulk(op, t, q, j);
    Put(op, t, q, j)
  }

  lemma {:induction false} AtYnFree(op: Op, e: Expr, p: Slot)
    requires InRegion(op, e, p)
    ensures YnFree(e) ==> YnFree(At(op, e, p)) && (p != [] ==> !IsYn(At(op, e, p)))
  {
    if p != [] { AtYnFree(op, Child(e, p[0]), p[1..]); }
  }

  lemma {:induction false} PutSame(op: Op, e: Expr, p: Slot)
    requires InRegion(op, e, p)
    ensures Put(op, e, p, At(op, e, p)) == e
  {
    if p != [] { PutSame(op, Child(e, p[0]), p[1..]); }
  }

  /** expr_eliminate_dups1 with the cursors at slots p and q of e. */
  function Dups1(op: Op, e: Expr, p: Slot, q: Slot): (r: Pass)
    requires InRegion(op, e, p) && InRegion(op, e, q)
    ensures SameRegion(op, e, r.e)
    ensures Bulk(r.e) <= Bulk(e)
    ensures r.count == 0 ==> r.e == e
    ensures r.count > 0 && YnFree(e) ==> Bulk(r.e) < Bulk(e)
    decreases Bulk(e), RegionSize(op, At(op, e, p)) + RegionSize(op, At(op, e, q)), 1
  {
    if IsOp(op, At(op, e, p)) then
      ChildSlot(op, e, p, L);
      ChildSlot(op, e, p, R);
      var a := Dups1(op, e, p + [L], q);
      SameRegionSlots(op, e, a.e, p + [R]);
      SameRegionSlots(op, e, a.e, q);
      var b := Dups1(op, a.e, p + [R], q);
      SameRegionTrans(op, e, a.e, b.e);
      Pass(b.e, a.count + b.count)
    else if IsOp(op, At(op, e, q)) then
      ChildSlot(op, e, q, L);
      ChildSlot(op, e, q, R);
      var a := Dups1(op, e, p, q + [L]);
      SameRegionSlots(op, e, a.e, q + [R]);
      SameRegionSlots(op, e, a.e, p);
      var b := Dups1(op, a.e, p, q + [R]);
      SameRegionTrans(op, e, a.e, b.e);
      Pass(b.e, a.count + b.count)
    else
      JoinLeaves(op, e, p, q)
  }

  /** The part of expr_eliminate_dups1 below the recursive calls. */
  function JoinLeaves(op: Op, e: Expr, p: Slot, q: Slot): (r: Pass)
    requires RegionLeaf(op, e, p) && RegionLeaf(op, e, q)
    ensures SameRegion(op, e, r.e)
    ensures Bulk(r.e) <= Bulk(e)
    ensures r.count == 0 ==> r.e == e
    ensures r.count > 0 && YnFree(e) ==> Bulk(r.e) < Bulk(e)
    decreases Bulk(e), RegionSize(op, At(op, e, p)) + RegionSize(op, At(op, e, q)), 0
  {
    if p == q then
      SameRegionRefl(op, e);
      Pass(e, 0)
    else
      var x := At(op, e, p);
      PutBulk(op, e, p, x);
      AtYnFree(op, e, p);
      var n := if x.Bin? then Dups1(x.op, x, [], []) else Pass(x, 0);
      PutBulk(op, e, p, n.e);
      PutLeaf(op, e, p, n.e);
      PutOther(op, e, p, n.e, q);
      PutSame(op, e, p);
      var t := Put(op, e, p, n.e);
      match Join(op, n.e, At(op, t, q))
      case None => Pass(t, n.count)
      case Some(j) =>
        JoinBulk(op, n.e, At(op, t, q));
        SameRegionTrans(op, e, t, PutJoin(op, t, p, q, j));
        Pass(PutJoin(op, t, p, q, j), n.count + 1)
  }

  /**
   * expr_eliminate_dups2. There is no return after the two calls on the
   * operands of the second cursor, so the inner node they hang from is tried
   * as a whole as well.
   */
  function Dups2(op: Op, e: Expr, p: Slot, q: Slot): (r: Pass)
    requires InRegion(op, e, p) && InRegion(op, e, q)
    ensures SameRegion(op, e, r.e)
    ensures if r.count == 0 then r.e == e else Bulk(r.e) < Bulk(e)
    decreases Bulk(e), RegionSize(op, At(op, e, p)) + RegionSize(op, At(op, e, q)), 1
  {
    if IsOp(op, At(op, e, p)) then
      ChildSlot(op, e, p, L);
      ChildSlot(op, e, p, R);
      var a := Dups2(op, e, p + [L], q);
      SameRegionSlots(op, e, a.e, p + [R]);
      SameRegionSlots(op, e, a.e, q);
      var b := Dups2(op, a.e, p + [R], q);
      SameRegionTrans(op, e, a.e, b.e);
      Pass(b.e, a.count + b.count)
    else if IsOp(op, At(op, e, q)) then
      var a := Dups2Operands(op, e, p, q);
      SameRegionSlots(op, e, a.e, p);
      SameRegionSlots(op, e, a.e, q);
      var b := Exclude(op, a.e, p, q);
      SameRegionTrans(op, e, a.e, b.e);
      Pass(b.e, a.count + b.count)
    else
      Exclude(op, e, p, q)
  }

  /** expr_eliminate_dups2 with each operand of the second cursor's node in turn. */
  function Dups2Operands(op: Op, e: Expr, p: Slot, q: Slot): (r: Pass)
    requires RegionLeaf(op, e, p) && InRegion(op, e, q) && IsOp(op, At(op, e, q))
    ensures SameRegion(op, e, r.e)
    ensures if r.count == 0 then r.e == e else Bulk(r.e) < Bulk(e)
    decreases Bulk(e), RegionSize(op, At(op, e, p)) + RegionSize(op, At(op, e, q)), 0
  {
    ChildSlot(op, e, q, L);
    ChildSlot(op, e, q, R);
    var a := Dups2(op, e, p, q + [L]);
    SameRegionSlots(op, e, a.e, q + [R]);
    SameRegionSlots(op, e, a.e, p);
    var b := Dups2(op, a.e, p, q + [R]);
    SameRegionTrans(op, e, a.e, b.e);
    Pass(b.e, a.count + b.count)
  }

  /** The part of expr_eliminate_dups2 below the recursive calls. */
  function Exclude(op: Op, e: Expr, p: Slot, q: Slot): (r: Pass)
    requires RegionLeaf(op, e, p) && InRegion(op, e, q)
    ensures SameRegion(op, e, r.e)
    ensures if r.count == 0 then r.e == e else Bulk(r.e) < Bulk(e)
    decreases Bulk(e), RegionSize(op, At(op, e, p)) + RegionSize(op, At(op, e, q)), 0
  {
    var x := At(op, e, p);
    if p == q || !x.Bin? then
      SameRegionRefl(op, e);
      Pass(e, 0)
    else
      PutBulk(op, e, p, x);
      var n := Dups2(x.op, x, [], []);
      PutBulk(op, e, p, n.e);
      PutLeaf(op, e, p, n.e);
      PutSame(op, e, p);
      var t := Put(op, e, p, n.e);
      SameRegionSlots(op, e, t, q);
      var r := ExcludeLeaf(op, t, p, q);
      SameRegionTrans(op, e, t, r.e);
      Pass(r.e, n.count + r.count)
  }

  /** The test itself, and the store of n or y that it allows. */
  function ExcludeLeaf(op: Op, e: Expr, p: Slot, q: Slot): (r: Pass)
    requires RegionLeaf(op, e, p) && InRegion(op, e, q) && At(op, e, p).Bin?
    ensures SameRegion(op, e, r.e)
    ensures if r.count == 0 then r.e == e else Bulk(r.e) < Bulk(e)
  {
    if Excludes(op, At(op, e, p), At(op, e, q)) then
      var z := Symbol(Zero(op));
      PutBulk(op, e, p, z);
      PutLeaf(op, e, p, z);
      Pass(Put(op, e, p, z), 1)
    else
      SameRegionRefl(op, e);
      Pass(e, 0)
  }

  /** One turn of the loop in expr_eliminate_dups, before expr_eliminate_yn. */
  function Round(e: Expr): (r: Pass)
    ensures Bulk(r.e) <= Bulk(e)
    ensures r.count == 0 ==> r.e == e
  {
    if e.Bin? then
      var a := Dups1(e.op, e, [], []);
      var b := Dups2(e.op, a.e, [], []);
      Pass(b.e, a.count + b.count)
    else
      Pass(e, 0)
  }

  lemma {:induction false} EliminateYnBulk(e: Expr)
    ensures Bulk(EliminateYn(e)) <= Bulk(e)
  {
    match e
    case Bin(_, l, r) => EliminateYnBulk(l); EliminateYnBulk(r);
    case _ =>
  }

  /** Every round but the first starts without stray y and n, and then a counted one shrinks the tree. */
  lemma RoundProgress(e: Expr)
    ensures YnFree(EliminateYn(Round(e).e))
    ensures YnFree(e) && Round(e).count > 0 ==> Bulk(EliminateYn(Round(e).e)) < Bulk(e)
  {
    EliminateYnComplete(Round(e).e);
    EliminateYnBulk(Round(e).e);
  }

  /** expr_eliminate_dups */
  function EliminateDups(e: Expr): Expr
    decreases if YnFree(e) then 0 else 1, Bulk(e)
  {
    RoundProgress(e);
    if Round(e).count == 0 then e else EliminateDups(EliminateYn(Round(e).e))
  }
}
