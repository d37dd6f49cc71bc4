/** What the duplicate elimination passes keep: the value of the expression. */
module ExprDupsSound {
  import opened KconfigExpr
  import opened ExprYn
  import opened ExprEquality
  import opened ExprJoin
  import opened ExprRegion
  import opened ExprExtract
  import opened ExprDups

  /** The first pass keeps the value in every consistent three-valued environment. */
  lemma {:induction false} Dups1KeepsValue(op: Op, e: Expr, p: Slot, q: Slot, env: Env)
    requires InRegion(op, e, p) && InRegion(op, e, q) && Consistent(env)
    ensures Val(Dups1(op, e, p, q).e, env) == Val(e, env)
    decreases Bulk(e), RegionSize(op, At(op, e, p)) + RegionSize(op, At(op, e, q)), 1
  {
    if IsOp(op, At(op, e, p)) {
      ChildSlot(op, e, p, L);
      ChildSlot(op, e, p, R);
      var a := Dups1(op, e, p + [L], q);
      SameRegionSlots(op, e, a.e, p + [R]);
      SameRegionSlots(op, e, a.e, q);
      Dups1KeepsValue(op, e, p + [L], q, env);
      Dups1KeepsValue(op, a.e, p + [R], q, env);
    } else if IsOp(op, At(op, e, q)) {
      ChildSlot(op, e, q, L);
      ChildSlot(op, e, q, R);
      var a := Dups1(op, e, p, q + [L]);
      SameRegionSlots(op, e, a.e, q + [R]);
      SameRegionSlots(op, e, a.e, p);
      Dups1KeepsValue(op, e, p, q + [L], env);
      Dups1KeepsValue(op, a.e, p, q + [R], env);
    } else {
      JoinLeavesKeepsValue(op, e, p, q, env);
    }
  }

  lemma {:induction false} JoinLeavesKeepsValue(op: Op, e: Expr, p: Slot, q: Slot, env: Env)
    requires RegionLeaf(op, e, p) && RegionLeaf(op, e, q) && Consistent(env)
    ensures Val(JoinLeaves(op, e, p, q).e, env) == Val(e, env)
    decreases Bulk(e), RegionSize(op, At(op, e, p)) + RegionSize(op, At(op, e, q)), 0
  {
    if p != q {
      var x := At(op, e, p);
      PutBulk(op, e, p, x);
      var n := if x.Bin? then Dups1(x.op, x, [], []) else Pass(x, 0);
      if x.Bin? { Dups1KeepsValue(x.op, x, [], [], env); }
      PutLeaf(op, e, p, n.e);
      PutOther(op, e, p, n.e, q);
      PutValue(op, e, p, n.e, env);
      var t := Put(op, e, p, n.e);
      var y := At(op, t, q);
      var u := Symbol(Unit(op));
      match Join(op, n.e, y)
      case None =>
      case Some(j) =>
        JoinBulk(op, n.e, y);
        JoinKeepsValue(op, n.e, y, env);
        PutLeaf(op, t, p, u);
        PutOther(op, t, p, u, q);
        PutTwoValue(op, t, p, u, q, j, env);
    }
  }

  /** The other value is the same, unless this one is m. */
  predicate Sharper(a: Tri, b: Tri) { a == MOD || b == a }

  lemma SharperApply(op: Op, a: Tri, b: Tri, c: Tri, d: Tri)
    requires Sharper(a, b) && Sharper(c, d)
    ensures Sharper(Apply(op, a, c), Apply(op, b, d))
  {
  }

  /** The value of a conjunction is below each part, that of a disjunction above. */
  lemma {:induction false} RegionBound(op: Op, e: Expr, p: Slot, env: Env)
    requires InRegion(op, e, p)
    ensures op == And ==> Val(e, env) <= Val(At(op, e, p), env)
    ensures op == Or ==> Val(e, env) >= Val(At(op, e, p), env)
  {
    if p != [] { RegionBound(op, Child(e, p[0]), p[1..], env); }
  }

  /** The second pass keeps every value but m. */
  lemma {:induction false} Dups2Sharpens(op: Op, e: Expr, p: Slot, q: Slot, env: Env)
    requires InRegion(op, e, p) && InRegion(op, e, q) && Consistent(env)
    ensures Sharper(Val(e, env), Val(Dups2(op, e, p, q).e, env))
    decreases Bulk(e), RegionSize(op, At(op, e, p)) + RegionSize(op, At(op, e, q)), 1
  {
    if IsOp(op, At(op, e, p)) {
      ChildSlot(op, e, p, L);
      ChildSlot(op, e, p, R);
      var a := Dups2(op, e, p + [L], q);
      SameRegionSlots(op, e, a.e, p + [R]);
      SameRegionSlots(op, e, a.e, q);
      Dups2Sharpens(op, e, p + [L], q, env);
      Dups2Sharpens(op, a.e, p + [R], q, env);
    } else if IsOp(op, At(op, e, q)) {
      var a := Dups2Operands(op, e, p, q);
      Dups2OperandsSharpens(op, e, p, q, env);
      SameRegionSlots(op, e, a.e, p);
      SameRegionSlots(op, e, a.e, q);
      ExcludeSharpens(op, a.e, p, q, env);
    } else {
      ExcludeSharpens(op, e, p, q, env);
    }
  }

  lemma {:induction false} Dups2OperandsSharpens(op: Op, e: Expr, p: Slot, q: Slot, env: Env)
    requires RegionLeaf(op, e, p) && InRegion(op, e, q) && IsOp(op, At(op, e, q)) && Consistent(env)
    ensures Sharper(Val(e, env), Val(Dups2Operands(op, e, p, q).e, env))
    decreases Bulk(e), RegionSize(op, At(op, e, p)) + RegionSize(op, At(op, e, q)), 0
  {
    ChildSlot(op, e, q, L);
    ChildSlot(op, e, q, R);
    var a := Dups2(op, e, p, q + [L]);
    SameRegionSlots(op, e, a.e, q + [R]);
    SameRegionSlots(op, e, a.e, p);
    Dups2Sharpens(op, e, p, q + [L], env);
    Dups2Sharpens(op, a.e, p, q + [R], env);
  }

  lemma {:induction false} ExcludeSharpens(op: Op, e: Expr, p: Slot, q: Slot, env: Env)
    requires RegionLeaf(op, e, p) && InRegion(op, e, q) && Consistent(env)
    ensures Sharper(Val(e, env), Val(Exclude(op, e, p, q).e, env))
    decreases Bulk(e), RegionSize(op, At(op, e, p)) + RegionSize(op, At(op, e, q)), 0
  {
    var x := At(op, e, p);
    if p != q && x.Bin? {
      PutBulk(op, e, p, x);
      var n := Dups2(x.op, x, [], []);
      Dups2Sharpens(x.op, x, [], [], env);
      PutLeaf(op, e, p, n.e);
      PutValue(op, e, p, n.e, env);
      var t := Put(op, e, p, n.e);
      SharperApply(op, Rest(op, e, p, env), Rest(op, e, p, env), Val(x, env), Val(n.e, env));
      SameRegionSlots(op, e, t, q);
      if Excludes(op, n.e, At(op, t, q)) { ExcludeLeafExact(op, t, p, q, env); }
    }
  }

  /** When the test passes, the store keeps the value of the region exactly where that is not m. */
  lemma ExcludeLeafExact(op: Op, e: Expr, p: Slot, q: Slot, env: Env)
    requires RegionLeaf(op, e, p) && InRegion(op, e, q) && At(op, e, p).Bin? && Consistent(env)
    requires Excludes(op, At(op, e, p), At(op, e, q))
    ensures Val(ExcludeLeaf(op, e, p, q).e, env) == Val(e, env) <==> Val(e, env) != MOD
  {
    ExcludesSound(op, At(op, e, p), At(op, e, q), env);
    RegionBound(op, e, p, env);
    RegionBound(op, e, q, env);
    PutValue(op, e, p, Symbol(Zero(op)), env);
  }

  /** In some turn of the loop the second pass takes its two-valued branch. */
  predicate Excluding(e: Expr)
    decreases if YnFree(e) then 0 else 1, Bulk(e)
  {
    RoundProgress(e);
    Round(e).count > 0 &&
    (Dups2(e.op, Dups1(e.op, e, [], []).e, [], []).count > 0 || Excluding(EliminateYn(Round(e).e)))
  }

  /**
   * In every consistent three-valued environment the loop keeps the value
   * wherever that is not m, and everywhere if the second pass never rewrites
   * anything.
   */
  lemma {:induction false} EliminateDupsKeepsValue(e: Expr, env: Env)
    requires Consistent(env)
    requires Val(e, env) != MOD || !Excluding(e)
    ensures Val(EliminateDups(e), env) == Val(e, env)
    decreases if YnFree(e) then 0 else 1, Bulk(e)
  {
    RoundProgress(e);
    if Round(e).count > 0 {
      var a := Dups1(e.op, e, [], []);
      var b := Dups2(e.op, a.e, [], []);
      Dups1KeepsValue(e.op, e, [], [], env);
      Dups2Sharpens(e.op, a.e, [], [], env);
      EliminateYnKeepsValue(b.e, env);
      EliminateDupsKeepsValue(EliminateYn(b.e), env);
    }
  }

  /** Every symbol that stands for its own value is n or y, not m. */
  ghost predicate Crisp(e: Expr, env: Env) {
    match e
    case Bin(_, l, r) => Crisp(l, env) && Crisp(r, env)
    case Not(a) => Crisp(a, env)
    case Symbol(s) => env.tri(s) != MOD
    case _ => true
  }

  lemma {:induction false} CrispVal(e: Expr, env: Env)
    requires Crisp(e, env)
    ensures Val(e, env) != MOD
  {
    match e
    case Bin(_, l, r) => CrispVal(l, env); CrispVal(r, env);
    case Not(a) => CrispVal(a, env);
    case _ =>
  }

  /** In particular the loop keeps every value where no symbol of the expression is m. */
  lemma EliminateDupsTwoValued(e: Expr, env: Env)
    requires Consistent(env) && Crisp(e, env)
    ensures Val(EliminateDups(e), env) == Val(e, env) != MOD
  {
    CrispVal(e, env);
    EliminateDupsKeepsValue(e, env);
  }

  /** The result is a fixed point: neither pass finds anything more to do. */
  lemma {:induction false} EliminateDupsComplete(e: Expr)
    ensures Round(EliminateDups(e)).count == 0
    ensures EliminateDups(EliminateDups(e)) == EliminateDups(e)
    decreases if YnFree(e) then 0 else 1, Bulk(e)
  {
    RoundProgress(e);
    if Round(e).count > 0 { EliminateDupsComplete(EliminateYn(Round(e).e)); }
  }
}
