/**
 * The second duplicate pass is two-valued: a run of the whole loop that
 * changes the value of an expression when its symbol is m.
 */
module ExprDupsExample {
  import opened KconfigExpr
  import opened ExprYn
  import opened ExprEquality
  import opened ExprTransform
  import opened ExprJoin
  import opened ExprRegion
  import opened ExprExtract
  import opened ExprDups

  /** Pairs of leaves that no join rule merges leave the tree alone. */
  lemma {:induction false} Dups1Still(op: Op, e: Expr, p: Slot, q: Slot)
    requires InRegion(op, e, p) && InRegion(op, e, q)
    requires forall u: Slot, v: Slot :: RegionLeaf(op, e, u) && RegionLeaf(op, e, v) ==> JoinLeaves(op, e, u, v) == Pass(e, 0)
    ensures Dups1(op, e, p, q) == Pass(e, 0)
    decreases RegionSize(op, At(op, e, p)) + RegionSize(op, At(op, e, q))
  {
    if IsOp(op, At(op, e, p)) {
      ChildSlot(op, e, p, L);
      ChildSlot(op, e, p, R);
      Dups1Still(op, e, p + [L], q);
      Dups1Still(op, e, p + [R], q);
      Dups1StillFirst(op, e, p, q);
    } else if IsOp(op, At(op, e, q)) {
      ChildSlot(op, e, q, L);
      ChildSlot(op, e, q, R);
      Dups1Still(op, e, p, q + [L]);
      Dups1Still(op, e, p, q + [R]);
      Dups1StillSecond(op, e, p, q);
    } else {
      assert JoinLeaves(op, e, p, q) == Pass(e, 0);
    }
  }

  lemma Dups1StillFirst(op: Op, e: Expr, p: Slot, q: Slot)
    requires InRegion(op, e, p) && InRegion(op, e, q) && IsOp(op, At(op, e, p))
    requires InRegion(op, e, p + [L]) && Dups1(op, e, p + [L], q) == Pass(e, 0)
    requires InRegion(op, e, p + [R]) && Dups1(op, e, p + [R], q) == Pass(e, 0)
    ensures Dups1(op, e, p, q) == Pass(e, 0)
  {
  }

  lemma Dups1StillSecond(op: Op, e: Expr, p: Slot, q: Slot)
    requires RegionLeaf(op, e, p) && InRegion(op, e, q) && IsOp(op, At(op, e, q))
    requires InRegion(op, e, q + [L]) && Dups1(op, e, p, q + [L]) == Pass(e, 0)
    requires InRegion(op, e, q + [R]) && Dups1(op, e, p, q + [R]) == Pass(e, 0)
    ensures Dups1(op, e, p, q) == Pass(e, 0)
  {
  }

  lemma PairLeaf(op: Op, l: Expr, r: Expr, u: Slot)
    requires !IsOp(op, l) && !IsOp(op, r) && RegionLeaf(op, Bin(op, l, r), u)
    ensures u == [L] || u == [R]
    ensures At(op, Bin(op, l, r), u) == if u == [L] then l else r
  {
    var e := Bin(op, l, r);
    assert At(op, e, []) == e;
    assert InRegion(op, Child(e, u[0]), u[1..]);
    assert u == [u[0]] + u[1..];
  }

  lemma PairStill(op: Op, l: Expr, r: Expr)
    requires !IsOp(op, l) && !IsOp(op, r)
    requires l.Bin? ==> Dups1(l.op, l, [], []) == Pass(l, 0)
    requires r.Bin? ==> Dups1(r.op, r, [], []) == Pass(r, 0)
    requires Join(op, l, r).None? && Join(op, r, l).None?
    ensures Dups1(op, Bin(op, l, r), [], []) == Pass(Bin(op, l, r), 0)
  {
    var e := Bin(op, l, r);
    forall u: Slot, v: Slot | RegionLeaf(op, e, u) && RegionLeaf(op, e, v)
      ensures JoinLeaves(op, e, u, v) == Pass(e, 0)
    {
      PairLeaf(op, l, r, u);
      PairLeaf(op, l, r, v);
      var x := At(op, e, u);
      PutSame(op, e, u);
    }
    Dups1Still(op, e, [], []);
  }

  /** Without compound leaves the second pass has nothing to look at. */
  lemma {:induction false} Dups2Flat(op: Op, e: Expr, p: Slot, q: Slot)
    requires InRegion(op, e, p) && InRegion(op, e, q)
    requires forall u: Slot :: RegionLeaf(op, e, u) ==> !At(op, e, u).Bin?
    ensures Dups2(op, e, p, q) == Pass(e, 0)
    decreases RegionSize(op, At(op, e, p)) + RegionSize(op, At(op, e, q))
  {
    if IsOp(op, At(op, e, p)) {
      ChildSlot(op, e, p, L);
      ChildSlot(op, e, p, R);
      Dups2Flat(op, e, p + [L], q);
      Dups2Flat(op, e, p + [R], q);
    } else if IsOp(op, At(op, e, q)) {
      ChildSlot(op, e, q, L);
      ChildSlot(op, e, q, R);
      Dups2Flat(op, e, p, q + [L]);
      Dups2Flat(op, e, p, q + [R]);
    }
  }

  lemma PairFlat(op: Op, l: Expr, r: Expr, p: Slot, q: Slot)
    requires !l.Bin? && !r.Bin? && InRegion(op, Bin(op, l, r), p) && InRegion(op, Bin(op, l, r), q)
    ensures Dups2(op, Bin(op, l, r), p, q) == Pass(Bin(op, l, r), 0)
  {
    forall u: Slot | RegionLeaf(op, Bin(op, l, r), u) ensures !At(op, Bin(op, l, r), u).Bin? {
      PairLeaf(op, l, r, u);
    }
    Dups2Flat(op, Bin(op, l, r), p, q);
  }

  lemma PairExclude(op: Op, l: Expr, r: Expr)
    requires !IsOp(op, l) && !r.Bin?
    requires l.Bin? && Dups2(l.op, l, [], []) == Pass(l, 0) && Excludes(op, l, r)
    ensures InRegion(op, Bin(op, l, r), [L]) && InRegion(op, Bin(op, l, r), [R])
    ensures Dups2(op, Bin(op, l, r), [L], [L]) == Pass(Bin(op, l, r), 0)
    ensures Dups2(op, Bin(op, l, r), [L], [R]) == Pass(Bin(op, Symbol(Zero(op)), r), 1)
  {
    var e := Bin(op, l, r);
    assert At(op, e, [L]) == l && At(op, e, [R]) == r;
    PutSame(op, e, [L]);
    assert Put(op, e, [L], Symbol(Zero(op))) == Bin(op, Symbol(Zero(op)), r);
  }

  lemma Dups2Pair(op: Op, l: Expr, r: Expr)
    requires !IsOp(op, l) && !r.Bin?
    requires l.Bin? && Dups2(l.op, l, [], []) == Pass(l, 0) && Excludes(op, l, r)
    ensures Dups2(op, Bin(op, l, r), [], []) == Pass(Bin(op, Symbol(Zero(op)), r), 1)
  {
    PairExclude(op, l, r);
    PairFirst(op, l, r);
    PairFlat(op, Symbol(Zero(op)), r, [R], []);
    assert [] + [L] == [L] && [] + [R] == [R];
  }

  lemma PairFirst(op: Op, l: Expr, r: Expr)
    requires !IsOp(op, l) && !r.Bin?
    requires InRegion(op, Bin(op, l, r), [L]) && InRegion(op, Bin(op, l, r), [R])
    requires Dups2(op, Bin(op, l, r), [L], [L]) == Pass(Bin(op, l, r), 0)
    requires Dups2(op, Bin(op, l, r), [L], [R]) == Pass(Bin(op, Symbol(Zero(op)), r), 1)
    ensures Dups2(op, Bin(op, l, r), [L], []) == Pass(Bin(op, Symbol(Zero(op)), r), 1)
  {
    var e, f := Bin(op, l, r), Bin(op, Symbol(Zero(op)), r);
    assert At(op, e, [L]) == l && At(op, f, [L]) == f.left;
    assert Exclude(op, f, [L], []) == Pass(f, 0);
    Dups2Second(op, e, [L], Pass(e, 0), Pass(f, 1));
  }

  lemma Dups2Second(op: Op, e: Expr, p: Slot, a: Pass, b: Pass)
    requires RegionLeaf(op, e, p) && IsOp(op, e) && IsOp(op, a.e)
    requires InRegion(op, e, [L]) && a == Dups2(op, e, p, [L])
    requires InRegion(op, a.e, p) && InRegion(op, a.e, [R]) && b == Dups2(op, a.e, p, [R])
    requires RegionLeaf(op, b.e, p)
    ensures Dups2(op, e, p, []) ==
            Pass(Exclude(op, b.e, p, []).e, a.count + b.count + Exclude(op, b.e, p, []).count)
  {
    assert [] + [L] == [L] && [] + [R] == [R];
  }

  /** (A || n) && !A is rewritten to n, although it is m whenever the tristate A is m. */
  lemma ThreeValuedLoss(id: nat, env: Env)
    requires Consistent(env) && env.tri(Named(id, STristate, false)) == MOD
    ensures var a := Symbol(Named(id, STristate, false)); var e := Bin(And, Bin(Or, a, Symbol(No)), Not(a));
      EliminateDups(e) == Symbol(No) && Val(e, env) == MOD
  {
    var a := Symbol(Named(id, STristate, false));
    var o := Bin(Or, a, Symbol(No));
    var e := Bin(And, o, Not(a));
    assert Val(o, env) == MOD && Val(Not(a), env) == MOD;
    PairStill(Or, a, Symbol(No));
    PairStill(And, o, Not(a));
    PairFlat(Or, a, Symbol(No), [], []);
    Fires(a);
    Dups2Pair(And, o, Not(a));
    assert Round(e) == Pass(Bin(And, Symbol(No), Not(a)), 1);
    assert EliminateYn(Round(e).e) == Symbol(No);
    assert EliminateDups(e) == EliminateDups(Symbol(No));
    assert Round(Symbol(No)).count == 0;
  }

  lemma Fires(a: Expr)
    requires a.Symbol? && a.sym.Named?
    ensures Excludes(And, Bin(Or, a, Symbol(No)), Not(a))
  {
    var t := Transform(Not(Bin(Or, a, Symbol(No))));
    assert t == Bin(And, Not(a), Symbol(Yes)) by {
      assert Transform(Bin(Or, a, Symbol(No))) == Bin(Or, a, Symbol(No));
      assert Transform(a) == a && Transform(Not(a)) == TransformNot(a) == Not(a);
      assert Transform(Not(Symbol(No))) == Symbol(Yes);
      assert t == TransformNot(Bin(Or, a, Symbol(No)));
      assert Transform(Bin(And, Not(a), Not(Symbol(No)))) == Bin(And, Not(a), Symbol(Yes));
    }
    assert ExprEq(Not(a), Not(a));
    var y, f := Symbol(Yes), Found(Not(a));
    assert ExtractEq(And, Nothing, Not(a), Not(a)) == Extracted(Found(Not(a)), Symbol(Yes), Symbol(Yes));
    assert ExtractEq(And, f, y, y) == Extracted(Found(Bin(And, Not(a), y)), y, y);
    assert ExtractEq(And, Nothing, t, Not(a)) == ExtractLeft(And, Nothing, t, Not(a));
    assert ExtractLeft(And, Nothing, t, Not(a)).e1 == Bin(And, y, y);
  }
}
