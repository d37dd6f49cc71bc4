/**
 * Which entries the tests of menu_finalize take (kconfig/menu.c:342-361): those whose
 * condition has all conjuncts of the condition of the upper entry, and some it misses.
 */
module MenuImplied {
  import opened KconfigExpr
  import opened ExprEquality
  import opened ExprKeys
  import opened ExprYn
  import opened ExprCompare
  import opened SymbolGraph
  import opened MenuInside

  /** Of two conjunctions, or a conjunction and a single condition, exactly inclusion of conjuncts counts. */
  lemma InsideExact(up: Item, x: Item)
    requires up.sym.Is? && Condition(x).Is?
    requires var n, u := NotNo(Condition(x).value), UpperNotNo(Visibility(up));
      Chain(And, n) && Chain(And, u) && (n.Bin? || u.Bin?)
    ensures var d, s := Condition(x).value, up.sym.value;
      var n, u := NotNo(d), UpperNotNo(Visibility(up));
      Inside(up, x) <==>
      Contains(d, s) && (Depends(d, s) || (!HasZero(And, u) && Live(And, u) <= Live(And, n)))
  {
    EliminateEqExact(And, NotNo(Condition(x).value), UpperNotNo(Visibility(up)));
    hide NotNo, UpperNotNo, EliminateEq, Live, HasZero, TidyChain, Depends, Contains;
  }

  lemma {:induction false} YesStays(op: Op, e: Expr)
    ensures Cancel(op, e, Symbol(Yes)).e2 == Symbol(Yes)
  {
    if IsOp(op, e) {
      YesStays(op, e.left);
      YesStays(op, e.right);
    }
  }

  /** Below an entry that is always visible, it is enough to mention its symbol. */
  lemma UnconditionalExact(up: Item, x: Item)
    requires up.sym.Is? && Condition(x).Is? && Visibility(up).Null?
    ensures Inside(up, x) <==> Contains(Condition(x).value, up.sym.value)
  {
    var n := NotNo(Condition(x).value);
    NullIsYes();
    if n.Bin? { YesStays(n.op, n); }
    assert EliminateEq(n, Symbol(Yes)).e2 == Symbol(Yes);
    hide NotNo, UpperNotNo, EliminateEq, Depends, Contains;
  }

  lemma DisjunctionLeft(n: Expr, u: Expr)
    requires IsOp(Or, n) && IsOp(Or, u) && TidyChain(Or, n) && Tidy(u)
    ensures EliminateEq(n, u).e2 != Symbol(Yes)
  {
    hide Cancel, KeyOf, Live;
    var a := Cancel(Or, n, u);
    TidyIsChain(Or, u);
    CancelLive(Or, n, u);
    ChainEliminated(Or, a.e2);
    assert EliminateEq(n, u).e2 == EliminateYn(a.e2);
  }

  /** Of two disjunctions nothing but a dependency on the symbol is seen, even if they are the same. */
  lemma DisjunctionExact(up: Item, x: Item)
    requires up.sym.Is? && Condition(x).Is?
    requires var n, u := NotNo(Condition(x).value), UpperNotNo(Visibility(up));
      IsOp(Or, n) && IsOp(Or, u) && TidyChain(Or, n) && Tidy(u)
    ensures Inside(up, x) <==> Depends(Condition(x).value, up.sym.value)
  {
    DisjunctionLeft(NotNo(Condition(x).value), UpperNotNo(Visibility(up)));
    hide NotNo, UpperNotNo, EliminateEq;
    if Depends(Condition(x).value, up.sym.value) { DependsContains(Condition(x).value, up.sym.value); }
  }

  lemma {:induction false} DependsContains(e: Expr, s: Sym)
    requires Depends(e, s)
    ensures Contains(e, s)
  {
    match e
    case Bin(And, l, r) =>
      if Depends(l, s) { DependsContains(l, s); } else { DependsContains(r, s); }
    case _ =>
  }
}
