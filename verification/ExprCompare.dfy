/**
 * expr_trans_compare, expr_trans_bool, expr_contains_symbol and
 * expr_depends_symbol (kconfig/expr.c:317-341, 773-824, 877-936), and the test
 * by which menu_finalize decides that an entry depends on the one above it
 * (kconfig/menu.c:342-361).
 */
module ExprCompare {
  import opened KconfigExpr
  import opened ExprEquality
  import opened ExprRegion
  import opened ExprTransform
  import opened ExprDups
  import opened ExprDupsSound

  /** expr_trans_compare against y or n; equal tells E_EQUAL from E_UNEQUAL. */
  function TransCompare(e: Expr, equal: bool, s: Sym): Expr
    requires s == Yes || s == No
  {
    match e
    case Bin(op, l, r) =>
      var l', r' := TransCompare(l, true, s), TransCompare(r, true, s);
      var both := Bin(if s == Yes then op else Dual(op), l', r');
      if equal then both else Not(both)
    case Not(a) => TransCompare(a, !equal, s)
    case Equal(_, _) => if equal == (s == Yes) then e else Not(e)
    case Unequal(_, _) => if equal == (s == Yes) then e else Not(e)
    case Symbol(t) => if equal then Equal(t, s) else Unequal(t, s)
  }

  /** The string of every plain symbol spells its tristate value, and nothing negated is m. */
  ghost predicate Comparable(e: Expr, env: Env) {
    match e
    case Bin(_, l, r) => Comparable(l, env) && Comparable(r, env)
    case Not(a) => Comparable(a, env) && Val(a, env) != MOD
    case Symbol(s) => StringValue(env, s) == TriString(env.tri(s))
    case _ => true
  }

  /**
   * The expression in two-valued logic: a plain symbol counts as true if it compares equal
   * with y, respectively unequal with n.
   */
  ghost predicate Two(e: Expr, s: Sym, env: Env)
    requires s == Yes || s == No
  {
    match e
    case Bin(op, l, r) => if op == And then Two(l, s, env) && Two(r, s, env) else Two(l, s, env) || Two(r, s, env)
    case Not(a) => !Two(a, s, env)
    case Symbol(t) => (StringValue(env, t) == StringValue(env, s)) == (s == Yes)
    case _ => Val(e, env) != NO
  }

  /** What the comparison computes, for every expression and environment. */
  lemma {:induction false} TransCompareTwo(e: Expr, equal: bool, s: Sym, env: Env)
    requires ConstantsHold(env) && (s == Yes || s == No)
    ensures Val(TransCompare(e, equal, s), env) == if (Two(e, s, env) == (s == Yes)) == equal then YES else NO
  {
    match e
    case Bin(op, l, r) =>
      TransCompareTwo(l, true, s, env);
      TransCompareTwo(r, true, s, env);
    case Not(a) =>
      TransCompareTwo(a, !equal, s, env);
    case _ =>
  }

  /** It says whether the expression has the given value exactly if two-valued logic gets that right. */
  lemma TransCompareExact(e: Expr, equal: bool, s: Sym, env: Env)
    requires ConstantsHold(env) && (s == Yes || s == No)
    ensures Val(TransCompare(e, equal, s), env) == (if (Val(e, env) == env.tri(s)) == equal then YES else NO)
       <==> (Two(e, s, env) == (s == Yes)) == (Val(e, env) == env.tri(s))
  {
    TransCompareTwo(e, equal, s, env);
  }

  /** Which it does if nothing negated is m. */
  lemma {:induction false} TwoComparable(e: Expr, s: Sym, env: Env)
    requires ConstantsHold(env) && Comparable(e, env) && (s == Yes || s == No)
    ensures (Two(e, s, env) == (s == Yes)) == (Val(e, env) == env.tri(s))
  {
    match e
    case Bin(op, l, r) => TwoComparable(l, s, env); TwoComparable(r, s, env);
    case Not(a) => TwoComparable(a, s, env);
    case _ =>
  }

  /** The comparison is y or n and says whether the expression has the given value. */
  lemma TransCompareValue(e: Expr, equal: bool, s: Sym, env: Env)
    requires ConstantsHold(env) && Comparable(e, env) && (s == Yes || s == No)
    ensures Val(TransCompare(e, equal, s), env) == if (Val(e, env) == env.tri(s)) == equal then YES else NO
  {
    TransCompareTwo(e, equal, s, env);
    TwoComparable(e, s, env);
  }

  /** For a negation the comparison is right exactly when the negated part is not m. */
  lemma NotCompareExact(a: Expr, equal: bool, s: Sym, env: Env)
    requires ConstantsHold(env) && Comparable(a, env) && (s == Yes || s == No)
    ensures Val(TransCompare(Not(a), equal, s), env) == (if (Val(Not(a), env) == env.tri(s)) == equal then YES else NO)
       <==> Val(a, env) != MOD
  {
    TransCompareTwo(Not(a), equal, s, env);
    TwoComparable(a, s, env);
  }

  /** Nothing negated is m, or it is a plain symbol, as expr_transform leaves it. */
  ghost predicate Sided(e: Expr, env: Env) {
    match e
    case Bin(_, l, r) => Sided(l, env) && Sided(r, env)
    case Not(a) => Comparable(e, env) || (a.Symbol? && Comparable(a, env))
    case _ => Comparable(e, env)
  }

  /** Then two-valued logic errs on one side only: it may take what is m for n. */
  lemma {:induction false} TwoSided(e: Expr, env: Env)
    requires ConstantsHold(env) && Sided(e, env) && Two(e, No, env)
    ensures Val(e, env) != NO
  {
    match e
    case Bin(op, l, r) =>
      if Two(l, No, env) { TwoSided(l, env); }
      if Two(r, No, env) { TwoSided(r, env); }
    case Not(a) =>
      if Comparable(e, env) { TwoComparable(e, No, env); }
    case _ =>
  }

  /** "e is not n" in the form the menu code compares: menu.c:343-344 and 352-353. */
  function NotNo(e: Expr): Expr {
    EliminateDups(Transform(TransCompare(e, false, No)))
  }

  lemma NotNoValue(e: Expr, env: Env)
    requires Consistent(env)
    ensures Val(NotNo(e), env) == if Two(e, No, env) then YES else NO
  {
    var c := TransCompare(e, false, No);
    TransCompareTwo(e, false, No, env);
    TransformKeepsValue(c, env);
    EliminateDupsKeepsValue(Transform(c), env);
  }

  /** The test of menu.c:352-360: nothing of the upper condition is left over. */
  predicate ImpliedBy(upper: Expr, dep: Expr) {
    EliminateEq(NotNo(dep), NotNo(upper)).e2 == Symbol(Yes)
  }

  /** An entry that passes the test implies the entry above it, in two-valued logic. */
  lemma ImpliedByTwo(upper: Expr, dep: Expr, env: Env)
    requires Consistent(env) && ImpliedBy(upper, dep) && Two(dep, No, env)
    ensures Two(upper, No, env)
  {
    NotNoValue(upper, env);
    NotNoValue(dep, env);
    CancelledImplies(NotNo(dep), NotNo(upper), env);
  }

  /**
   * So the entry above it is visible wherever two-valued logic makes the entry so, and
   * wherever the entry is visible and nothing negated in its condition is m.
   */
  lemma ImpliedByCorrect(upper: Expr, dep: Expr, env: Env)
    requires Consistent(env) && Sided(upper, env) && ImpliedBy(upper, dep)
    ensures Two(dep, No, env) ==> Val(upper, env) != NO
    ensures Comparable(dep, env) && Val(dep, env) != NO ==> Val(upper, env) != NO
  {
    if Comparable(dep, env) { TwoComparable(dep, No, env); }
    if Two(dep, No, env) {
      ImpliedByTwo(upper, dep, env);
      TwoSided(upper, env);
    }
  }

  /** expr_contains_symbol */
  predicate Contains(e: Expr, s: Sym) {
    match e
    case Bin(_, l, r) => Contains(l, s) || Contains(r, s)
    case Not(a) => Contains(a, s)
    case Equal(a, b) => a == s || b == s
    case Unequal(a, b) => a == s || b == s
    case Symbol(t) => t == s
  }

  /** Environments that differ in one symbol at most. */
  ghost predicate SameExcept(a: Env, b: Env, s: Sym) {
    forall t: Sym :: t != s ==> a.tri(t) == b.tri(t) && StringValue(a, t) == StringValue(b, t)
  }

  lemma {:induction false} ContainsFrames(e: Expr, s: Sym, a: Env, b: Env)
    requires SameExcept(a, b, s) && !Contains(e, s)
    ensures Val(e, a) == Val(e, b)
  {
    match e
    case Bin(_, l, r) => ContainsFrames(l, s, a, b); ContainsFrames(r, s, a, b);
    case Not(x) => ContainsFrames(x, s, a, b);
    case _ =>
  }

  /** expr_depends_symbol */
  predicate Depends(e: Expr, s: Sym) {
    match e
    case Bin(And, l, r) => Depends(l, s) || Depends(r, s)
    case Symbol(t) => t == s
    case Equal(t, c) => t == s && (c == Yes || c == Mod)
    case Unequal(t, c) => t == s && c == No
    case _ => false
  }

  /** It looks for one conjunct among four: the symbol, symbol = y, symbol = m, symbol != n. */
  predicate Demands(e: Expr, s: Sym) { e in {Symbol(s), Equal(s, Yes), Equal(s, Mod), Unequal(s, No)} }

  lemma {:induction false} DependsExact(e: Expr, s: Sym)
    ensures Depends(e, s) <==> exists p :: RegionLeaf(And, e, p) && Demands(At(And, e, p), s)
  {
    if IsOp(And, e) {
      DependsExact(e.left, s);
      DependsExact(e.right, s);
      forall p | RegionLeaf(And, e, p) ensures p != [] && RegionLeaf(And, Child(e, p[0]), p[1..]) {}
      forall side: Side, p | RegionLeaf(And, Child(e, side), p)
        ensures RegionLeaf(And, e, [side] + p) && At(And, e, [side] + p) == At(And, Child(e, side), p)
      {
        assert ([side] + p)[1..] == p;
      }
      assert Child(e, L) == e.left && Child(e, R) == e.right;
    } else {
      assert RegionLeaf(And, e, []);
      forall p | RegionLeaf(And, e, p) ensures p == [] {}
    }
  }

  /** An expression that depends on a symbol contains it and is n whenever the symbol is, in either logic. */
  lemma {:induction false} DependsCorrect(e: Expr, s: Sym, env: Env)
    requires ConstantsHold(env) && Depends(e, s)
    requires env.tri(s) == NO && StringValue(env, s) == "n"
    ensures Val(e, env) == NO && !Two(e, No, env) && Contains(e, s)
  {
    match e
    case Bin(And, l, r) =>
      if Depends(l, s) { DependsCorrect(l, s, env); }
      if Depends(r, s) { DependsCorrect(r, s, env); }
    case _ =>
  }

  /** expr_trans_bool */
  function TransBool(e: Expr): Expr {
    match e
    case Bin(op, l, r) => Bin(op, TransBool(l), TransBool(r))
    case Not(a) => Not(TransBool(a))
    case Unequal(s, c) => if s.Type() == STristate && c == No then Symbol(s) else e
    case _ => e
  }

  /** No tristate symbol is compared with n any more, and nothing else has changed. */
  predicate BoolForm(e: Expr) {
    match e
    case Bin(_, l, r) => BoolForm(l) && BoolForm(r)
    case Not(a) => BoolForm(a)
    case Unequal(s, c) => c == No ==> s.Type() != STristate
    case _ => true
  }

  lemma {:induction false} TransBoolExact(e: Expr)
    ensures BoolForm(TransBool(e))
    ensures TransBool(e) == e <==> BoolForm(e)
  {
    match e
    case Bin(_, l, r) => TransBoolExact(l); TransBoolExact(r);
    case Not(a) => TransBoolExact(a);
    case _ =>
  }

  /** NOT stands directly above a symbol, as expr_transform leaves it. */
  predicate NotOnSymbols(e: Expr) {
    match e
    case Bin(_, l, r) => NotOnSymbols(l) && NotOnSymbols(r)
    case Not(a) => a.Symbol?
    case _ => true
  }

  /** For those expressions the rewrite can lower y to m, and never changes what is n. */
  lemma {:induction false} TransBoolKeepsNo(e: Expr, env: Env)
    requires Consistent(env) && NotOnSymbols(e)
    ensures Val(TransBool(e), env) == NO <==> Val(e, env) == NO
    ensures Val(TransBool(e), env) <= Val(e, env)
  {
    match e
    case Bin(_, l, r) => TransBoolKeepsNo(l, env); TransBoolKeepsNo(r, env);
    case Unequal(s, c) => if s.Type() == STristate { StringOfTristate(env, s); }
    case _ =>
  }

  lemma {:induction false} NormalNotOnSymbols(e: Expr)
    requires Normal(e)
    ensures NotOnSymbols(e)
  {
    match e
    case Bin(_, l, r) => NormalNotOnSymbols(l); NormalNotOnSymbols(r);
    case _ =>
  }
}
