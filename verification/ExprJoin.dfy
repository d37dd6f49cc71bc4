/**
 * expr_join_or and expr_join_and (kconfig/expr.c:346-500): two operands of one
 * operator are merged into a single simpler expression when a rule applies.
 */
module ExprJoin {
  import opened KconfigExpr
  import opened ExprEquality
  import opened Sequences

  /** The symbol a leaf or negated leaf talks about; the second operand is read more narrowly. */
  function FirstSymbol(e: Expr): Option<Sym> {
    match e
    case Bin(_, _, _) => None
    case Not(Equal(s, _)) => Some(s)
    case Not(Unequal(s, _)) => Some(s)
    case Not(Symbol(s)) => Some(s)
    case Not(_) => None
    case Equal(s, _) => Some(s)
    case Unequal(s, _) => Some(s)
    case Symbol(s) => Some(s)
  }

  function SecondSymbol(e: Expr): Option<Sym> {
    match e
    case Bin(_, _, _) => None
    case Not(Symbol(s)) => Some(s)
    case Not(_) => None
    case Equal(s, _) => Some(s)
    case Unequal(s, _) => Some(s)
    case Symbol(s) => Some(s)
  }

  /** The common symbol both join functions insist on: it is boolean or tristate. */
  function JoinSymbol(e1: Expr, e2: Expr): (r: Option<Sym>)
    ensures r.Some? ==> r.value.BoolOrTristate() && FirstSymbol(e1) == r && SecondSymbol(e2) == r
  {
    match (FirstSymbol(e1), SecondSymbol(e2))
    case (Some(s), Some(t)) => if s == t && s.BoolOrTristate() then Some(s) else None
    case _ => None
  }

  /** One operand has the first form and the other the second, in either order. */
  predicate Pair(e1: Expr, e2: Expr, a: Expr, b: Expr) {
    (e1 == a && e2 == b) || (e1 == b && e2 == a)
  }

  /** The rules of expr_join_or for two operands that are not equal. */
  function RuleOr(e1: Expr, e2: Expr): Option<Expr> {
    match JoinSymbol(e1, e2)
      case None => None
      case Some(s) =>
        if s.Type() == STristate && Pair(e1, e2, Equal(s, Yes), Equal(s, Mod)) then Some(Unequal(s, No))
        else if s.Type() == STristate && Pair(e1, e2, Equal(s, Yes), Equal(s, No)) then Some(Unequal(s, Mod))
        else if s.Type() == STristate && Pair(e1, e2, Equal(s, Mod), Equal(s, No)) then Some(Unequal(s, Yes))
        else if s.Type() == SBoolean && Pair(e1, e2, Not(Symbol(s)), Symbol(s)) then Some(Symbol(Yes))
        else None
  }

  /** Two constants compared with the same symbol by = and by !=. */
  function JoinConstants(s: Sym, same: Sym, different: Sym): Option<Expr> {
    if !(different.Const() && same.Const()) then None
    else if same != different then Some(Equal(s, same))
    else Some(Symbol(No))
  }

  /** The rules of expr_join_and for two operands that are not equal. */
  function RuleAnd(e1: Expr, e2: Expr): Option<Expr> {
    match JoinSymbol(e1, e2)
      case None => None
      case Some(s) =>
        if Pair(e1, e2, Symbol(s), Equal(s, Yes)) then Some(Equal(s, Yes))
        else if Pair(e1, e2, Symbol(s), Unequal(s, No)) then Some(Symbol(s))
        else if Pair(e1, e2, Symbol(s), Unequal(s, Mod)) then Some(Equal(s, Yes))
        else if s.Type() == STristate then RuleAndTristate(s, e1, e2)
        else None
  }

  /** The rules for two comparisons of one tristate symbol. */
  function RuleAndTristate(s: Sym, e1: Expr, e2: Expr): Option<Expr> {
    if e1.Equal? && e2.Unequal? && e2.rhs.Const() && e1.rhs.Const() then
      JoinConstants(s, e1.rhs, e2.rhs)
    else if e1.Unequal? && e2.Equal? && e1.rhs.Const() && e2.rhs.Const() then
      JoinConstants(s, e2.rhs, e1.rhs)
    else if Pair(e1, e2, Unequal(s, Yes), Unequal(s, No)) then Some(Equal(s, Mod))
    else if Pair(e1, e2, Unequal(s, Yes), Unequal(s, Mod)) then Some(Equal(s, No))
    else if Pair(e1, e2, Unequal(s, Mod), Unequal(s, No)) then Some(Equal(s, Yes))
    else None
  }

  function Rule(op: Op, e1: Expr, e2: Expr): Option<Expr> {
    if op == And then RuleAnd(e1, e2) else RuleOr(e1, e2)
  }

  /** expr_join_and and expr_join_or */
  function Join(op: Op, e1: Expr, e2: Expr): Option<Expr> {
    if ExprEq(e1, e2) then Some(e1) else Rule(op, e1, e2)
  }

  /** Comparisons with y, m and n look at the value of the symbol. */
  lemma ComparisonValues(s: Sym, env: Env)
    requires Consistent(env) && s.BoolOrTristate()
    ensures Val(Equal(s, Yes), env) == (if env.tri(s) == YES then YES else NO)
    ensures Val(Equal(s, Mod), env) == (if env.tri(s) == MOD then YES else NO)
    ensures Val(Equal(s, No), env) == (if env.tri(s) == NO then YES else NO)
    ensures forall c :: c in {Yes, Mod, No} ==> Val(Unequal(s, c), env) == TriNot(Val(Equal(s, c), env))
  {
    StringOfTristate(env, s);
  }

  lemma NegationValue(s: Sym, env: Env)
    requires Consistent(env) && s.Type() == SBoolean
    ensures TriOr(Val(Not(Symbol(s)), env), Val(Symbol(s), env)) == YES == Val(Symbol(Yes), env)
  {
    assert env.tri(s) != MOD;
  }

  lemma RuleOrKeepsValue(e1: Expr, e2: Expr, env: Env)
    requires Consistent(env) && RuleOr(e1, e2).Some?
    ensures Val(RuleOr(e1, e2).value, env) == TriOr(Val(e1, env), Val(e2, env))
  {
    hide Consistent, Val;
    var s := JoinSymbol(e1, e2).value;
    if s.Type() == SBoolean { NegationValue(s, env); } else { ComparisonValues(s, env); }
  }

  lemma ConstantsKeepValue(s: Sym, same: Sym, different: Sym, env: Env)
    requires Consistent(env)
    ensures var j := JoinConstants(s, same, different);
      j.Some? ==> Val(j.value, env) == TriAnd(Val(Equal(s, same), env), Val(Unequal(s, different), env))
  {
    if same != different && same.Const() && different.Const() {
      assert StringValue(env, same) != StringValue(env, different);
    }
  }

  lemma RuleAndTristateKeepsValue(s: Sym, e1: Expr, e2: Expr, env: Env)
    requires Consistent(env) && s.BoolOrTristate() && RuleAndTristate(s, e1, e2).Some?
    requires e1.Equal? || e1.Unequal? ==> e1.lhs == s
    requires e2.Equal? || e2.Unequal? ==> e2.lhs == s
    ensures Val(RuleAndTristate(s, e1, e2).value, env) == TriAnd(Val(e1, env), Val(e2, env))
  {
    hide Consistent, Val;
    ComparisonValues(s, env);
    if e1.Equal? && e2.Unequal? {
      ConstantsKeepValue(s, e1.rhs, e2.rhs, env);
    } else if e1.Unequal? && e2.Equal? {
      ConstantsKeepValue(s, e2.rhs, e1.rhs, env);
    }
  }

  lemma RuleAndKeepsValue(e1: Expr, e2: Expr, env: Env)
    requires Consistent(env) && RuleAnd(e1, e2).Some?
    ensures Val(RuleAnd(e1, e2).value, env) == TriAnd(Val(e1, env), Val(e2, env))
  {
    var s := JoinSymbol(e1, e2).value;
    StringOfTristate(env, s);
    if RuleAndTristate(s, e1, e2).Some? { RuleAndTristateKeepsValue(s, e1, e2, env); }
  }

  /** A join keeps the value of the two operands taken together. */
  lemma JoinKeepsValue(op: Op, e1: Expr, e2: Expr, env: Env)
    requires Consistent(env) && Join(op, e1, e2).Some?
    ensures Val(Join(op, e1, e2).value, env) == Apply(op, Val(e1, env), Val(e2, env))
  {
    if ExprEq(e1, e2) { ExprEqSound(e1, e2, env); }
    else if op == And { RuleAndKeepsValue(e1, e2, env); }
    else { RuleOrKeepsValue(e1, e2, env); }
  }

  // ---- what has to be joined

  /** Two comparisons of one tristate symbol with constants, in either order. */
  lemma ComparisonsJoin(s: Sym, c: Sym, d: Sym, other: Sym)
    requires s.Type() == STristate && {c, d, other} == {Yes, Mod, No} && c != d && c != other && d != other
    ensures Join(Or, Equal(s, c), Equal(s, d)) == Some(Unequal(s, other))
    ensures Join(And, Unequal(s, c), Unequal(s, d)) == Some(Equal(s, other))
  {
    assert c in {Yes, Mod, No} && d in {Yes, Mod, No} && other in {Yes, Mod, No};
  }

  /** s = c && s != d is s = c, and s = c && s != c is n, for all constants. */
  lemma EqualUnequalJoin(s: Sym, c: Sym, d: Sym)
    requires s.Type() == STristate && c.Const() && d.Const()
    ensures var j := if c == d then Symbol(No) else Equal(s, c);
      Join(And, Equal(s, c), Unequal(s, d)) == Some(j) == Join(And, Unequal(s, d), Equal(s, c))
  {
  }

  /** A symbol and a comparison of the same symbol; a boolean symbol and its negation. */
  lemma SymbolJoins(s: Sym)
    requires s.BoolOrTristate()
    ensures var e := Symbol(s);
      && (forall e' :: e' in {Equal(s, Yes), Unequal(s, Mod)} ==>
        Join(And, e, e') == Some(Equal(s, Yes)) == Join(And, e', e))
      && Join(And, e, Unequal(s, No)) == Some(e) == Join(And, Unequal(s, No), e)
      && (s.Type() == SBoolean ==> Join(Or, e, Not(e)) == Some(Symbol(Yes)) == Join(Or, Not(e), e))
  {
  }
}
