/**
 * Kconfig's three-valued expressions: symbols, trees, environments and
 * evaluation (kconfig/expr.h, expr_calc_value in kconfig/expr.c).
 */
module KconfigExpr {

  /** enum tristate: no < mod < yes. */
  type Tri = x: int | 0 <= x <= 2 witness 0

  const NO: Tri := 0
  const MOD: Tri := 1
  const YES: Tri := 2

  /** EXPR_AND, EXPR_OR and EXPR_NOT. */
  function TriAnd(a: Tri, b: Tri): Tri { if a < b then a else b }

  function TriOr(a: Tri, b: Tri): Tri { if a > b then a else b }

  function TriNot(a: Tri): Tri { 2 - a }

  datatype SymType = SUnknown | SBoolean | STristate | SInt | SHex | SString | SOther

  /** A symbol is known by its address; the three constants are global objects. */
  datatype Sym =
    | Yes
    | Mod
    | No
    | Named(id: nat, ty: SymType, isConst: bool)
  {
    function Type(): SymType { if Named? then ty else SUnknown }

    predicate Const() { Named? ==> isConst }

    predicate BoolOrTristate() { Type() == SBoolean || Type() == STristate }
  }

  datatype Op = And | Or

  /** struct expr: E_AND and E_OR share one constructor. */
  datatype Expr =
    | Bin(op: Op, left: Expr, right: Expr)
    | Not(arg: Expr)
    | Equal(lhs: Sym, rhs: Sym)
    | Unequal(lhs: Sym, rhs: Sym)
    | Symbol(sym: Sym)

  /** The symbol that is neutral for an operator, and the one that absorbs. */
  function Unit(op: Op): Sym { if op == And then Yes else No }

  function Zero(op: Op): Sym { if op == And then No else Yes }

  function Dual(op: Op): Op { if op == And then Or else And }

  /** What the calculated symbols hold: curr.tri, curr.val and modules_sym. */
  datatype Env = Env(tri: Sym -> Tri, val: Sym -> string, modules: Tri)

  function TriString(t: Tri): string {
    if t == NO then "n" else if t == MOD then "m" else "y"
  }

  /** sym_get_string_value */
  function StringValue(env: Env, s: Sym): string {
    if s.BoolOrTristate() then
      var t := env.tri(s);
      if t == NO then "n"
      else if t == MOD then (if env.modules == NO then "n" else "m")
      else "y"
    else
      env.val(s)
  }

  /** expr_calc_value on a non-null expression. */
  function Val(e: Expr, env: Env): Tri {
    match e
    case Bin(And, l, r) => TriAnd(Val(l, env), Val(r, env))
    case Bin(Or, l, r) => TriOr(Val(l, env), Val(r, env))
    case Not(a) => TriNot(Val(a, env))
    case Equal(a, b) => if StringValue(env, a) == StringValue(env, b) then YES else NO
    case Unequal(a, b) => if StringValue(env, a) == StringValue(env, b) then NO else YES
    case Symbol(s) => env.tri(s)
  }

  function Apply(op: Op, a: Tri, b: Tri): Tri {
    if op == And then TriAnd(a, b) else TriOr(a, b)
  }

  lemma ValOfBin(op: Op, l: Expr, r: Expr, env: Env)
    ensures Val(Bin(op, l, r), env) == Apply(op, Val(l, env), Val(r, env))
  {
  }

  lemma ApplyRegroup(op: Op, a: Tri, b: Tri, c: Tri, d: Tri)
    ensures Apply(op, Apply(op, a, b), Apply(op, c, d)) == Apply(op, Apply(op, a, c), Apply(op, b, d))
    ensures Apply(op, a, Apply(op, c, d)) == Apply(op, Apply(op, a, c), d)
  {
  }

  /** The global constants hold their own values (kconfig/symbol.c:14-30). */
  ghost predicate ConstantsHold(env: Env) {
    && env.tri(Yes) == YES && env.tri(Mod) == MOD && env.tri(No) == NO
    && env.val(Yes) == "y" && env.val(Mod) == "m" && env.val(No) == "n"
  }

  /**
   * What symbol calculation guarantees: boolean symbols are never m, m needs
   * modules, and constants are interned by name so distinct ones differ.
   */
  ghost predicate Consistent(env: Env) {
    && ConstantsHold(env)
    && (forall s: Sym :: s.Type() == SBoolean ==> env.tri(s) != MOD)
    && (env.modules == NO ==> forall s: Sym :: s.BoolOrTristate() ==> env.tri(s) != MOD)
    && (forall s: Sym, t: Sym :: s.Const() && t.Const() && s != t ==> StringValue(env, s) != StringValue(env, t))
  }

  lemma StringOfTristate(env: Env, s: Sym)
    requires Consistent(env) && s.BoolOrTristate()
    ensures StringValue(env, s) == TriString(env.tri(s))
  {
    assert env.modules == NO ==> env.tri(s) != MOD;
  }

  /** Number of nodes. */
  function Size(e: Expr): (n: nat)
    ensures n >= 1
  {
    match e
    case Bin(_, l, r) => 1 + Size(l) + Size(r)
    case Not(a) => 1 + Size(a)
    case _ => 1
  }
}
