/**
 * What sym_calc_value computes (kconfig/symbol.c:189-227, 293-434) for symbols
 * that are neither choices nor choice values, over an acyclic graph: the value
 * of a symbol in terms of those it depends on.
 */
module SymbolValues {
  import opened KconfigExpr
  import opened SymbolGraph

  /** curr: the string of a boolean or tristate symbol stays "n". */
  datatype SymVal = SymVal(tri: Tri, str: string)

  /** The parsed symbols, the user values that are set, modules_sym and modules_val. */
  datatype Config = Config(
    table: Table,
    user: map<Sym, SymVal>,
    modulesSym: Maybe<Sym>,
    modules: Tri,
    name: Sym -> string)

  /** No symbol depends on itself, which is what sym_check_deps looks for; only prompts carry a text. */
  ghost predicate Sound(c: Config) {
    && Acyclic(c.table)
    && (forall s, p :: s in c.table && p in c.table[s].props && p.hasText ==> p.kind != Select && p.kind != Choice)
  }

  function InfoOf(c: Config, s: Sym): Info {
    if s in c.table then c.table[s] else Info(Null, [])
  }

  /** expr_calc_value of an optional condition. */
  function Cond(e: Maybe<Expr>, env: Env): Tri {
    if e.Null? then YES else Val(e.value, env)
  }

  /** The first loop of sym_calc_visibility. */
  function AnyPrompt(ps: seq<Property>, env: Env): Tri {
    if ps == [] then NO
    else if ps[0].hasText then TriOr(Cond(ps[0].visible, env), AnyPrompt(ps[1..], env))
    else AnyPrompt(ps[1..], env)
  }

  /** sym->visible */
  function Visible(c: Config, s: Sym, env: Env): Tri {
    var t := AnyPrompt(InfoOf(c, s).props, env);
    if t == MOD && (s.Type() != STristate || c.modules == NO) then YES else t
  }

  /** sym_get_type */
  function EffectiveType(c: Config, s: Sym): SymType {
    if s.Type() == STristate && c.modules == NO then SBoolean else s.Type()
  }

  /** sym->rev_dep.tri */
  function RevDep(c: Config, s: Sym, env: Env): Tri {
    var e := InfoOf(c, s).revDep;
    var t := if e.Null? then NO else Val(e.value, env);
    if t == MOD && EffectiveType(c, s) == SBoolean then YES else t
  }

  /** sym_get_default_prop: the first default whose condition is not n. */
  function DefaultProp(ps: seq<Property>, env: Env): (r: Maybe<Property>)
    ensures r.Is? ==> r.value in ps && r.value.kind == Default
  {
    if ps == [] then Null
    else if ps[0].kind == Default && Cond(ps[0].visible, env) != NO then Is(ps[0])
    else DefaultProp(ps[1..], env)
  }

  /** The boolean and tristate case before the reverse dependencies are added. */
  function OwnTri(c: Config, s: Sym, env: Env): Tri {
    var vis := Visible(c, s, env);
    if vis != NO && s in c.user then TriAnd(c.user[s].tri, vis)
    else
      var p := DefaultProp(InfoOf(c, s).props, env);
      if p.Null? then NO else TriAnd(Cond(p.value.expr, env), Cond(p.value.visible, env))
  }

  function CalcTri(c: Config, s: Sym, env: Env): Tri {
    var t := TriOr(OwnTri(c, s, env), RevDep(c, s, env));
    if t == MOD && EffectiveType(c, s) == SBoolean then YES else t
  }

  /** The string, int and hex case; the range check is left out. */
  function CalcStr(c: Config, s: Sym, env: Env): string {
    if Visible(c, s, env) != NO && s in c.user then c.user[s].str
    else
      var p := DefaultProp(InfoOf(c, s).props, env);
      if p.Is? && p.value.expr.Is? && p.value.expr.value.Symbol? then env.val(p.value.expr.value.sym) else ""
  }

  function Calc(c: Config, s: Sym, env: Env): SymVal {
    match s
    case Yes => SymVal(YES, "y")
    case Mod => SymVal(MOD, "m")
    case No => SymVal(NO, "n")
    case Named(_, ty, _) =>
      if ty == SBoolean || ty == STristate then SymVal(CalcTri(c, s, env), "n")
      else if ty == SInt || ty == SHex || ty == SString then SymVal(NO, CalcStr(c, s, env))
      else SymVal(NO, c.name(s))
  }

  /** The value of a symbol, from the values of all symbols of a smaller rank. */
  ghost function Value(c: Config, s: Sym): SymVal
    requires Sound(c)
    decreases Rank(c.table, s)
  {
    Calc(c, s, Below(c, s))
  }

  ghost function Below(c: Config, s: Sym): Env
    requires Sound(c)
    decreases Rank(c.table, s), 0
  {
    Env(
      t => if Rank(c.table, t) < Rank(c.table, s) then Value(c, t).tri else NO,
      t => if Rank(c.table, t) < Rank(c.table, s) then Value(c, t).str else "",
      c.modules)
  }

  /** All calculated values together. */
  ghost function Values(c: Config): Env
    requires Sound(c)
  {
    Env(t => Value(c, t).tri, t => Value(c, t).str, c.modules)
  }

  lemma ValuesAt(c: Config, s: Sym)
    requires Sound(c)
    ensures Values(c).tri(s) == Value(c, s).tri && Values(c).val(s) == Value(c, s).str
  {
  }

  ghost predicate Agree(a: Env, b: Env, syms: seq<Sym>) {
    a.modules == b.modules && forall s :: s in syms ==> a.tri(s) == b.tri(s) && a.val(s) == b.val(s)
  }

  lemma {:induction false} ValAgrees(e: Expr, a: Env, b: Env)
    requires Agree(a, b, Symbols(e))
    ensures Val(e, a) == Val(e, b)
  {
    match e
    case Bin(_, l, r) =>
      assert Symbols(e) == Symbols(l) + Symbols(r);
      ValAgrees(l, a, b);
      ValAgrees(r, a, b);
    case Not(x) => ValAgrees(x, a, b);
    case Equal(x, y) => assert x in Symbols(e) && y in Symbols(e);
    case Unequal(x, y) => assert x in Symbols(e) && y in Symbols(e);
    case Symbol(s) => assert s in Symbols(e);
  }

  lemma CondAgrees(e: Maybe<Expr>, a: Env, b: Env)
    requires Agree(a, b, MaybeSymbols(e))
    ensures Cond(e, a) == Cond(e, b)
  {
    if e.Is? { ValAgrees(e.value, a, b); }
  }

  lemma {:induction false} PropsAgree(ps: seq<Property>, a: Env, b: Env)
    requires Agree(a, b, PropsSymbols(ps))
    requires forall p :: p in ps && p.hasText ==> p.kind != Select && p.kind != Choice
    ensures AnyPrompt(ps, a) == AnyPrompt(ps, b)
    ensures DefaultProp(ps, a) == DefaultProp(ps, b)
    ensures var p := DefaultProp(ps, a); p.Is? ==>
      Agree(a, b, MaybeSymbols(p.value.expr)) && Agree(a, b, MaybeSymbols(p.value.visible))
  {
    if ps != [] {
      assert PropsSymbols(ps) == PropSymbols(ps[0]) + PropsSymbols(ps[1..]);
      PropsAgree(ps[1..], a, b);
      if ps[0].hasText || ps[0].kind == Default { CondAgrees(ps[0].visible, a, b); }
    }
  }

  /** The value of a symbol only looks at what it depends on. */
  lemma CalcAgrees(c: Config, s: Sym, a: Env, b: Env)
    requires Sound(c) && Agree(a, b, Deps(c.table, s))
    ensures Calc(c, s, a) == Calc(c, s, b)
    ensures Visible(c, s, a) == Visible(c, s, b) && RevDep(c, s, a) == RevDep(c, s, b)
  {
    var info := InfoOf(c, s);
    if s in c.table {
      assert Deps(c.table, s) == MaybeSymbols(info.revDep) + PropsSymbols(info.props);
      PropsAgree(info.props, a, b);
      if info.revDep.Is? { ValAgrees(info.revDep.value, a, b); }
      var p := DefaultProp(info.props, a);
      if p.Is? {
        CondAgrees(p.value.expr, a, b);
        CondAgrees(p.value.visible, a, b);
        if p.value.expr.Is? && p.value.expr.value.Symbol? {
          assert p.value.expr.value.sym in MaybeSymbols(p.value.expr);
        }
      }
    }
  }

  /** The values solve the equations of the source, with no ranks in sight. */
  lemma ValueEquation(c: Config, s: Sym)
    requires Sound(c)
    ensures Value(c, s) == Calc(c, s, Values(c))
  {
    forall d | d in Deps(c.table, s) ensures Rank(c.table, d) < Rank(c.table, s) {
      assert Edge(c.table, s, d);
      RankDescends(c.table, s, d);
    }
    CalcAgrees(c, s, Below(c, s), Values(c));
  }
}
