/**
 * sym_calc_value with its memory of valid symbols (kconfig/symbol.c:293-434),
 * and expr_calc_value calling it: the values agree with the definition.
 */
module SymbolCalc {
  import opened KconfigExpr
  import opened SymbolGraph
  import opened SymbolValues

  class Calculator {
    const c: Config
    /** SYMBOL_VALID, and curr of the symbols that have been calculated. */
    var valid: set<Sym>
    var curr: map<Sym, SymVal>

    /** All valid symbols hold their values, except those still being calculated. */
    ghost predicate Inv(active: set<Sym>)
      reads this
    {
      && Sound(c)
      && (forall s :: s in valid ==> s in curr)
      && (forall s :: s in valid && s !in active ==> curr[s] == Value(c, s))
      && Yes in valid && Mod in valid && No in valid
    }

    constructor (config: Config)
      requires Sound(config)
      ensures c == config && Inv({})
    {
      c := config;
      valid := {Yes, Mod, No};
      curr := map[Yes := SymVal(YES, "y"), Mod := SymVal(MOD, "m"), No := SymVal(NO, "n")];
      new;
      ValueEquation(c, Yes);
      ValueEquation(c, Mod);
      ValueEquation(c, No);
    }

    ghost predicate Higher(active: set<Sym>, bound: nat)
      requires Sound(c)
    {
      forall a :: a in active ==> Rank(c.table, a) >= bound
    }

    ghost predicate Lower(syms: seq<Sym>, bound: nat)
      requires Sound(c)
    {
      forall d :: d in syms ==> Rank(c.table, d) < bound
    }

    /** sym_calc_value */
    method CalcValue(s: Sym, ghost active: set<Sym>)
      requires Inv(active) && Higher(active, Rank(c.table, s) + 1)
      modifies this
      ensures Inv(active) && old(valid) <= valid && s in valid && curr[s] == Value(c, s)
      decreases Rank(c.table, s), 4
    {
      hide Value, Calc, Deps, Sound, Acyclic, Rank;
      if s in valid { return; }
      valid := valid + {s};
      curr := curr[s := if s in curr then curr[s] else SymVal(NO, "")];
      var v := CalcByType(s, active + {s});
      curr := curr[s := v];
    }

    /** The cases of sym_calc_value for the type of the symbol. */
    method CalcByType(s: Sym, ghost active: set<Sym>) returns (v: SymVal)
      requires s.Named? && Inv(active) && Higher(active, Rank(c.table, s))
      modifies this
      ensures Inv(active) && old(valid) <= valid && v == Value(c, s)
      decreases Rank(c.table, s), 3
    {
      hide Value, Calc, CalcTri, CalcStr, Visible, Deps;
      DepsLower(s);
      ValueByType(s);
      v := SymVal(NO, c.name(s));
      if s.ty == SBoolean || s.ty == STristate {
        var t := CalcTristate(s, active);
        v := SymVal(t, "n");
      } else if s.ty == SInt || s.ty == SHex || s.ty == SString {
        var vis := CalcVisible(s, active);
        var str := OwnString(s, vis, active);
        v := SymVal(NO, str);
      }
    }

    lemma DepsLower(s: Sym)
      requires Sound(c)
      ensures Lower(Deps(c.table, s), Rank(c.table, s))
    {
      forall d | d in Deps(c.table, s) ensures Rank(c.table, d) < Rank(c.table, s) { assert Edge(c.table, s, d); }
    }

    lemma ValueByType(s: Sym)
      requires Sound(c) && s.Named?
      ensures Value(c, s) ==
        if s.ty == SBoolean || s.ty == STristate then SymVal(CalcTri(c, s, Values(c)), "n")
        else if s.ty == SInt || s.ty == SHex || s.ty == SString then SymVal(NO, CalcStr(c, s, Values(c)))
        else SymVal(NO, c.name(s))
    {
      ValueEquation(c, s);
    }

    /** The boolean and tristate case of sym_calc_value. */
    method CalcTristate(s: Sym, ghost active: set<Sym>) returns (t: Tri)
      requires Inv(active) && Higher(active, Rank(c.table, s)) && Lower(Deps(c.table, s), Rank(c.table, s))
      modifies this
      ensures Inv(active) && old(valid) <= valid && t == CalcTri(c, s, Values(c))
      decreases Rank(c.table, s), 2
    {
      var vis := CalcVisible(s, active);
      var rev := CalcRevDep(s, active);
      var own := OwnValue(s, vis, active);
      t := TriOr(own, rev);
      if t == MOD && EffectiveType(c, s) == SBoolean {
        t := YES;
      }
    }

    /** The first half of sym_calc_visibility: the prompts. */
    method CalcVisible(s: Sym, ghost active: set<Sym>) returns (vis: Tri)
      requires Inv(active) && Higher(active, Rank(c.table, s)) && Lower(Deps(c.table, s), Rank(c.table, s))
      modifies this
      ensures Inv(active) && old(valid) <= valid && vis == Visible(c, s, Values(c))
      decreases Rank(c.table, s), 1, 1
    {
      hide Acyclic, Value, Values, Deps, Rank, Cond;
      var ps := InfoOf(c, s).props;
      ghost var env := Values(c);
      vis := NO;
      var i := 0;
      while i < |ps|
        invariant 0 <= i <= |ps| && Inv(active) && old(valid) <= valid
        invariant TriOr(vis, AnyPrompt(ps[i..], env)) == AnyPrompt(ps, env)
      {
        if ps[i].hasText {
          PropOf(s, i);
          var t := CalcCond(ps[i].visible, Rank(c.table, s), active);
          vis := TriOr(vis, t);
        }
        i := i + 1;
      }
      if vis == MOD && (s.Type() != STristate || c.modules == NO) {
        vis := YES;
      }
    }

    /** The second half of sym_calc_visibility: the reverse dependencies. */
    method CalcRevDep(s: Sym, ghost active: set<Sym>) returns (rev: Tri)
      requires Inv(active) && Higher(active, Rank(c.table, s)) && Lower(Deps(c.table, s), Rank(c.table, s))
      modifies this
      ensures Inv(active) && old(valid) <= valid && rev == RevDep(c, s, Values(c))
      decreases Rank(c.table, s), 1, 1
    {
      var info := InfoOf(c, s);
      DepsOf(s);
      rev := NO;
      if info.revDep.Is? {
        rev := CalcExpr(info.revDep.value, Rank(c.table, s), active);
      }
      if rev == MOD && EffectiveType(c, s) == SBoolean {
        rev := YES;
      }
    }

    lemma DepsOf(s: Sym)
      ensures forall d :: d in MaybeSymbols(InfoOf(c, s).revDep) ==> d in Deps(c.table, s)
      ensures forall d :: d in PropsSymbols(InfoOf(c, s).props) ==> d in Deps(c.table, s)
    {
    }

    lemma PropOf(s: Sym, i: nat)
      requires Sound(c) && i < |InfoOf(c, s).props|
      ensures var p := InfoOf(c, s).props[i];
        && (p.hasText || p.kind == Default ==> forall d :: d in MaybeSymbols(p.visible) ==> d in Deps(c.table, s))
        && (p.kind == Default ==> forall d :: d in MaybeSymbols(p.expr) ==> d in Deps(c.table, s))
    {
      DepsOf(s);
      PropIn(InfoOf(c, s).props, i);
    }

    static lemma {:induction false} PropIn(ps: seq<Property>, i: nat)
      requires i < |ps|
      ensures forall d :: d in PropSymbols(ps[i]) ==> d in PropsSymbols(ps)
    {
      if i > 0 { PropIn(ps[1..], i - 1); }
    }

    /** The boolean and tristate case of sym_calc_value up to the reverse dependencies. */
    method OwnValue(s: Sym, vis: Tri, ghost active: set<Sym>) returns (t: Tri)
      requires Inv(active) && Higher(active, Rank(c.table, s)) && Lower(Deps(c.table, s), Rank(c.table, s))
      requires vis == Visible(c, s, Values(c))
      modifies this
      ensures Inv(active) && old(valid) <= valid && t == OwnTri(c, s, Values(c))
      decreases Rank(c.table, s), 1, 1
    {
      hide Value, Calc, Visible, Val, DefaultProp;
      if vis != NO && s in c.user {
        return TriAnd(c.user[s].tri, vis);
      }
      t := NO;
      var p := FindDefault(s, active);
      if p.Is? {
        ghost var i :| 0 <= i < |InfoOf(c, s).props| && InfoOf(c, s).props[i] == p.value;
        PropOf(s, i);
        var v := CalcCond(p.value.expr, Rank(c.table, s), active);
        var w := CalcCond(p.value.visible, Rank(c.table, s), active);
        t := TriAnd(v, w);
      }
    }

    /** The string, int and hex case. */
    method OwnString(s: Sym, vis: Tri, ghost active: set<Sym>) returns (str: string)
      requires Inv(active) && Higher(active, Rank(c.table, s)) && Lower(Deps(c.table, s), Rank(c.table, s))
      requires vis == Visible(c, s, Values(c))
      modifies this
      ensures Inv(active) && old(valid) <= valid && str == CalcStr(c, s, Values(c))
      decreases Rank(c.table, s), 1, 1
    {
      hide Acyclic, Rank, Value, Values, Calc, Visible, Val, DefaultProp;
      if vis != NO && s in c.user {
        return c.user[s].str;
      }
      str := "";
      var p := FindDefault(s, active);
      if p.Is? && p.value.expr.Is? && p.value.expr.value.Symbol? {
        ghost var i :| 0 <= i < |InfoOf(c, s).props| && InfoOf(c, s).props[i] == p.value;
        PropOf(s, i);
        var ds := p.value.expr.value.sym;
        assert ds in MaybeSymbols(p.value.expr);
        CalcValue(ds, active);
        ValuesAt(c, ds);
        str := curr[ds].str;
      }
    }

    /** sym_get_default_prop */
    method FindDefault(s: Sym, ghost active: set<Sym>) returns (p: Maybe<Property>)
      requires Inv(active) && Higher(active, Rank(c.table, s)) && Lower(Deps(c.table, s), Rank(c.table, s))
      modifies this
      ensures Inv(active) && old(valid) <= valid && p == DefaultProp(InfoOf(c, s).props, Values(c))
      decreases Rank(c.table, s), 1, 0
    {
      var ps := InfoOf(c, s).props;
      var i := 0;
      while i < |ps|
        invariant 0 <= i <= |ps| && Inv(active) && old(valid) <= valid
        invariant DefaultProp(ps[i..], Values(c)) == DefaultProp(ps, Values(c))
      {
        if ps[i].kind == Default {
          PropOf(s, i);
          var t := CalcCond(ps[i].visible, Rank(c.table, s), active);
          if t != NO {
            return Is(ps[i]);
          }
        }
        i := i + 1;
      }
      p := Null;
    }

    method CalcCond(e: Maybe<Expr>, ghost bound: nat, ghost active: set<Sym>) returns (t: Tri)
      requires Inv(active) && Higher(active, bound) && Lower(MaybeSymbols(e), bound)
      modifies this
      ensures Inv(active) && old(valid) <= valid && t == Cond(e, Values(c))
      decreases bound, 0, 2
    {
      t := YES;
      if e.Is? { t := CalcExpr(e.value, bound, active); }
    }

    /** expr_calc_value */
    method CalcExpr(e: Expr, ghost bound: nat, ghost active: set<Sym>) returns (t: Tri)
      requires Inv(active) && Higher(active, bound) && Lower(Symbols(e), bound)
      modifies this
      ensures Inv(active) && old(valid) <= valid && t == Val(e, Values(c))
      decreases bound, 0, 1, e
    {
      match e
      case Bin(op, l, r) =>
        var a := CalcExpr(l, bound, active);
        var b := CalcExpr(r, bound, active);
        t := if op == And then TriAnd(a, b) else TriOr(a, b);
      case Not(x) =>
        var a := CalcExpr(x, bound, active);
        t := TriNot(a);
      case Equal(x, y) =>
        var same := SameString(x, y, bound, active);
        t := if same then YES else NO;
      case Unequal(x, y) =>
        var same := SameString(x, y, bound, active);
        t := if same then NO else YES;
      case Symbol(s) =>
        CalcValue(s, active);
        t := curr[s].tri;
    }

    /** Both symbols are calculated, then their strings compared. */
    method SameString(x: Sym, y: Sym, ghost bound: nat, ghost active: set<Sym>) returns (same: bool)
      requires Inv(active) && Higher(active, bound) && Lower([x, y], bound)
      modifies this
      ensures Inv(active) && old(valid) <= valid
      ensures same == (StringValue(Values(c), x) == StringValue(Values(c), y))
      decreases bound, 0, 0
    {
      CalcValue(x, active);
      CalcValue(y, active);
      StringOfValue(x, active);
      StringOfValue(y, active);
      var a, b := StringOf(x), StringOf(y);
      same := a == b;
    }

    lemma StringOfValue(s: Sym, active: set<Sym>)
      requires Inv(active) && s in valid && s !in active
      ensures StringOf(s) == StringValue(Values(c), s)
    {
    }

    /** sym_get_string_value of a calculated symbol. */
    function StringOf(s: Sym): string
      requires s in curr
      reads this
    {
      if s.BoolOrTristate() then
        if curr[s].tri == NO then "n"
        else if curr[s].tri == MOD then (if c.modules == NO then "n" else "m")
        else "y"
      else curr[s].str
    }
  }
}
