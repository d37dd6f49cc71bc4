/**
 * The value of a symbol read off its properties (kconfig/symbol.c:175-227, 293-434): from
 * the prompts, from the first default that applies, and from the reverse dependencies.
 */
module SymbolDefaults {
  import opened KconfigExpr
  import opened SymbolGraph
  import opened SymbolValues

  /** An optional condition holds with the value of its expression, and with y if there is none. */
  lemma CondMeans(e: Maybe<Expr>, env: Env)
    ensures Cond(e, env) == match e case Null => YES case Is(x) => Val(x, env)
  {
  }

  /** Only a tristate symbol can be m, and only with modules. */
  predicate CanBeMod(c: Config, s: Sym) { s.Type() == STristate && c.modules != NO }

  function Raised(c: Config, s: Sym, t: Tri): Tri { if t == MOD && !CanBeMod(c, s) then YES else t }

  // ---- visibility and reverse dependencies

  /** Some prompt has a condition of at least this value. */
  ghost predicate Prompted(c: Config, s: Sym, env: Env, least: Tri) {
    var ps := InfoOf(c, s).props;
    exists i :: 0 <= i < |ps| && ps[i].hasText && Cond(ps[i].visible, env) >= least
  }

  lemma {:induction false} AnyPromptIsMax(ps: seq<Property>, env: Env, least: Tri)
    requires least != NO
    ensures AnyPrompt(ps, env) >= least <==> exists i :: 0 <= i < |ps| && ps[i].hasText && Cond(ps[i].visible, env) >= least
  {
    hide Cond;
    if ps != [] {
      AnyPromptIsMax(ps[1..], env, least);
      assert forall i :: 1 <= i < |ps| ==> ps[i] == ps[1..][i - 1];
      assert AnyPrompt(ps[1..], env) >= least ==>
        exists i :: 1 <= i < |ps| && ps[i].hasText && Cond(ps[i].visible, env) >= least by {
        if AnyPrompt(ps[1..], env) >= least {
          var i :| 0 <= i < |ps[1..]| && ps[1..][i].hasText && Cond(ps[1..][i].visible, env) >= least;
          assert ps[i + 1].hasText;
        }
      }
    }
  }

  /** A symbol is visible as far as its prompts are, the others raised to y if it cannot be m. */
  lemma VisibleMeans(c: Config, s: Sym, env: Env)
    ensures Visible(c, s, env) != NO <==> Prompted(c, s, env, MOD)
    ensures Visible(c, s, env) == YES <==> Prompted(c, s, env, if CanBeMod(c, s) then YES else MOD)
  {
    AnyPromptIsMax(InfoOf(c, s).props, env, MOD);
    AnyPromptIsMax(InfoOf(c, s).props, env, YES);
  }

  lemma RevDepMeans(c: Config, s: Sym, env: Env)
    requires s.BoolOrTristate()
    ensures InfoOf(c, s).revDep.Null? ==> RevDep(c, s, env) == NO
    ensures InfoOf(c, s).revDep.Is? ==> RevDep(c, s, env) == Raised(c, s, Val(InfoOf(c, s).revDep.value, env))
  {
  }

  // ---- defaults

  /** The first default whose condition is not n. */
  ghost predicate Applies(c: Config, s: Sym, env: Env, i: int) {
    var ps := InfoOf(c, s).props;
    && 0 <= i < |ps| && ps[i].kind == Default && Cond(ps[i].visible, env) != NO
    && (forall j :: 0 <= j < i && ps[j].kind == Default ==> Cond(ps[j].visible, env) == NO)
  }

  lemma {:induction false} DefaultPropFinds(ps: seq<Property>, env: Env, i: nat)
    requires i < |ps| && ps[i].kind == Default && Cond(ps[i].visible, env) != NO
    requires forall j :: 0 <= j < i && ps[j].kind == Default ==> Cond(ps[j].visible, env) == NO
    ensures DefaultProp(ps, env) == Is(ps[i])
  {
    hide Cond;
    if i > 0 {
      assert forall j :: 0 <= j < i - 1 ==> ps[1..][j] == ps[j + 1];
      DefaultPropFinds(ps[1..], env, i - 1);
    }
  }

  lemma {:induction false} DefaultPropFails(ps: seq<Property>, env: Env)
    requires forall j :: 0 <= j < |ps| && ps[j].kind == Default ==> Cond(ps[j].visible, env) == NO
    ensures DefaultProp(ps, env) == Null
  {
    hide Cond;
    if ps != [] {
      assert forall j :: 0 <= j < |ps| - 1 ==> ps[1..][j] == ps[j + 1];
      DefaultPropFails(ps[1..], env);
    }
  }

  /** No default applies exactly if the condition of each is n. */
  lemma {:induction false} NothingApplies(c: Config, s: Sym, env: Env, n: nat)
    requires var ps := InfoOf(c, s).props; n <= |ps| && forall i :: 0 <= i < n ==> !Applies(c, s, env, i)
    ensures var ps := InfoOf(c, s).props;
      forall j :: 0 <= j < n && ps[j].kind == Default ==> Cond(ps[j].visible, env) == NO
  {
    hide Cond;
    if n > 0 {
      NothingApplies(c, s, env, n - 1);
      assert !Applies(c, s, env, n - 1);
    }
  }

  ghost predicate HasUser(c: Config, s: Sym)
    requires Sound(c)
  {
    s in c.user && Visible(c, s, Values(c)) != NO
  }

  /** Without a user value, a boolean or tristate symbol takes the default that applies, but no less than what selects it. */
  lemma DefaultValue(c: Config, s: Sym, i: int)
    requires Sound(c) && s.BoolOrTristate() && !HasUser(c, s) && Applies(c, s, Values(c), i)
    ensures var env := Values(c); var p := InfoOf(c, s).props[i];
      Value(c, s).tri == Raised(c, s, TriOr(RevDep(c, s, env), TriAnd(Cond(p.expr, env), Cond(p.visible, env))))
  {
    ValueEquation(c, s);
    DefaultPropFinds(InfoOf(c, s).props, Values(c), i);
    hide Cond, Visible, RevDep, Values, Value, Acyclic;
  }

  lemma NoDefaultValue(c: Config, s: Sym)
    requires Sound(c) && s.BoolOrTristate() && !HasUser(c, s) && forall i :: !Applies(c, s, Values(c), i)
    ensures Value(c, s).tri == RevDep(c, s, Values(c))
  {
    ValueEquation(c, s);
    NothingApplies(c, s, Values(c), |InfoOf(c, s).props|);
    DefaultPropFails(InfoOf(c, s).props, Values(c));
    hide Cond, Visible, Values, Value, Acyclic;
  }

  /** With one, it is the user value as far as the symbol is visible, again no less than what selects it. */
  lemma UserValue(c: Config, s: Sym)
    requires Sound(c) && s.BoolOrTristate() && HasUser(c, s)
    ensures var env := Values(c);
      Value(c, s).tri == Raised(c, s, TriOr(RevDep(c, s, env), TriAnd(c.user[s].tri, Visible(c, s, env))))
  {
    ValueEquation(c, s);
    hide Cond, Visible, RevDep, Values, Value, Acyclic;
  }

  predicate HasText(s: Sym) { s.Type() == SInt || s.Type() == SHex || s.Type() == SString }

  /** The same for strings and numbers; a default that is not a symbol counts as none. */
  lemma TextDefault(c: Config, s: Sym, i: int)
    requires Sound(c) && HasText(s) && !HasUser(c, s) && Applies(c, s, Values(c), i)
    ensures var e := InfoOf(c, s).props[i].expr;
      Value(c, s).str == if e.Is? && e.value.Symbol? then Values(c).val(e.value.sym) else ""
  {
    ValueEquation(c, s);
    DefaultPropFinds(InfoOf(c, s).props, Values(c), i);
    hide Cond, Visible, RevDep, Values, Value, Acyclic;
  }

  lemma TextOtherwise(c: Config, s: Sym)
    requires Sound(c) && HasText(s) && (HasUser(c, s) || forall i :: !Applies(c, s, Values(c), i))
    ensures Value(c, s).str == if HasUser(c, s) then c.user[s].str else ""
  {
    ValueEquation(c, s);
    if !HasUser(c, s) {
      NothingApplies(c, s, Values(c), |InfoOf(c, s).props|);
      DefaultPropFails(InfoOf(c, s).props, Values(c));
    }
    hide Cond, Visible, RevDep, Values, Value, Acyclic;
  }
}
