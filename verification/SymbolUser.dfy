/**
 * Setting a boolean or tristate symbol (kconfig/symbol.c:474-527): when the
 * value sticks, and what else changes.
 */
module SymbolUser {
  import opened KconfigExpr
  import opened SymbolGraph
  import opened SymbolValues

  /** a depends on b, directly or not, or is b. */
  ghost predicate Reaches(c: Config, a: Sym, b: Sym)
    requires Sound(c)
    decreases Rank(c.table, a)
  {
    a == b || exists d :: Edge(c.table, a, d) && Rank(c.table, d) < Rank(c.table, a) && Reaches(c, d, b)
  }

  lemma {:induction false} ReachesRank(c: Config, a: Sym, b: Sym)
    requires Sound(c) && Reaches(c, a, b)
    ensures Rank(c.table, b) <= Rank(c.table, a)
    decreases Rank(c.table, a)
  {
    if a != b {
      var d :| Edge(c.table, a, d) && Rank(c.table, d) < Rank(c.table, a) && Reaches(c, d, b);
      ReachesRank(c, d, b);
    }
  }

  /** The field def[S_DEF_USER].tri with SYMBOL_DEF_USER. */
  function WithUser(c: Config, s: Sym, val: Tri): Config {
    c.(user := c.user[s := SymVal(val, if s in c.user then c.user[s].str else "")])
  }

  /** A symbol that does not depend on s keeps its value when s is set. */
  lemma {:induction false} OthersKeep(c: Config, s: Sym, val: Tri, t: Sym)
    requires Sound(c) && !Reaches(c, t, s)
    ensures Value(WithUser(c, s, val), t) == Value(c, t)
    decreases Rank(c.table, t)
  {
    var c' := WithUser(c, s, val);
    forall d | d in Deps(c.table, t) ensures Value(c', d) == Value(c, d) {
      assert Edge(c.table, t, d);
      OthersKeep(c, s, val, d);
    }
    ValueEquation(c, t);
    ValueEquation(c', t);
    CalcAgrees(c, t, Values(c), Values(c'));
    CalcSameUser(c, s, val, t, Values(c'));
  }

  /** Only the value of s itself is computed from the user value of s. */
  lemma CalcSameUser(c: Config, s: Sym, val: Tri, t: Sym, env: Env)
    ensures t != s ==> Calc(WithUser(c, s, val), t, env) == Calc(c, t, env)
    ensures Visible(WithUser(c, s, val), t, env) == Visible(c, t, env)
    ensures RevDep(WithUser(c, s, val), t, env) == RevDep(c, t, env)
  {
  }

  /** What s depends on does not depend on s, so its bounds stay the same. */
  lemma BoundsKeep(c: Config, s: Sym, val: Tri)
    requires Sound(c)
    ensures var c' := WithUser(c, s, val);
      Visible(c', s, Values(c')) == Visible(c, s, Values(c)) && RevDep(c', s, Values(c')) == RevDep(c, s, Values(c))
  {
    var c' := WithUser(c, s, val);
    forall d | d in Deps(c.table, s) ensures Value(c', d) == Value(c, d) {
      assert Edge(c.table, s, d);
      if Reaches(c, d, s) { ReachesRank(c, d, s); }
      OthersKeep(c, s, val, d);
    }
    CalcAgrees(c, s, Values(c), Values(c'));
    CalcSameUser(c, s, val, s, Values(c'));
  }

  /** sym_tristate_within_range on calculated values. */
  ghost predicate WithinRange(c: Config, s: Sym, val: Tri)
    requires Sound(c)
  {
    var vis, rev, ty := Visible(c, s, Values(c)), RevDep(c, s, Values(c)), EffectiveType(c, s);
    && vis != NO
    && (ty == SBoolean || ty == STristate)
    && !(ty == SBoolean && val == MOD)
    && vis > rev
    && rev <= val <= vis
  }

  /**
   * The value of s after it has been set and everything is calculated again:
   * an invisible symbol ignores the setting, a visible one takes it exactly if
   * it lies between the bounds, or equals the lower one, and is not m for a
   * symbol that can only be y or n.
   */
  lemma SetTristate(c: Config, s: Sym, val: Tri)
    requires Sound(c) && s.BoolOrTristate()
    ensures var c' := WithUser(c, s, val);
      var vis, rev := Visible(c, s, Values(c)), RevDep(c, s, Values(c));
      if vis == NO then Value(c', s) == Value(c, s)
      else Value(c', s).tri == val <==>
        rev <= val && (val <= vis || val == rev) && !(val == MOD && EffectiveType(c, s) == SBoolean)
  {
    var c' := WithUser(c, s, val);
    BoundsKeep(c, s, val);
    ValueEquation(c, s);
    ValueEquation(c', s);
    if Visible(c, s, Values(c)) == NO { InvisibleIgnores(c, s, val); }
  }

  /**
   * Setting a symbol to the value it already has is accepted without a look at
   * the bounds. The value survives exactly if the symbol is invisible or the
   * value is not above the visibility or is the lower bound.
   */
  lemma SetToCurrent(c: Config, s: Sym)
    requires Sound(c) && s.BoolOrTristate()
    ensures var val := Value(c, s).tri;
      var vis, rev := Visible(c, s, Values(c)), RevDep(c, s, Values(c));
      Value(WithUser(c, s, val), s).tri == val <==> vis == NO || val <= vis || val == rev
  {
    SetTristate(c, s, Value(c, s).tri);
    ValueEquation(c, s);
  }

  lemma InvisibleIgnores(c: Config, s: Sym, val: Tri)
    requires Sound(c) && s.BoolOrTristate() && Visible(c, s, Values(c)) == NO
    ensures Value(WithUser(c, s, val), s) == Value(c, s)
  {
    var c' := WithUser(c, s, val);
    BoundsKeep(c, s, val);
    forall d | d in Deps(c.table, s) ensures Value(c', d) == Value(c, d) {
      assert Edge(c.table, s, d);
      if Reaches(c, d, s) { ReachesRank(c, d, s); }
      OthersKeep(c, s, val, d);
    }
    ValueEquation(c, s);
    ValueEquation(c', s);
    CalcAgrees(c', s, Values(c), Values(c'));
    assert OwnTri(c', s, Values(c)) == OwnTri(c, s, Values(c));
    assert CalcTri(c', s, Values(c)) == CalcTri(c, s, Values(c));
  }

  /** modules_val is what modules_sym is calculated to. */
  ghost predicate ModulesSettled(c: Config)
    requires Sound(c)
  {
    c.modulesSym.Is? ==> c.modules == Value(c, c.modulesSym.value).tri
  }

  /**
   * Accepted user values stick, other symbols keep their values unless they
   * depend on the one that was set, and modules_val stays right.
   */
  lemma AcceptedValueSticks(c: Config, s: Sym, val: Tri)
    requires Sound(c) && s.BoolOrTristate() && WithinRange(c, s, val)
    ensures Value(WithUser(c, s, val), s).tri == val
    ensures forall t :: !Reaches(c, t, s) ==> Value(WithUser(c, s, val), t) == Value(c, t)
    ensures ModulesSettled(c) && (c.modulesSym.Is? ==> !Reaches(c, c.modulesSym.value, s)) ==>
      ModulesSettled(WithUser(c, s, val))
  {
    SetTristate(c, s, val);
    forall t | !Reaches(c, t, s) ensures Value(WithUser(c, s, val), t) == Value(c, t) {
      OthersKeep(c, s, val, t);
    }
  }

  // ---- the calculated values are what the expression rewriter relies on

  /** Constants are interned by name, and y, m and n are not among the others. */
  ghost predicate Interned(c: Config) {
    && (forall s: Sym :: s.Const() && s.Named? ==> s.ty == SUnknown && c.name(s) !in {"y", "m", "n"})
    && (forall s: Sym, t: Sym :: s.Const() && t.Const() && s.Named? && t.Named? && s != t ==> c.name(s) != c.name(t))
  }

  lemma ValuesConsistent(c: Config)
    requires Sound(c) && Interned(c)
    ensures Consistent(Values(c))
  {
    var env := Values(c);
    ValueEquation(c, Yes);
    ValueEquation(c, Mod);
    ValueEquation(c, No);
    forall s: Sym | s.Type() == SBoolean || (c.modules == NO && s.BoolOrTristate()) ensures env.tri(s) != MOD {
      ValueEquation(c, s);
    }
    forall s: Sym | s.Const() ensures StringValue(env, s) ==
      match s { case Yes => "y" case Mod => "m" case No => "n" case _ => c.name(s) }
    {
      ValueEquation(c, s);
    }
  }
}
