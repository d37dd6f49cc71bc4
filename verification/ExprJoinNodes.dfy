/** expr_join_or and expr_join_and on nodes, below their call of expr_eq (kconfig/expr.c:353-407, 417-501). */
module ExprJoinNodes {
  import opened KconfigExpr
  import opened Sequences
  import opened ExprJoin
  import opened ExprNodes

  /** The symbol of a comparison, a plain symbol or, if that is allowed, what is negated. */
  method LeafSymbol(n: Node, first: bool) returns (found: bool, s: Sym)
    requires n.Valid()
    ensures var o := if first then FirstSymbol(n.expr) else SecondSymbol(n.expr);
      found == o.Some? && (found ==> s == o.value)
  {
    found, s := false, n.lsym;
    if n.kind.EBin? { return; }
    if n.kind == ENot {
      var tmp := n.left;
      if tmp.kind != ESymbol && !(first && (tmp.kind == EEqual || tmp.kind == EUnequal)) { return; }
      s := tmp.lsym;
    }
    found := true;
  }

  method CommonSymbol(n1: Node, n2: Node) returns (found: bool, s: Sym)
    requires n1.Valid() && n2.Valid()
    ensures var o := JoinSymbol(n1.expr, n2.expr); found == o.Some? && (found ==> s == o.value)
  {
    var f1, s1 := LeafSymbol(n1, true);
    var f2, s2 := LeafSymbol(n2, false);
    found, s := f1 && f2 && s1 == s2 && s1.BoolOrTristate(), s1;
  }

  /** One node is of the first kind with the first symbol on the right, the other of the second. */
  predicate PairNodes(n1: Node, n2: Node, k1: Kind, a: Sym, k2: Kind, b: Sym)
    reads n1, n2
  {
    || (n1.kind == k1 && n2.kind == k2 && (k1 != ESymbol ==> n1.rsym == a) && (k2 != ESymbol ==> n2.rsym == b))
    || (n2.kind == k1 && n1.kind == k2 && (k1 != ESymbol ==> n2.rsym == a) && (k2 != ESymbol ==> n1.rsym == b))
  }

  method JoinOr(n1: Node, n2: Node) returns (t: Node?)
    requires n1.Valid() && n2.Valid()
    ensures t == null <==> RuleOr(n1.expr, n2.expr).None?
    ensures t != null ==> t.Valid() && fresh(t.repr) && t.expr == RuleOr(n1.expr, n2.expr).value
  {
    var found, s := CommonSymbol(n1, n2);
    if !found { return null; }
    if s.Type() == STristate {
      if PairNodes(n1, n2, EEqual, Yes, EEqual, Mod) { t := new Node.Compare(EUnequal, s, No); return; }
      if PairNodes(n1, n2, EEqual, Yes, EEqual, No) { t := new Node.Compare(EUnequal, s, Mod); return; }
      if PairNodes(n1, n2, EEqual, Mod, EEqual, No) { t := new Node.Compare(EUnequal, s, Yes); return; }
    }
    if s.Type() == SBoolean {
      if (n1.kind == ENot && n1.left.kind == ESymbol && n2.kind == ESymbol) ||
         (n2.kind == ENot && n2.left.kind == ESymbol && n1.kind == ESymbol) {
        t := new Node.Leaf(Yes);
        return;
      }
    }
    t := null;
  }

  /** The symbol compared and the constants on the right, for one = and one != of a tristate symbol. */
  method JoinConstantNodes(s: Sym, same: Sym, different: Sym) returns (t: Node?)
    ensures t == null <==> JoinConstants(s, same, different).None?
    ensures t != null ==> t.Valid() && fresh(t.repr) && t.expr == JoinConstants(s, same, different).value
  {
    t := null;
    if different.Const() && same.Const() {
      if same != different { t := new Node.Compare(EEqual, s, same); } else { t := new Node.Leaf(No); }
    }
  }

  method JoinAnd(n1: Node, n2: Node) returns (t: Node?)
    requires n1.Valid() && n2.Valid()
    ensures t == null <==> RuleAnd(n1.expr, n2.expr).None?
    ensures t != null ==> t.Valid() && fresh(t.repr) && t.expr == RuleAnd(n1.expr, n2.expr).value
  {
    var found, s := CommonSymbol(n1, n2);
    if !found { return null; }
    if PairNodes(n1, n2, ESymbol, No, EEqual, Yes) { t := new Node.Compare(EEqual, s, Yes); return; }
    if PairNodes(n1, n2, ESymbol, No, EUnequal, No) { t := new Node.Leaf(s); return; }
    if PairNodes(n1, n2, ESymbol, No, EUnequal, Mod) { t := new Node.Compare(EEqual, s, Yes); return; }
    t := null;
    if s.Type() == STristate { t := JoinAndTristate(n1, n2, s); }
  }

  /** The rules for two comparisons of one tristate symbol. */
  method JoinAndTristate(n1: Node, n2: Node, s: Sym) returns (t: Node?)
    requires n1.Valid() && n2.Valid() && s.Type() == STristate && JoinSymbol(n1.expr, n2.expr) == Some(s)
    ensures t == null <==> RuleAndTristate(s, n1.expr, n2.expr).None?
    ensures t != null ==> t.Valid() && fresh(t.repr) && t.expr == RuleAndTristate(s, n1.expr, n2.expr).value
  {
    t := null;
    if n1.kind == EEqual && n2.kind == EUnequal {
      t := JoinConstantNodes(s, n1.rsym, n2.rsym);
    } else if n1.kind == EUnequal && n2.kind == EEqual {
      t := JoinConstantNodes(s, n2.rsym, n1.rsym);
    } else if PairNodes(n1, n2, EUnequal, Yes, EUnequal, No) {
      t := new Node.Compare(EEqual, s, Mod);
    } else if PairNodes(n1, n2, EUnequal, Yes, EUnequal, Mod) {
      t := new Node.Compare(EEqual, s, No);
    } else if PairNodes(n1, n2, EUnequal, Mod, EUnequal, No) {
      t := new Node.Compare(EEqual, s, Yes);
    }
  }
}
