/**
 * The dependency tests of menu_finalize (kconfig/menu.c:342-361) and what they say
 * about the entries that are put below another one.
 */
module MenuInside {
  import opened KconfigExpr
  import opened ExprDups
  import opened ExprDupsExample
  import opened ExprTransform
  import opened ExprEquality
  import opened ExprCompare
  import opened SymbolGraph
  import opened MenuTree

  datatype MenuPrompt = MenuPrompt(hasText: bool, visible: Maybe<Expr>)

  /** struct menu without its links; an absent expression stands for y. */
  datatype Item = Item(id: nat, sym: Maybe<Sym>, prompt: Maybe<MenuPrompt>, dep: Maybe<Expr>)

  /** menu->prompt ? menu->prompt->visible.expr : menu->dep */
  function Condition(i: Item): Maybe<Expr> {
    if i.prompt.Is? then i.prompt.value.visible else i.dep
  }

  /** parent->prompt ? parent->prompt->visible.expr : NULL */
  function Visibility(i: Item): Maybe<Expr> {
    if i.prompt.Is? then i.prompt.value.visible else Null
  }

  function Value(e: Maybe<Expr>, env: Env): Tri {
    if e.Null? then YES else Val(e.value, env)
  }

  /** expr_trans_compare against n of an absent expression is !n. */
  function UpperNotNo(e: Maybe<Expr>): Expr {
    if e.Null? then EliminateDups(Transform(Not(Symbol(No)))) else NotNo(e.value)
  }

  lemma NullIsYes()
    ensures UpperNotNo(Null) == Symbol(Yes)
  {
    assert Transform(Not(Symbol(No))) == Symbol(Yes);
  }

  /** menu.c:347-361 */
  predicate Inside(up: Item, x: Item) {
    var d := Condition(x);
    up.sym.Is? && d.Is? && Contains(d.value, up.sym.value) &&
    (Depends(d.value, up.sym.value) ||
     EliminateEq(NotNo(d.value), UpperNotNo(Visibility(up))).e2 == Symbol(Yes))
  }

  function MenuAsks(): Asks<Item> {
    Asks(
      (i: Item) => i.sym.Is?,
      (i: Item) => i.prompt.Is? && i.prompt.value.hasText,
      (p: Item, x: Item) => Inside(p, x))
  }

  /** Visible in two-valued logic. */
  ghost predicate Shows(e: Maybe<Expr>, env: Env) { e.Null? || Two(e.value, No, env) }

  /** Where that is the same as not being n, or at least implies it. */
  lemma ShowsMeans(e: Maybe<Expr>, env: Env)
    requires Consistent(env)
    ensures e.Null? || Comparable(e.value, env) ==> (Shows(e, env) <==> Value(e, env) != NO)
    ensures (e.Null? || Sided(e.value, env)) && Shows(e, env) ==> Value(e, env) != NO
  {
    if e.Is? {
      if Comparable(e.value, env) { TwoComparable(e.value, No, env); }
      if Sided(e.value, env) && Shows(e, env) { TwoSided(e.value, env); }
    }
  }

  /**
   * In two-valued logic an entry that belongs below another shows only where the symbol of
   * the other is not n or the other shows.
   */
  lemma InsideMeans(up: Item, x: Item, env: Env)
    requires Consistent(env) && Inside(up, x) && up.sym.value.BoolOrTristate() && Shows(Condition(x), env)
    ensures env.tri(up.sym.value) != NO || Shows(Visibility(up), env)
  {
    var d, s := Condition(x).value, up.sym.value;
    if Depends(d, s) {
      if env.tri(s) == NO {
        StringOfTristate(env, s);
        DependsCorrect(d, s, env);
      }
    } else if Visibility(up).Is? {
      ImpliedByTwo(Visibility(up).value, d, env);
    }
  }

  /**
   * So does every entry that menu_finalize takes from behind a symbol and puts below it. If
   * nothing negated in its own condition is m, and in that of the upper entry only plain
   * symbols, it is never visible where the upper entry is not.
   */
  lemma TakenOverMeans(up: Item, t: Menus<Item>, x: Item, env: Env)
    requires Consistent(env) && up.sym.Is? && up.sym.value.BoolOrTristate()
    requires x in Tops(Absorb(up, t, MenuAsks()).0)
    ensures Shows(Condition(x), env) ==> env.tri(up.sym.value) != NO || Shows(Visibility(up), env)
    ensures (Visibility(up).Is? ==> Sided(Visibility(up).value, env)) ==>
      (Shows(Condition(x), env) || (Comparable(Condition(x).value, env) && Value(Condition(x), env) != NO)) ==>
      env.tri(up.sym.value) != NO || Value(Visibility(up), env) != NO
  {
    AbsorbIsMaximal(up, t, MenuAsks());
    assert MenuAsks().inside(up, x);
    ShowsMeans(Condition(x), env);
    ShowsMeans(Visibility(up), env);
    if Shows(Condition(x), env) { InsideMeans(up, x, env); }
  }

  lemma LooseTransform(a: Sym, p: Sym)
    requires a.Named? && p.Named? && a.Type() == STristate && p.Type() == STristate
    ensures Transform(Not(Bin(Or, Unequal(a, No), Not(Unequal(p, Yes))))) == Bin(And, Equal(a, No), Unequal(p, Yes))
  {
    var l, r := Equal(a, No), Unequal(p, Yes);
    assert Transform(r) == r && Transform(Equal(p, Yes)) == Equal(p, Yes) && Transform(Unequal(a, No)) == Unequal(a, No);
    assert Transform(Not(r)) == TransformNot(r) == Equal(p, Yes);
    var o := Bin(Or, Unequal(a, No), Equal(p, Yes));
    assert Transform(Bin(Or, Unequal(a, No), Not(r))) == o;
    assert Transform(Not(Unequal(a, No))) == TransformNot(Unequal(a, No)) == l;
    assert Transform(Not(Equal(p, Yes))) == TransformNot(Equal(p, Yes)) == r;
    assert Transform(Bin(And, Not(Unequal(a, No)), Not(Equal(p, Yes)))) == Bin(And, l, r);
    assert TransformNot(o) == Bin(And, l, r);
  }

  lemma LooseNotNo(a: Sym, p: Sym)
    requires a.Named? && p.Named? && a != p && a.Type() == STristate && p.Type() == STristate
    ensures NotNo(Bin(And, Not(Symbol(a)), Unequal(p, Yes))) == Bin(And, Equal(a, No), Unequal(p, Yes))
  {
    var l, r := Equal(a, No), Unequal(p, Yes);
    assert TransCompare(Not(Symbol(a)), true, No) == Unequal(a, No) && TransCompare(r, true, No) == Not(r);
    assert TransCompare(Bin(And, Not(Symbol(a)), r), false, No) == Not(Bin(Or, Unequal(a, No), Not(r)));
    LooseTransform(a, p);
    PairStill(And, l, r);
    PairFlat(And, l, r, [], []);
    assert Round(Bin(And, l, r)).count == 0;
  }

  /** What remains of A=n once it has been cancelled against the condition of that entry. */
  lemma LooseCancels(a: Sym, p: Sym)
    requires a.Named?
    ensures EliminateEq(Bin(And, Equal(a, No), Unequal(p, Yes)), Equal(a, No)).e2 == Symbol(Yes)
  {
    var l, r, y := Equal(a, No), Unequal(p, Yes), Symbol(Yes);
    assert ExprEq(l, l) && !ExprEq(r, y);
    assert Cancel(And, l, l) == Cancelled(y, y, 1);
    assert Cancel(And, r, y) == Cancelled(r, y, 0);
    assert Cancel(And, Bin(And, l, r), l) == CancelLeft(And, Bin(And, l, r), l) == Cancelled(Bin(And, y, r), y, 1);
  }

  /**
   * An entry that depends on !A && P!=y is put below a symbol P that is visible if A=n.
   * If A is m and P is n, that entry is visible, and what it is put below is not.
   */
  lemma TakenTooLoosely(i: nat, j: nat, env: Env)
    requires Consistent(env) && i != j
    requires env.tri(Named(i, STristate, false)) == MOD && env.tri(Named(j, STristate, false)) == NO
    ensures var a, p := Named(i, STristate, false), Named(j, STristate, false);
      var up := Item(0, Is(p), Is(MenuPrompt(true, Is(Equal(a, No)))), Null);
      var x := Item(1, Null, Null, Is(Bin(And, Not(Symbol(a)), Unequal(p, Yes))));
      Inside(up, x) && Value(Condition(x), env) == MOD && Value(Visibility(up), env) == NO
  {
    var a, p := Named(i, STristate, false), Named(j, STristate, false);
    LooseNotNo(a, p);
    LooseCancels(a, p);
    assert Transform(TransCompare(Equal(a, No), false, No)) == Equal(a, No);
    assert NotNo(Equal(a, No)) == Equal(a, No) by { assert Round(Equal(a, No)).count == 0; }
    StringOfTristate(env, a);
    StringOfTristate(env, p);
    var d := Bin(And, Not(Symbol(a)), Unequal(p, Yes));
    assert Val(Not(Symbol(a)), env) == MOD && Val(Unequal(p, Yes), env) == YES;
    assert Contains(Unequal(p, Yes), p) && Contains(d, p) && !Depends(Unequal(p, Yes), p) && !Depends(d, p);
    assert Val(d, env) == MOD && Val(Equal(a, No), env) == NO;
  }
}
