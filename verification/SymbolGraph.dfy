/** Symbols, their properties, and the dependency graph that sym_check_deps walks. */
module SymbolGraph {
  import opened Sequences
  import opened KconfigExpr
  import opened ExprCompare

  datatype Maybe<+T> = Null | Is(value: T)

  datatype PropKind = Prompt | Default | Select | Choice | OtherKind

  /** struct property: text tells prompts, visible is the condition, expr the value. */
  datatype Property = Property(kind: PropKind, hasText: bool, visible: Maybe<Expr>, expr: Maybe<Expr>)

  datatype Info = Info(revDep: Maybe<Expr>, props: seq<Property>)

  /** The symbol table: constants and undefined symbols have no entry. */
  type Table = map<Sym, Info>

  /** The symbols of an expression in the order of sym_check_expr_deps. */
  function Symbols(e: Expr): seq<Sym> {
    match e
    case Bin(_, l, r) => Symbols(l) + Symbols(r)
    case Not(a) => Symbols(a)
    case Equal(a, b) => [a, b]
    case Unequal(a, b) => [a, b]
    case Symbol(s) => [s]
  }

  function MaybeSymbols(e: Maybe<Expr>): seq<Sym> {
    if e.Null? then [] else Symbols(e.value)
  }

  /** What one property contributes in sym_check_sym_deps. */
  function PropSymbols(p: Property): seq<Sym> {
    if p.kind == Choice || p.kind == Select then []
    else if p.kind == Default then MaybeSymbols(p.visible) + MaybeSymbols(p.expr)
    else MaybeSymbols(p.visible)
  }

  function PropsSymbols(ps: seq<Property>): seq<Sym> {
    if ps == [] then [] else PropSymbols(ps[0]) + PropsSymbols(ps[1..])
  }

  /** All symbols that sym_check_sym_deps visits for s, in order. */
  function Deps(t: Table, s: Sym): seq<Sym> {
    if s in t then MaybeSymbols(t[s].revDep) + PropsSymbols(t[s].props) else []
  }

  // ---- what an edge means

  predicate Occurs(s: Sym, e: Maybe<Expr>) { e.Is? && Contains(e.value, s) }

  lemma {:induction false} SymbolsOccur(s: Sym, e: Expr)
    ensures s in Symbols(e) <==> Contains(e, s)
  {
    match e
    case Bin(_, l, r) => SymbolsOccur(s, l); SymbolsOccur(s, r);
    case Not(a) => SymbolsOccur(s, a);
    case _ =>
  }

  /** The condition of a property counts unless it is a choice or select, the expression only of a default. */
  predicate PropNames(p: Property, s: Sym) {
    p.kind != Choice && p.kind != Select && (Occurs(s, p.visible) || (p.kind == Default && Occurs(s, p.expr)))
  }

  lemma PropName(p: Property, s: Sym)
    ensures s in PropSymbols(p) <==> PropNames(p, s)
  {
    if p.visible.Is? { SymbolsOccur(s, p.visible.value); }
    if p.expr.Is? { SymbolsOccur(s, p.expr.value); }
  }

  lemma {:induction false} PropsName(ps: seq<Property>, s: Sym)
    ensures s in PropsSymbols(ps) <==> exists p :: p in ps && PropNames(p, s)
  {
    if ps != [] {
      PropName(ps[0], s);
      PropsName(ps[1..], s);
      hide PropNames, PropSymbols;
      assert forall p :: p in ps <==> p == ps[0] || p in ps[1..];
    }
  }

  /** A symbol depends on what occurs in its reverse dependencies and in its properties. */
  lemma EdgeMeans(t: Table, a: Sym, b: Sym)
    ensures Edge(t, a, b) <==> a in t && (Occurs(b, t[a].revDep) || exists p :: p in t[a].props && PropNames(p, b))
  {
    if a in t {
      PropsName(t[a].props, b);
      if t[a].revDep.Is? { SymbolsOccur(b, t[a].revDep.value); }
    }
  }

  /** A closed walk along dependencies. */
  ghost predicate Cycle(t: Table, c: seq<Sym>) {
    |c| > 0 && Walk(t, c) && Edge(t, c[|c| - 1], c[0])
  }

  ghost predicate Walk(t: Table, w: seq<Sym>) {
    forall i, j :: 0 <= i && j == i + 1 && j < |w| ==> Edge(t, w[i], w[j])
  }

  ghost predicate Edge(t: Table, a: Sym, b: Sym) { b in Deps(t, a) }

  ghost predicate Acyclic(t: Table) {
    forall c: seq<Sym> :: !Cycle(t, c)
  }

  /** Every symbol of the list comes after all it depends on. */
  ghost predicate Topological(t: Table, order: seq<Sym>) {
    && Distinct(order)
    && (forall i, s :: 0 <= i < |order| && Edge(t, order[i], s) ==> s in order[..i])
  }

  lemma TopologicalExtend(t: Table, order: seq<Sym>, s: Sym)
    requires Topological(t, order) && s !in order
    requires forall d :: Edge(t, s, d) ==> d in order
    ensures Topological(t, order + [s])
  {
    var o := order + [s];
    forall i, d | 0 <= i < |o| && Edge(t, o[i], d) ensures d in o[..i] {
      if i < |order| { assert d in order[..i]; assert o[..i] == order[..i]; } else { assert o[..i] == order; }
    }
  }

  ghost function Index(order: seq<Sym>, s: Sym): (i: nat)
    requires s in order
    ensures i < |order| && order[i] == s
  {
    var i :| 0 <= i < |order| && order[i] == s; i
  }

  /** Along a cycle the position in such a list would go down for ever. */
  lemma {:induction false} Descends(t: Table, order: seq<Sym>, c: seq<Sym>, k: nat)
    requires Topological(t, order) && Cycle(t, c) && k < |c| && c[0] in order
    ensures c[k] in order && Index(order, c[k]) + k <= Index(order, c[0])
  {
    if k > 0 {
      Descends(t, order, c, k - 1);
      EdgeDescends(t, order, c[k - 1], c[k]);
    }
  }

  lemma EdgeDescends(t: Table, order: seq<Sym>, a: Sym, b: Sym)
    requires Topological(t, order) && a in order && Edge(t, a, b)
    ensures b in order && Index(order, b) < Index(order, a)
  {
    var i := Index(order, a);
    assert b in order[..i];
    var j :| 0 <= j < i && order[j] == b;
    assert order[Index(order, b)] == order[j];
  }

  lemma TopologicalAcyclic(t: Table, order: seq<Sym>)
    requires Topological(t, order) && forall s :: s in t ==> s in order
    ensures Acyclic(t)
  {
    forall c: seq<Sym> ensures !Cycle(t, c) {
      if Cycle(t, c) {
        assert c[0] in t by {
          if |c| > 1 { assert Edge(t, c[0], c[1]); }
        }
        Descends(t, order, c, |c| - 1);
        EdgeDescends(t, order, c[|c| - 1], c[0]);
        assert false;
      }
    }
  }

  // ---- a graph without cycles can be listed in such an order

  /** All symbols that have dependencies or are one. */
  ghost function Nodes(t: Table): set<Sym> {
    t.Keys + set s, d | s in t && d in Deps(t, s) :: d
  }

  lemma {:induction false} DistinctBound(w: seq<Sym>, left: set<Sym>)
    requires Distinct(w)
    requires forall s :: s in w ==> s in left
    ensures |w| <= |left|
  {
    if w != [] {
      var rest := left - {w[0]};
      forall s | s in w[1..] ensures s in rest {
        var i :| 0 <= i < |w[1..]| && w[1..][i] == s;
        assert w[i + 1] == s;
      }
      DistinctBound(w[1..], rest);
    }
  }

  lemma WalkOn(t: Table, w: seq<Sym>, d: Sym)
    requires w != [] && Walk(t, w) && Edge(t, w[|w| - 1], d)
    ensures Walk(t, w + [d])
  {
    hide Edge;
    var v := w + [d];
    forall i, j | 0 <= i && j == i + 1 && j < |v| ensures Edge(t, v[i], v[j]) {
      if j < |w| { assert Edge(t, w[i], w[j]); }
    }
  }

  /** A walk that leads back to one of its symbols ends in a cycle. */
  lemma WalkBack(t: Table, w: seq<Sym>, j: nat)
    requires j < |w| && Walk(t, w) && Edge(t, w[|w| - 1], w[j])
    ensures Cycle(t, w[j..])
  {
    hide Edge;
    var c := w[j..];
    forall a, b | 0 <= a && b == a + 1 && b < |c| ensures Edge(t, c[a], c[b]) {
      assert Edge(t, w[j + a], w[j + b]);
    }
  }

  lemma CycleFound(t: Table, c: seq<Sym>)
    requires Cycle(t, c)
    ensures !Acyclic(t)
  {
  }

  ghost predicate GoesOn(t: Table, left: set<Sym>, s: Sym) {
    exists d :: d in left && Edge(t, s, d)
  }

  lemma NextStop(t: Table, left: set<Sym>, s: Sym) returns (d: Sym)
    requires GoesOn(t, left, s)
    ensures d in left && Edge(t, s, d)
  {
    d :| d in left && Edge(t, s, d);
  }

  /** A walk that can go on from everywhere comes back to where it was. */
  lemma {:induction false} WalkCloses(t: Table, left: set<Sym>, w: seq<Sym>)
    requires forall s :: s in left ==> GoesOn(t, left, s)
    requires w != [] && Walk(t, w) && forall s :: s in w ==> s in left
    requires Distinct(w)
    ensures !Acyclic(t)
    decreases |left| - |w|
  {
    hide Edge, Walk, Cycle, Acyclic, GoesOn;
    DistinctBound(w, left);
    var last := w[|w| - 1];
    assert last in w;
    var d := NextStop(t, left, last);
    if d in w {
      var j :| 0 <= j < |w| && w[j] == d;
      WalkBack(t, w, j);
      CycleFound(t, w[j..]);
    } else {
      WalkOn(t, w, d);
      DistinctBound(w + [d], left);
      WalkCloses(t, left, w + [d]);
    }
  }

  /** A list that is not complete can be extended. */
  lemma {:induction false} OrderGrows(t: Table, order: seq<Sym>) returns (o: seq<Sym>)
    requires Acyclic(t) && Topological(t, order) && forall s :: s in order ==> s in Nodes(t)
    ensures Topological(t, o) && forall s :: s in Nodes(t) ==> s in o
    decreases |Nodes(t)| - |order|
  {
    DistinctBound(order, Nodes(t));
    var left := set s | s in Nodes(t) && s !in order;
    if left == {} {
      return order;
    }
    var s := Sink(t, left);
    forall d | Edge(t, s, d) ensures d in order {
      assert s in t && d in Nodes(t);
    }
    TopologicalExtend(t, order, s);
    DistinctBound(order + [s], Nodes(t));
    o := OrderGrows(t, order + [s]);
  }

  lemma Sink(t: Table, left: set<Sym>) returns (s: Sym)
    requires Acyclic(t) && left != {}
    ensures s in left && forall d :: d in left ==> !Edge(t, s, d)
  {
    hide Edge, Acyclic, GoesOn;
    if forall x :: x in left ==> GoesOn(t, left, x) {
      s :| s in left;
      WalkCloses(t, left, [s]);
    }
    s :| s in left && !GoesOn(t, left, s);
    StopsAt(t, left, s);
  }

  lemma StopsAt(t: Table, left: set<Sym>, s: Sym)
    requires !GoesOn(t, left, s)
    ensures forall d :: d in left ==> !Edge(t, s, d)
  {
  }

  /** The place of a symbol in some such list of all; 0 for symbols without edges. */
  ghost function Rank(t: Table, s: Sym): nat
    requires Acyclic(t)
  {
    var o := CompleteOrder(t);
    if s in o then Index(o, s) else 0
  }

  ghost function CompleteOrder(t: Table): (o: seq<Sym>)
    requires Acyclic(t)
    ensures Topological(t, o) && forall s :: s in Nodes(t) ==> s in o
  {
    OrderExists(t);
    var o :| Topological(t, o) && forall s :: s in Nodes(t) ==> s in o;
    o
  }

  lemma OrderExists(t: Table)
    requires Acyclic(t)
    ensures exists o :: Topological(t, o) && forall s :: s in Nodes(t) ==> s in o
  {
    var o := OrderGrows(t, []);
  }

  /** Every dependency leads down. */
  lemma RankDescends(t: Table, a: Sym, b: Sym)
    requires Acyclic(t) && Edge(t, a, b)
    ensures Rank(t, b) < Rank(t, a)
  {
    assert a in t;
    EdgeDescends(t, CompleteOrder(t), a, b);
  }

  /** The graphs without cycles are exactly those whose symbols can be listed so. */
  lemma AcyclicListed(t: Table)
    ensures Acyclic(t) <==> exists o :: Topological(t, o) && forall s :: s in t ==> s in o
  {
    if Acyclic(t) {
      OrderExists(t);
      var o :| Topological(t, o) && forall s :: s in Nodes(t) ==> s in o;
      assert forall s :: s in t ==> s in o;
    }
    if o :| Topological(t, o) && forall s :: s in t ==> s in o {
      TopologicalAcyclic(t, o);
    }
  }
}
