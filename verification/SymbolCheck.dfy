/**
 * sym_check_deps and its helpers (kconfig/symbol.c:1059-1216, 1255-1287) for
 * symbols that are neither choices nor choice values.
 */
module SymbolCheck {
  import opened Sequences
  import opened KconfigExpr
  import opened SymbolGraph

  class Checker {
    const table: Table
    /** SYMBOL_CHECK and SYMBOL_CHECKED, and the list that check_top ends. */
    var check: set<Sym>
    var checked: set<Sym>
    var stack: seq<Sym>
    /** What sym_check_print_recursive has printed: one cycle a report. */
    var reports: seq<seq<Sym>>
    /** All symbols that can be met, and those done with, in the order they were finished. */
    ghost const all: set<Sym>
    ghost var order: seq<Sym>

    ghost predicate Inv(st: seq<Sym>)
      reads this
    {
      && (forall s :: s in table ==> s in all)
      && (forall s, d :: s in all && Edge(table, s, d) ==> d in all)
      && (forall s :: s in check <==> s in st) && check <= checked <= all
      && Distinct(st)
      && Walk(table, st)
      && (forall r :: r in reports ==> Cycle(table, r))
      && (reports == [] ==> Topological(table, order))
      && (reports == [] ==> forall s :: s in order <==> s in checked && s !in check)
    }

    /** The symbol on top of the stack depends on s. */
    ghost predicate FromTop(st: seq<Sym>, s: Sym) {
      s in all && (st != [] ==> Edge(table, st[|st| - 1], s))
    }

    /** Nothing that was marked or printed is taken back; the stack is as it was. */
    twostate predicate Onward()
      reads this
    {
      && stack == old(stack) && check == old(check)
      && old(checked) <= checked && old(reports) <= reports
      && (reports == [] ==> old(order) <= order)
    }

    constructor (t: Table, ghost symbols: set<Sym>)
      requires forall s :: s in t ==> s in symbols
      requires forall s, d :: s in symbols && Edge(t, s, d) ==> d in symbols
      ensures table == t && all == symbols && Inv([]) && stack == [] && reports == [] && checked == {}
    {
      table, all := t, symbols;
      check, checked, stack, reports, order := {}, {}, [], [], [];
    }

    /** sym_check_print_recursive: the stack from the symbol met again up to the top. */
    method PrintRecursive(lastSym: Sym)
      requires Inv(stack) && lastSym in check && FromTop(stack, lastSym)
      modifies `reports
      ensures Inv(stack) && |reports| == |old(reports)| + 1 && old(reports) <= reports
      ensures lastSym in reports[|reports| - 1]
    {
      hide Topological, Walk, Cycle, Edge;
      var i := |stack| - 1;
      while stack[i] != lastSym
        invariant 0 <= i < |stack| && lastSym in stack[..i + 1]
        decreases i
      {
        i := i - 1;
      }
      WalkBack(table, stack, i);
      reports := reports + [stack[i..]];
    }

    /** sym_check_deps */
    method CheckDeps(s: Sym) returns (r: Maybe<Sym>)
      requires Inv(stack) && FromTop(stack, s)
      modifies this
      ensures Inv(stack) && Onward() && s in checked
      ensures r.Is? ==> r.value in check && reports != []
      ensures r.Null? && reports == [] ==> s in order
      decreases all - checked, 0, 0
    {
      if s in check {
        PrintRecursive(s);
        return Is(s);
      }
      if s in checked {
        return Null;
      }
      Enter(s);
      r := CheckSymDeps(s);
      Leave(s);
      if r == Is(s) {
        r := Null;
      }
    }

    /** Both flags are set: s is being looked at. */
    method Enter(s: Sym)
      requires Inv(stack) && FromTop(stack, s) && s !in checked
      modifies `check, `checked
      ensures Inv(stack + [s]) && check == old(check) + {s} && checked == old(checked) + {s}
      ensures all - checked < all - old(checked)
    {
      hide Topological, Cycle, Edge;
      check, checked := check + {s}, checked + {s};
      assert s in all - old(checked) && s !in all - checked;
      ghost var st := stack + [s];
      assert forall i :: 0 <= i < |stack| ==> st[i] == stack[i];
    }

    /** The flag SYMBOL_CHECK goes: s is done with. */
    method Leave(s: Sym)
      requires Inv(stack + [s]) && (reports == [] ==> forall d :: Edge(table, s, d) ==> d in order)
      modifies `check, `order
      ensures Inv(stack) && check == old(check) - {s}
      ensures reports == [] ==> order == old(order) + [s]
    {
      ghost var st := stack + [s];
      assert forall i :: 0 <= i < |stack| ==> st[i] == stack[i] && st[i] != st[|stack|];
      check := check - {s};
      if reports == [] {
        TopologicalExtend(table, order, s);
        order := order + [s];
      }
    }

    /** sym_check_sym_deps */
    method CheckSymDeps(s: Sym) returns (r: Maybe<Sym>)
      requires Inv(stack + [s]) && FromTop(stack, s)
      modifies this
      ensures Inv(stack + [s]) && Onward()
      ensures r.Is? ==> r.value in check && reports != []
      ensures r.Null? && reports == [] ==> forall d :: Edge(table, s, d) ==> d in order
      decreases all - checked, 4, 0
    {
      stack := stack + [s];
      ghost var st := stack;
      r := CheckOwnDeps(s);
      assert stack == st;
      stack := stack[..|stack| - 1];
      assert stack + [s] == st;
    }

    /** The reverse dependencies of the symbol on top of the stack, then its properties. */
    method CheckOwnDeps(s: Sym) returns (r: Maybe<Sym>)
      requires Inv(stack) && stack != [] && stack[|stack| - 1] == s
      modifies this
      ensures Inv(stack) && Onward()
      ensures r.Is? ==> r.value in check && reports != []
      ensures r.Null? && reports == [] ==> forall d :: Edge(table, s, d) ==> d in order
      decreases all - checked, 3, 0
    {
      r := Null;
      if s in table {
        assert Deps(table, s) == MaybeSymbols(table[s].revDep) + PropsSymbols(table[s].props);
        assert forall d :: d in Deps(table, s) ==> Edge(table, s, d);
        r := CheckMaybe(table[s].revDep);
        if r.Null? {
          r := CheckProps(table[s].props);
        }
      }
    }

    /** The loop over the properties. */
    method CheckProps(ps: seq<Property>) returns (r: Maybe<Sym>)
      requires Inv(stack) && forall d :: d in PropsSymbols(ps) ==> FromTop(stack, d)
      modifies this
      ensures Inv(stack) && Onward()
      ensures r.Is? ==> r.value in check && reports != []
      ensures r.Null? && reports == [] ==> forall d :: d in PropsSymbols(ps) ==> d in order
      decreases all - checked, 2, |ps|
    {
      r := Null;
      if ps == [] { return; }
      var p := ps[0];
      assert PropsSymbols(ps) == PropSymbols(p) + PropsSymbols(ps[1..]);
      if p.kind != Choice && p.kind != Select {
        r := CheckMaybe(p.visible);
        if r.Is? { return; }
        if p.kind == Default {
          r := CheckMaybe(p.expr);
          if r.Is? { return; }
        }
      }
      r := CheckProps(ps[1..]);
    }

    method CheckMaybe(e: Maybe<Expr>) returns (r: Maybe<Sym>)
      requires Inv(stack) && forall d :: d in MaybeSymbols(e) ==> FromTop(stack, d)
      modifies this
      ensures Inv(stack) && Onward()
      ensures r.Is? ==> r.value in check && reports != []
      ensures r.Null? && reports == [] ==> forall d :: d in MaybeSymbols(e) ==> d in order
      decreases all - checked, 2, 0
    {
      r := Null;
      if e.Is? { r := CheckExprDeps(e.value); }
    }

    /** sym_check_expr_deps */
    method CheckExprDeps(e: Expr) returns (r: Maybe<Sym>)
      requires Inv(stack) && forall d :: d in Symbols(e) ==> FromTop(stack, d)
      modifies this
      ensures Inv(stack) && Onward()
      ensures r.Is? ==> r.value in check && reports != []
      ensures r.Null? && reports == [] ==> forall d :: d in Symbols(e) ==> d in order
      decreases all - checked, 1, e
    {
      match e
      case Bin(_, left, right) =>
        r := CheckExprDeps(left);
        if r.Is? { return; }
        r := CheckExprDeps(right);
      case Not(a) =>
        r := CheckExprDeps(a);
      case Equal(a, b) =>
        r := CheckDeps(a);
        if r.Is? { return; }
        r := CheckDeps(b);
      case Unequal(a, b) =>
        r := CheckDeps(a);
        if r.Is? { return; }
        r := CheckDeps(b);
      case Symbol(s) =>
        r := CheckDeps(s);
    }

    /**
     * The loop of conf_parse over all symbols (kconfig/zconf.tab.c_shipped:2314-2317).
     * Nothing is reported exactly if the graph has no cycle; but the result
     * that the loop counts as an error is never set.
     */
    method CheckAll(symbols: seq<Sym>) returns (errors: int)
      requires Inv([]) && stack == [] && reports == []
      requires forall s :: s in table ==> s in symbols
      requires forall s :: s in symbols ==> s in all
      modifies this
      ensures reports == [] <==> Acyclic(table)
      ensures forall r :: r in reports ==> Cycle(table, r)
      ensures check == {} && forall s :: s in table ==> s in checked
      ensures errors == 0
    {
      errors := 0;
      for i := 0 to |symbols|
        invariant Inv([]) && stack == [] && errors == 0
        invariant forall k :: 0 <= k < i ==> symbols[k] in checked
      {
        var r := CheckDeps(symbols[i]);
        if r.Is? { errors := errors + 1; }
      }
      if reports == [] {
        TopologicalAcyclic(table, order);
      } else {
        assert reports[0] in reports;
      }
    }
  }
}
