/**
 * menu_finalize on the entries themselves (kconfig/menu.c:289-425): next, list and
 * parent are rewired in place.
 */
module MenuNodes {
  import opened MenuTree

  class Entry {
    var next: Entry?
    var list: Entry?
    var parent: Entry?
  }

  ghost function Entries(t: Menus<Entry>): set<Entry> {
    if t.End? then {} else {t.node} + Entries(t.list) + Entries(t.next)
  }

  /** No entry occurs twice. */
  ghost predicate Apart(t: Menus<Entry>) {
    t.Menu? ==>
      && t.node !in Entries(t.list) && t.node !in Entries(t.next) && Entries(t.list) !! Entries(t.next)
      && Apart(t.list) && Apart(t.next)
  }

  ghost function Elems(s: seq<Entry>): set<Entry> {
    if s == [] then {} else {s[0]} + Elems(s[1..])
  }

  ghost predicate Unique(s: seq<Entry>) {
    s != [] ==> s[0] !in Elems(s[1..]) && Unique(s[1..])
  }

  lemma {:induction false} Parts(a: seq<Entry>, b: seq<Entry>)
    ensures Elems(a + b) == Elems(a) + Elems(b)
    ensures Unique(a + b) <==> Unique(a) && Unique(b) && Elems(a) !! Elems(b)
  {
    if a == [] {
      assert a + b == b;
    } else {
      assert (a + b)[1..] == a[1..] + b;
      Parts(a[1..], b);
    }
  }

  lemma {:induction false} FlatEntries(t: Menus<Entry>)
    ensures Entries(t) == Elems(Flat(t)) && (Apart(t) <==> Unique(Flat(t)))
  {
    if t.Menu? {
      FlatEntries(t.list);
      FlatEntries(t.next);
      Parts([t.node], Flat(t.list));
      Parts([t.node] + Flat(t.list), Flat(t.next));
    }
  }

  /** Rewiring that keeps the order keeps the entries, and keeps them apart. */
  lemma SameFlat(a: Menus<Entry>, b: Menus<Entry>)
    requires Flat(a) == Flat(b)
    ensures Entries(a) == Entries(b) && (Apart(a) <==> Apart(b))
  {
    FlatEntries(a);
    FlatEntries(b);
  }

  lemma {:induction false} AppendApart(a: Menus<Entry>, b: Menus<Entry>)
    ensures Entries(Append(a, b)) == Entries(a) + Entries(b)
    ensures Apart(Append(a, b)) <==> Apart(a) && Apart(b) && Entries(a) !! Entries(b)
  {
    if a.Menu? { AppendApart(a.next, b); }
  }

  /** The siblings t start at first, lie below parent, and are followed by end. */
  ghost predicate Linked(t: Menus<Entry>, first: Entry?, parent: Entry?, end: Entry?)
    reads Entries(t)
  {
    if t.End? then first == end
    else
      && first == t.node && t.node.parent == parent
      && Linked(t.list, t.node.list, t.node, null) && Linked(t.next, t.node.next, parent, end)
  }

  lemma {:induction false} LinkedAppend(a: Menus<Entry>, b: Menus<Entry>, first: Entry?, middle: Entry?, parent: Entry?, end: Entry?)
    requires Linked(a, first, parent, middle) && Linked(b, middle, parent, end)
    ensures Linked(Append(a, b), first, parent, end)
  {
    if a.Menu? { LinkedAppend(a.next, b, a.node.next, middle, parent, end); }
  }

  /** A list of siblings: those before its last one, the last one, and what is below it. */
  function OneMore(pre: Menus<Entry>, last: Entry, below: Menus<Entry>): (t: Menus<Entry>)
    ensures Flat(t) == Flat(pre) + [last] + Flat(below)
  {
    Append(pre, Menu(last, below, End))
  }

  ghost predicate LinkedUpTo(pre: Menus<Entry>, last: Entry, below: Menus<Entry>, first: Entry?, parent: Entry?)
    reads Entries(pre), last, Entries(below)
  {
    Linked(pre, first, parent, last) && last.parent == parent && Linked(below, last.list, last, null)
  }

  lemma Rejoin(pre: Menus<Entry>, last: Entry, below: Menus<Entry>, first: Entry?, parent: Entry?)
    requires LinkedUpTo(pre, last, below, first, parent)
    ensures Linked(OneMore(pre, last, below), first, parent, last.next)
  {
    assert Linked(Menu(last, below, End), last, parent, last.next);
    LinkedAppend(pre, Menu(last, below, End), first, last, parent, last.next);
  }

  lemma OneMoreApart(pre: Menus<Entry>, x: Entry, below: Menus<Entry>)
    ensures Entries(OneMore(pre, x, below)) == Entries(pre) + ({x} + Entries(below))
    ensures Apart(OneMore(pre, x, below)) <==>
      Apart(pre) && Apart(below) && x !in Entries(below) && Entries(pre) !! ({x} + Entries(below))
  {
    var one := Menu(x, below, End);
    assert Entries(one) == {x} + Entries(below);
    assert Apart(one) <==> Apart(below) && x !in Entries(below);
    AppendApart(pre, one);
  }

  /** A list taken apart at its last sibling. */
  lemma {:induction false} Unjoin(pre: Menus<Entry>, last: Entry, below: Menus<Entry>, first: Entry?, parent: Entry?, end: Entry?)
    requires Linked(OneMore(pre, last, below), first, parent, end)
    ensures LinkedUpTo(pre, last, below, first, parent) && last.next == end
  {
    if pre.Menu? {
      Unjoin(pre.next, last, below, pre.node.next, parent, end);
    } else {
      assert OneMore(pre, last, below) == Menu(last, below, End);
      assert Linked(End, last.next, parent, end);
    }
  }

  /** Moving a boundary between two lists of entries. */
  lemma SameAfter(a: seq<Entry>, b: seq<Entry>, c: seq<Entry>, d: seq<Entry>, e: seq<Entry>)
    requires b + c == d + e
    ensures a + b + c == a + d + e
  {
    assert a + b + c == a + (b + c);
    assert a + d + e == a + (d + e);
  }

  lemma Logged(log: seq<Entry>, a: seq<Entry>, x: Entry, b: seq<Entry>)
    ensures log + a + [x] + b == log + (a + [x] + b)
  {
  }

  /** What was collected below t's first entry, and what is left behind it, are still apart. */
  lemma Rewired(t: Menus<Entry>, list: Menus<Entry>, next: Menus<Entry>)
    requires t.Menu? && Apart(t) && Flat(list) + Flat(next) == Flat(t.list) + Flat(t.next)
    ensures Apart(list) && t.node !in Entries(list) && t.node !in Entries(next) && Entries(list) !! Entries(next)
    ensures Entries(t) == {t.node} + Entries(list) + Entries(next)
  {
    var u := Menu(t.node, list, next);
    SameAfter([t.node], Flat(list), Flat(next), Flat(t.list), Flat(t.next));
    SameFlat(u, t);
  }

  lemma AbsorbStops(parent: Entry, t: Menus<Entry>, asks: Asks<Entry>)
    requires t.End? || !asks.inside(parent, t.node)
    ensures Absorb(parent, t, asks) == (End, t)
  {
  }

  lemma MoreTaken(taken: Menus<Entry>, x: Entry, below: Menus<Entry>, later: Menus<Entry>)
    ensures Append(OneMore(taken, x, below), later) == Append(taken, Menu(x, below, later))
  {
    AppendAssociates(taken, Menu(x, below, End), later);
    assert Append(Menu(x, below, End), later) == Menu(x, below, Append(End, later));
  }

  lemma AppendNothing(t: Menus<Entry>)
    ensures Append(End, t) == t && Flat<Entry>(End) == []
  {
  }

  class Finalizer {
    const asks: Asks<Entry>
    /** All entries there are. */
    ghost const all: set<Entry>
    /** Every call of menu_finalize so far. */
    var done: seq<Entry>

    constructor (a: Asks<Entry>, ghost entries: set<Entry>)
      ensures asks == a && all == entries && done == []
    {
      asks := a;
      all := entries;
      done := [];
    }

    /** The loop at menu.c:416-420: the siblings of t get a new parent; the last one is returned. */
    static method Reparent(first: Entry, ghost t: Menus<Entry>, ghost was: Entry?, parent: Entry)
      returns (last: Entry, ghost pre: Menus<Entry>, ghost below: Menus<Entry>)
      requires t.Menu? && Linked(t, first, was, null) && Apart(t)
      modifies Entries(t)
      ensures OneMore(pre, last, below) == t && LinkedUpTo(pre, last, below, first, parent) && last.next == null
      ensures last in Entries(t) && last !in Entries(pre) && last !in Entries(below)
    {
      hide Flat;
      last := first;
      pre := End;
      ghost var rest := t;
      while true
        invariant rest.Menu? && Append(pre, rest) == t
        invariant Linked(pre, first, parent, last) && Linked(rest, last, was, null)
        invariant Apart(rest) && Entries(pre) !! Entries(rest) && Entries(rest) <= Entries(t)
        decreases Size(rest)
      {
        last.parent := parent;
        below := rest.list;
        if last.next == null {
          return;
        }
        OneMoreApart(pre, last, below);
        Rejoin(pre, last, below, first, parent);
        AppendAssociates(pre, Menu(last, below, End), rest.next);
        pre, rest := OneMore(pre, last, below), rest.next;
        last := last.next;
      }
    }

    /** menu.c:416-423: the entries below menu become the siblings after it. */
    method HoistOne(menu: Entry, ghost t: Menus<Entry>, parent: Entry)
      requires t.Menu? && Linked(t, menu, parent, null) && Apart(t) && Entries(t) <= all && menu.list != null
      modifies Entries(t)
      ensures menu.list == null && menu.parent == parent && Linked(Append(t.list, t.next), menu.next, parent, null)
    {
      hide Append, OneMore, Flat;
      ghost var x := menu.next;
      assert Linked(t.next, x, parent, null);
      var last, pre, below := Reparent(menu.list, t.list, menu, parent);
      last.next := menu.next;
      Rejoin(pre, last, below, menu.list, parent);
      LinkedAppend(t.list, t.next, menu.list, x, parent, null);
      AppendApart(t.list, t.next);
      menu.next := menu.list;
      menu.list := null;
    }

    /** One round of the loop at menu.c:375-425. */
    method HoistRound(menu: Entry, ghost t: Menus<Entry>, parent: Entry)
      returns (ghost below: Menus<Entry>, ghost rest: Menus<Entry>)
      requires t.Menu? && Linked(t, menu, parent, null) && Apart(t) && Entries(t) <= all
      modifies Entries(t)
      ensures Hoist(t, asks) == Menu(menu, below, Hoist(rest, asks)) && Size(rest) < Size(t)
      ensures Linked(below, menu.list, menu, null) && menu.parent == parent && Linked(rest, menu.next, parent, null)
      ensures Apart(rest) && Entries(t) == {menu} + Entries(below) + Entries(rest)
      ensures menu !in Entries(rest) && Entries(below) !! Entries(rest)
    {
      below, rest := t.list, t.next;
      if menu.list != null && !asks.hasText(menu) {
        HoistOne(menu, t, parent);
        AppendApart(t.list, t.next);
        below, rest := End, Append(t.list, t.next);
      }
    }

    /** The loop at menu.c:375-425: entries without a prompt text give up what is below them. */
    method HoistAll(parent: Entry, ghost t: Menus<Entry>)
      requires Linked(t, parent.list, parent, null) && Apart(t) && Entries(t) <= all && parent !in Entries(t)
      modifies Entries(t)
      ensures Linked(Hoist(t, asks), parent.list, parent, null)
    {
      var menu := parent.list;
      ghost var pre: Menus<Entry>, rest := End, t;
      while menu != null
        invariant Append(pre, Hoist(rest, asks)) == Hoist(t, asks)
        invariant Linked(pre, parent.list, parent, menu) && Linked(rest, menu, parent, null)
        invariant Apart(rest) && Entries(pre) !! Entries(rest) && Entries(rest) <= Entries(t) && Entries(pre) <= all
        decreases Size(rest)
      {
        ghost var below, more := HoistRound(menu, rest, parent);
        AppendAssociates(pre, Menu(menu, below, End), Hoist(more, asks));
        OneMoreApart(pre, menu, below);
        Rejoin(pre, menu, below, parent.list, parent);
        pre, rest := OneMore(pre, menu, below), more;
        menu := menu.next;
      }
      AppendEnd(pre);
    }

    /** menu_finalize: t is parent and the siblings after it, q what they all lie below. */
    method MenuFinalize(parent: Entry, ghost t: Menus<Entry>, ghost q: Entry?)
      requires t.Menu? && Linked(t, parent, q, null) && Apart(t) && Entries(t) <= all
      modifies this`done, Entries(t)
      ensures Linked(Finalize(t, asks), parent, q, null)
      ensures done == old(done) + [parent] + Flat(Finalize(t, asks).list)
      decreases Size(t), 1, 1
    {
      done := done + [parent];
      ghost var kids, rest := Collect(parent, t, q);
      HoistAll(parent, kids);
      assert Finalize(t, asks) == Menu(parent, Hoist(kids, asks), rest);
    }

    /** menu.c:290-374: the entries below parent, before any of them is hoisted. */
    method Collect(parent: Entry, ghost t: Menus<Entry>, ghost q: Entry?)
      returns (ghost kids: Menus<Entry>, ghost rest: Menus<Entry>)
      requires t.Menu? && Linked(t, parent, q, null) && Apart(t) && Entries(t) <= all
      modifies this`done, Entries(t)
      ensures Finalize(t, asks) == Menu(parent, Hoist(kids, asks), rest) && done == old(done) + Flat(kids)
      ensures parent.parent == q && Linked(kids, parent.list, parent, null) && Linked(rest, parent.next, q, null)
      ensures Apart(kids) && parent !in Entries(kids) && parent !in Entries(rest) && Entries(kids) !! Entries(rest)
      ensures Entries(t) == {parent} + Entries(kids) + Entries(rest)
      decreases Size(t), 1, 0
    {
      kids, rest := t.list, t.next;
      if parent.list != null {
        kids := FinalizeAll(t.list, asks);
        FinalizeLists(parent, t.list);
      } else if asks.hasSym(parent) {
        kids, rest := Absorb(parent, t.next, asks).0, Absorb(parent, t.next, asks).1;
        TakeOver(parent, t.next, q);
      }
      Rewired(t, kids, rest);
    }

    /** The loop at menu.c:339-340. */
    method FinalizeLists(parent: Entry, ghost t: Menus<Entry>)
      requires Linked(t, parent.list, parent, null) && Apart(t) && Entries(t) <= all && parent !in Entries(t)
      modifies this`done, Entries(t)
      ensures Linked(FinalizeAll(t, asks), parent.list, parent, null)
      ensures done == old(done) + Flat(FinalizeAll(t, asks))
      decreases Size(t), 2, 0
    {
      var menu := parent.list;
      ghost var pre: Menus<Entry>, rest := End, t;
      while menu != null
        invariant Append(pre, FinalizeAll(rest, asks)) == FinalizeAll(t, asks)
        invariant Linked(pre, parent.list, parent, menu) && Linked(rest, menu, parent, null)
        invariant Apart(rest) && Entries(pre) !! Entries(rest) && Entries(rest) <= Entries(t) && Entries(pre) <= all
        invariant done == old(done) + Flat(pre) && Size(rest) <= Size(t)
        decreases Size(rest)
      {
        ghost var f := FinalizeOne(menu, rest, parent);
        Logged(old(done), Flat(pre), menu, Flat(f.list));
        AppendAssociates(pre, Menu(menu, f.list, End), FinalizeAll(f.next, asks));
        OneMoreApart(pre, menu, f.list);
        Rejoin(pre, menu, f.list, parent.list, parent);
        pre, rest := OneMore(pre, menu, f.list), f.next;
        menu := menu.next;
      }
      AppendEnd(pre);
    }

    /** menu.c:345-371: the following siblings that belong below parent become its list. */
    method TakeOver(parent: Entry, ghost t: Menus<Entry>, ghost q: Entry?)
      requires Linked(t, parent.next, q, null) && Apart(t) && Entries(t) <= all && parent !in Entries(t)
      requires parent.list == null
      modifies this`done, parent`list, parent`next, Entries(t)
      ensures Linked(Absorb(parent, t, asks).0, parent.list, parent, null)
      ensures Linked(Absorb(parent, t, asks).1, parent.next, q, null)
      ensures done == old(done) + Flat(Absorb(parent, t, asks).0)
      decreases Size(t), 2, 1
    {
      var last, pre, below := TakeAll(parent, t, q);
      ghost var taken, rest := Absorb(parent, t, asks).0, Absorb(parent, t, asks).1;
      if last != null {
        Unjoin(pre, last, below, parent.next, parent, last.next);
        OneMoreApart(pre, last, below);
        CutAfter(parent, last, pre, below, rest, q);
      }
    }

    /** The loop at menu.c:346-366: last is the last sibling that was taken. */
    method TakeAll(parent: Entry, ghost t: Menus<Entry>, ghost q: Entry?)
      returns (last: Entry?, ghost pre: Menus<Entry>, ghost below: Menus<Entry>)
      requires Linked(t, parent.next, q, null) && Apart(t) && Entries(t) <= all && parent !in Entries(t)
      modifies this`done, Entries(t)
      ensures var taken, rest := Absorb(parent, t, asks).0, Absorb(parent, t, asks).1;
        && Apart(taken) && Entries(taken) !! Entries(rest) && Entries(taken) + Entries(rest) <= Entries(t)
        && done == old(done) + Flat(taken)
        && (last == null ==> taken.End? && Linked(rest, parent.next, q, null))
        && (last != null ==>
          && taken == OneMore(pre, last, below) && last in Entries(taken)
          && Linked(taken, parent.next, parent, last.next) && Linked(rest, last.next, q, null))
      decreases Size(t), 2, 0
    {
      hide Finalize, Hoist, Absorb, Flat, Append, OneMore;
      last := null;
      AppendNothing(Absorb(parent, t, asks).0);
      var menu := parent.next;
      pre, below := End, End;
      ghost var taken: Menus<Entry>, rest := End, t;
      while menu != null && asks.inside(parent, menu)
        invariant Append(taken, Absorb(parent, rest, asks).0) == Absorb(parent, t, asks).0
        invariant Absorb(parent, rest, asks).1 == Absorb(parent, t, asks).1
        invariant Linked(taken, parent.next, parent, menu) && Linked(rest, menu, q, null)
        invariant Apart(taken) && Apart(rest) && Size(rest) <= Size(t)
        invariant Entries(taken) !! Entries(rest) && Entries(rest) <= Entries(t) && Entries(taken) <= Entries(t)
        invariant done == old(done) + Flat(taken)
        invariant last == null ==> taken == End
        invariant last != null ==> taken == OneMore(pre, last, below) && last in Entries(taken) && last.next == menu
        decreases Size(rest)
      {
        ghost var f := TakeOne(menu, parent, rest, q);
        Logged(old(done), Flat(taken), menu, Flat(f.list));
        MoreTaken(taken, menu, f.list, Absorb(parent, f.next, asks).0);
        OneMoreApart(taken, menu, f.list);
        Rejoin(taken, menu, f.list, parent.next, parent);
        last := menu;
        pre, below, taken, rest := taken, f.list, OneMore(taken, menu, f.list), f.next;
        menu := menu.next;
      }
      AbsorbStops(parent, rest, asks);
      AppendEnd(taken);
    }

    /** menu.c:363-364: finalize one of them; its new parent comes after that. */
    method TakeOne(menu: Entry, parent: Entry, ghost t: Menus<Entry>, ghost q: Entry?) returns (ghost f: Menus<Entry>)
      requires t.Menu? && Linked(t, menu, q, null) && Apart(t) && Entries(t) <= all && asks.inside(parent, menu)
      modifies this`done, Entries(t)
      ensures f.Menu? && done == old(done) + [menu] + Flat(f.list) && Size(f.next) < Size(t)
      ensures var later := Absorb(parent, f.next, asks);
        Absorb(parent, t, asks) == (Menu(menu, f.list, later.0), later.1)
      ensures menu.parent == parent && Linked(f.list, menu.list, menu, null) && Linked(f.next, menu.next, q, null)
      ensures Entries(t) == {menu} + Entries(f.list) + Entries(f.next) && menu == f.node && Apart(f)
      decreases Size(t), 1, 3
    {
      f := FinalizeOne(menu, t, q);
      menu.parent := parent;
    }

    /** menu.c:367-371 */
    static method CutAfter(parent: Entry, last: Entry, ghost pre: Menus<Entry>, ghost below: Menus<Entry>,
        ghost rest: Menus<Entry>, ghost q: Entry?)
      requires LinkedUpTo(pre, last, below, parent.next, parent) && Linked(rest, last.next, q, null)
      requires Apart(OneMore(pre, last, below)) && last !in Entries(rest)
      requires parent != last && parent !in Entries(pre) && parent !in Entries(below) && parent !in Entries(rest)
      modifies parent`list, parent`next, last`next
      ensures Linked(OneMore(pre, last, below), parent.list, parent, null) && Linked(rest, parent.next, q, null)
    {
      OneMoreApart(pre, last, below);
      parent.list := parent.next;
      parent.next := last.next;
      last.next := null;
      Rejoin(pre, last, below, parent.list, parent);
    }

    /** menu_finalize on one of several siblings. */
    method FinalizeOne(menu: Entry, ghost t: Menus<Entry>, ghost q: Entry?) returns (ghost f: Menus<Entry>)
      requires t.Menu? && Linked(t, menu, q, null) && Apart(t) && Entries(t) <= all
      modifies this`done, Entries(t)
      ensures f == Finalize(t, asks) && done == old(done) + [menu] + Flat(f.list)
      ensures menu.parent == q && Linked(f.list, menu.list, menu, null) && Linked(f.next, menu.next, q, null)
      ensures Entries(t) == {menu} + Entries(f.list) + Entries(f.next) && Apart(f) && Size(f.next) < Size(t)
      decreases Size(t), 1, 2
    {
      f := Finalize(t, asks);
      MenuFinalize(menu, t, q);
      SameFlat(f, t);
      assert |Flat(f)| == |Flat(t)|;
    }

    /**
     * menu_finalize on the root (zconf.tab.c_shipped:2313): every entry is finalized exactly
     * once, in the order of the menu, which stays what it was; every parent is right.
     */
    method FinalizeRoot(root: Entry, ghost t: Menus<Entry>)
      requires t.Menu? && t.next.End? && Linked(t, root, null, null) && Apart(t) && Entries(t) <= all
      modifies this`done, Entries(t)
      ensures Linked(Finalize(t, asks), root, null, null) && Apart(Finalize(t, asks))
      ensures Flat(Finalize(t, asks)) == Flat(t) && done == old(done) + Flat(t)
      ensures Headed(Finalize(t, asks).list, asks)
    {
      MenuFinalize(root, t, null);
      WholeMenu(t, asks);
      SameFlat(t, Finalize(t, asks));
      FinalizeHeaded(t, asks);
    }
  }
}
