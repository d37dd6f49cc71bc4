/**
 * The restructuring of menu_finalize (kconfig/menu.c:289-425): what becomes of
 * the tree of menu entries, as a function of the answers the dependency tests give.
 */
module MenuTree {

  /** The first entry of a list of siblings, the entries below it, and the siblings after it. */
  datatype Menus<T> = End | Menu(node: T, list: Menus<T>, next: Menus<T>)

  /**
   * What menu_finalize asks about entries: is there a symbol, is there a prompt with a
   * text, and does the second entry belong below the first (menu.c:346-361).
   */
  datatype Asks<!T> = Asks(hasSym: T -> bool, hasText: T -> bool, inside: (T, T) -> bool)

  function Size<T>(t: Menus<T>): nat {
    if t.End? then 0 else 1 + Size(t.list) + Size(t.next)
  }

  /** All entries in the order of the menu: each before those below it. */
  function Flat<T>(t: Menus<T>): (s: seq<T>)
    ensures |s| == Size(t)
  {
    if t.End? then [] else [t.node] + Flat(t.list) + Flat(t.next)
  }

  function Append<T>(a: Menus<T>, b: Menus<T>): (c: Menus<T>)
    ensures Flat(c) == Flat(a) + Flat(b) && Size(c) == Size(a) + Size(b)
  {
    if a.End? then b else Menu(a.node, a.list, Append(a.next, b))
  }

  lemma {:induction false} AppendAssociates<T>(a: Menus<T>, b: Menus<T>, c: Menus<T>)
    ensures Append(Append(a, b), c) == Append(a, Append(b, c))
  {
    if a.Menu? { AppendAssociates(a.next, b, c); }
  }

  lemma {:induction false} AppendEnd<T>(a: Menus<T>)
    ensures Append(a, End) == a
  {
    if a.Menu? { AppendEnd(a.next); }
  }

  /** menu_finalize on the first entry of t; the siblings it does not take over stay behind it. */
  function Finalize<T>(t: Menus<T>, asks: Asks<T>): (f: Menus<T>)
    requires t.Menu?
    ensures f.Menu? && f.node == t.node && Flat(f) == Flat(t)
    decreases Size(t), 1
  {
    if t.list.Menu? then
      Menu(t.node, Hoist(FinalizeAll(t.list, asks), asks), t.next)
    else if asks.hasSym(t.node) then
      var (kids, rest) := Absorb(t.node, t.next, asks);
      Menu(t.node, Hoist(kids, asks), rest)
    else t
  }

  /** The loop at menu.c:339-340: every sibling that is left when its turn comes. */
  function FinalizeAll<T>(t: Menus<T>, asks: Asks<T>): (f: Menus<T>)
    ensures Flat(f) == Flat(t)
    decreases Size(t), 2
  {
    if t.End? then End
    else
      var f := Finalize(t, asks);
      assert Size(f) == Size(t);
      Menu(f.node, f.list, FinalizeAll(f.next, asks))
  }

  /** The loop at menu.c:346-366: the following siblings that belong below parent, and the rest. */
  function Absorb<T>(parent: T, t: Menus<T>, asks: Asks<T>): (r: (Menus<T>, Menus<T>))
    ensures Flat(r.0) + Flat(r.1) == Flat(t)
    decreases Size(t), 2
  {
    if t.End? || !asks.inside(parent, t.node) then (End, t)
    else
      var f := Finalize(t, asks);
      assert Size(f) == Size(t);
      var (kids, rest) := Absorb(parent, f.next, asks);
      var taken := Menu(f.node, f.list, kids);
      assert Flat(taken) == [f.node] + Flat(f.list) + Flat(kids);
      (taken, rest)
  }

  /** The loop at menu.c:375-425: entries below one without a prompt text become its siblings. */
  function Hoist<T>(t: Menus<T>, asks: Asks<T>): (h: Menus<T>)
    ensures Flat(h) == Flat(t)
    decreases Size(t)
  {
    if t.End? then End
    else if t.list.Menu? && !asks.hasText(t.node) then
      Menu(t.node, End, Hoist(Append(t.list, t.next), asks))
    else Menu(t.node, t.list, Hoist(t.next, asks))
  }

  /** Only entries with a prompt text have entries below them. */
  predicate Headed<T>(t: Menus<T>, asks: Asks<T>) {
    t.Menu? ==>
      && (t.list.Menu? ==> asks.hasText(t.node))
      && Headed(t.list, asks) && Headed(t.next, asks)
  }

  /** The same, except perhaps for the siblings themselves. */
  predicate HeadedBelow<T>(t: Menus<T>, asks: Asks<T>) {
    t.Menu? ==> Headed(t.list, asks) && HeadedBelow(t.next, asks)
  }

  lemma {:induction false} HeadedAppend<T>(a: Menus<T>, b: Menus<T>, asks: Asks<T>)
    requires Headed(a, asks) && HeadedBelow(b, asks)
    ensures HeadedBelow(Append(a, b), asks)
  {
    if a.Menu? { HeadedAppend(a.next, b, asks); }
  }

  lemma {:induction false} HoistHeaded<T>(t: Menus<T>, asks: Asks<T>)
    requires HeadedBelow(t, asks)
    ensures Headed(Hoist(t, asks), asks)
    decreases Size(t)
  {
    if t.Menu? {
      if t.list.Menu? && !asks.hasText(t.node) {
        HeadedAppend(t.list, t.next, asks);
        HoistHeaded(Append(t.list, t.next), asks);
      } else {
        HoistHeaded(t.next, asks);
      }
    }
  }

  /** Below a finalized entry, only entries with a prompt text have entries below them. */
  lemma {:induction false} FinalizeHeaded<T>(t: Menus<T>, asks: Asks<T>)
    requires t.Menu?
    ensures Headed(Finalize(t, asks).list, asks)
    decreases Size(t), 1
  {
    if t.list.Menu? {
      FinalizeAllHeaded(t.list, asks);
      HoistHeaded(FinalizeAll(t.list, asks), asks);
    } else if asks.hasSym(t.node) {
      AbsorbHeaded(t.node, t.next, asks);
      HoistHeaded(Absorb(t.node, t.next, asks).0, asks);
    }
  }

  lemma {:induction false} FinalizeAllHeaded<T>(t: Menus<T>, asks: Asks<T>)
    ensures HeadedBelow(FinalizeAll(t, asks), asks)
    decreases Size(t), 2
  {
    if t.Menu? {
      var f := Finalize(t, asks);
      assert Size(f) == Size(t);
      FinalizeHeaded(t, asks);
      FinalizeAllHeaded(f.next, asks);
    }
  }

  lemma {:induction false} AbsorbHeaded<T>(parent: T, t: Menus<T>, asks: Asks<T>)
    ensures HeadedBelow(Absorb(parent, t, asks).0, asks)
    decreases Size(t), 2
  {
    if t.Menu? && asks.inside(parent, t.node) {
      var f := Finalize(t, asks);
      assert Size(f) == Size(t);
      FinalizeHeaded(t, asks);
      AbsorbHeaded(parent, f.next, asks);
    }
  }

  /** The siblings of a list, without what is below them. */
  function Tops<T>(t: Menus<T>): seq<T> {
    if t.End? then [] else [t.node] + Tops(t.next)
  }

  /** Taking over stops exactly at the first sibling that does not belong. */
  lemma {:induction false} AbsorbIsMaximal<T>(parent: T, t: Menus<T>, asks: Asks<T>)
    ensures forall x :: x in Tops(Absorb(parent, t, asks).0) ==> asks.inside(parent, x)
    ensures var rest := Absorb(parent, t, asks).1; rest.Menu? ==> !asks.inside(parent, rest.node)
    decreases Size(t)
  {
    if t.Menu? && asks.inside(parent, t.node) {
      var f := Finalize(t, asks);
      assert Size(f) == Size(t);
      AbsorbIsMaximal(parent, f.next, asks);
    }
  }

  /** From the root, with no siblings, every entry is reached once and the order is the old one. */
  lemma WholeMenu<T>(t: Menus<T>, asks: Asks<T>)
    requires t.Menu? && t.next.End?
    ensures Finalize(t, asks).next.End? && [t.node] + Flat(Finalize(t, asks).list) == Flat(t)
  {
    var f := Finalize(t, asks);
    assert f.next.End? by {
      if t.list.End? && asks.hasSym(t.node) { assert Absorb(t.node, t.next, asks) == (End, End); }
    }
    assert Flat(f) == [f.node] + Flat(f.list) + Flat(f.next);
  }
}
