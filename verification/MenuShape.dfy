/**
 * Where menu_finalize puts each entry (kconfig/menu.c:339-425): what is taken from behind a
 * symbol, what stays behind it, and which entries keep those below them.
 */
module MenuShape {
  import opened MenuTree

  /** One of the siblings has this list below it. */
  predicate Sibling<T(==)>(t: Menus<T>, node: T, list: Menus<T>) {
    t.Menu? && ((t.node == node && t.list == list) || Sibling(t.next, node, list))
  }

  /**
   * An entry comes to stand among the siblings with this list below it: it was one of them
   * and has a prompt text or nothing below it, or it loses what is below it for want of a
   * text, or it was below such an entry.
   */
  predicate Placed<T(==)>(t: Menus<T>, asks: Asks<T>, node: T, list: Menus<T>) {
    && t.Menu?
    && (|| Placed(t.next, asks, node, list)
        || if t.list.End? || asks.hasText(t.node) then t.node == node && t.list == list
           else (t.node == node && list.End?) || Placed(t.list, asks, node, list))
  }

  lemma {:induction false} PlacedAppend<T>(a: Menus<T>, b: Menus<T>, asks: Asks<T>, node: T, list: Menus<T>)
    ensures Placed(Append(a, b), asks, node, list) <==> Placed(a, asks, node, list) || Placed(b, asks, node, list)
  {
    if a.Menu? { PlacedAppend(a.next, b, asks, node, list); }
  }

  lemma {:induction false} HoistExact<T>(t: Menus<T>, asks: Asks<T>, node: T, list: Menus<T>)
    ensures Sibling(Hoist(t, asks), node, list) <==> Placed(t, asks, node, list)
    decreases Size(t)
  {
    if t.Menu? {
      if t.list.Menu? && !asks.hasText(t.node) {
        HoistExact(Append(t.list, t.next), asks, node, list);
        PlacedAppend(t.list, t.next, asks, node, list);
      } else {
        HoistExact(t.next, asks, node, list);
      }
    }
  }

  /** An entry with entries of its own takes over nothing; neither does one without a symbol. */
  lemma FinalizeOwn<T>(t: Menus<T>, asks: Asks<T>)
    requires t.Menu? && (t.list.Menu? || !asks.hasSym(t.node))
    ensures var f := Finalize(t, asks);
      && f.next == t.next && (t.list.End? ==> f == t)
      && forall n, l :: Sibling(f.list, n, l) <==> Placed(FinalizeAll(t.list, asks), asks, n, l)
  {
    forall n, l ensures Sibling(Finalize(t, asks).list, n, l) <==> Placed(FinalizeAll(t.list, asks), asks, n, l) {
      HoistExact(FinalizeAll(t.list, asks), asks, n, l);
    }
  }

  /** These are siblings that belong below the entry; what is left does not begin with another one. */
  predicate TakenOver<T(==)>(parent: T, kids: Menus<T>, rest: Menus<T>, asks: Asks<T>) {
    (forall x :: x in Tops(kids) ==> asks.inside(parent, x)) && (rest.Menu? ==> !asks.inside(parent, rest.node))
  }

  /** A symbol with nothing below it takes over the entries behind it for as long as they belong below it, and no others. */
  lemma FinalizeTakesOver<T>(t: Menus<T>, asks: Asks<T>) returns (kids: Menus<T>)
    requires t.Menu? && t.list.End? && asks.hasSym(t.node)
    ensures var f := Finalize(t, asks);
      && TakenOver(t.node, kids, f.next, asks) && Flat(kids) + Flat(f.next) == Flat(t.next)
      && forall n, l :: Sibling(f.list, n, l) <==> Placed(kids, asks, n, l)
  {
    kids := Absorb(t.node, t.next, asks).0;
    AbsorbIsMaximal(t.node, t.next, asks);
    forall n, l ensures Sibling(Finalize(t, asks).list, n, l) <==> Placed(kids, asks, n, l) {
      HoistExact(kids, asks, n, l);
    }
  }
}
