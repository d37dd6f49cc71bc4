/** The binary heap of kernel/heap.h for kernel timers, in a growing array. */
module TimerHeap {
  import opened TimerSlots
  import opened TimerDelete

  class Heap {
    var size: nat
    var n: nat
    var lastId: int
    var top: array?<Elem>

    ghost predicate Valid()
      reads this
    {
      && (n > 0 ==> top != null && n < top.Length)
      && (size > 0 ==> top != null && size <= top.Length)
      && 0 <= lastId < ID_LIMIT
    }

    ghost function Array(): (h: seq<Elem>)
      requires Valid()
      reads this, top
      ensures n == 0 || n < |h|
    {
      if top == null then [] else top[..]
    }

    ghost function Contents(): multiset<Elem>
      requires Valid()
      reads this, top
    {
      multiset(Slots(Array(), n))
    }

    ghost predicate InOrder()
      requires Valid()
      reads this, top
    {
      Ordered(Array(), n)
    }

    ghost predicate FirstIsMin()
      requires Valid()
      reads this, top
    {
      RootFirst(Array(), n)
    }

    /** The first timer belongs to the heap and no other expires before it. */
    lemma FirstIsLeast()
      requires Valid() && InOrder() && n > 0
      ensures top[1] in Contents()
      ensures forall e: Elem :: e in Contents() ==> top[1].data.expire <= e.data.expire
    {
      var h := Array();
      var s := Slots(h, n);
      OrderedRootFirst(h, n);
      assert s[0] == top[1];
      forall e: Elem | e in multiset(s) ensures h[1].data.expire <= e.data.expire {
        var k :| 0 <= k < |s| && s[k] == e;
        assert h[k + 1] == e;
      }
    }

    lemma EmptyHasNone()
      requires Valid() && n == 0
      ensures Contents() == multiset{}
    {
    }

    /** heap_init */
    constructor ()
      ensures Valid() && Contents() == multiset{} && InOrder() && n == 0
    {
      size, n, lastId, top := 0, 0, 0, null;
    }

    /** krealloc of top to count + 1 elements: a new array with the old content. */
    method Grow(count: nat)
      requires Valid() && count > n
      modifies `top
      ensures top != null && fresh(top) && top.Length == count + 1
      ensures forall k :: 1 <= k <= n ==> top[k] == old(Array())[k]
    {
      var a := new Elem[count + 1](_ => Elem(0, Timer(0, 0, 0)));
      var from := top;
      forall k | 1 <= k <= n {
        a[k] := from[k];
      }
      top := a;
    }

    /** heap_insert; ok says whether krealloc finds memory should it be needed. */
    method Insert(el: Timer, ok: bool) returns (id: int)
      requires Valid()
      modifies this, top
      ensures old(n) + 1 >= old(size) && !ok ==> id == -1 && top == null && n == old(n) && lastId == old(lastId)
      ensures old(n) + 1 < old(size) || ok ==>
        && Valid() && n == old(n) + 1 && id == old(lastId) && lastId == NextId(id)
        && Contents() == old(Contents()) + multiset{Elem(id, el)}
        && (old(InOrder()) ==> InOrder())
        && (old(FirstIsMin()) ==> FirstIsMin())
        && (old(n) > 0 && old(Array())[1].data.expire <= el.expire ==> Array()[1] == old(Array())[1])
        && (top == old(top) || fresh(top))
    {
      hide Ordered, RootFirst, Slots;
      ghost var before := Array();
      n := n + 1;
      if n >= size {
        if !ok {
          top := null;
          n := n - 1;
          return -1;
        }
        n := n - 1;
        Grow(n + 1);
        n := n + 1;
        size := size + 1;
      }
      id := lastId;
      lastId := NextId(lastId);
      Place(Elem(id, el), before);
    }

    /** The end of heap_insert: the element rises from the new slot, where before were the other slots. */
    method Place(e: Elem, ghost before: seq<Elem>)
      requires top != null && 1 <= n < top.Length && (n == 1 || n - 1 < |before|)
      requires forall k :: 1 <= k < n ==> top[k] == before[k]
      modifies top
      ensures multiset(Slots(top[..], n)) == multiset(Slots(before, n - 1)) + multiset{e}
      ensures Ordered(before, n - 1) ==> Ordered(top[..], n)
      ensures RootFirst(before, n - 1) ==> RootFirst(top[..], n)
      ensures n > 1 && before[1].data.expire <= e.data.expire ==> top[1] == before[1]
    {
      hide Ordered, RootFirst, Slots, Rise;
      ghost var h0 := top[..];
      SiftUp(top, n, e);
      InsertEffect(before, h0, n, e);
    }

    /** heap_peek: takes the first timer out; the result is 0, or -1 on an empty heap. */
    method Peek() returns (first: Timer, ret: int)
      requires Valid()
      modifies `n, top
      ensures Valid() && top == old(top)
      ensures ret == if old(n) == 0 then -1 else 0
      ensures ret == -1 ==> n == 0
      ensures ret == 0 ==>
        && first == old(Array())[1].data && n == old(n) - 1
        && Contents() == old(Contents()) - multiset{old(Array())[1]}
        && (old(InOrder()) ==> InOrder())
    {
      first, ret := Timer(0, 0, 0), -1;
      if n == 0 { return; }
      first, ret := top[1].data, 0;
      ghost var h0 := top[..];
      n := n - 1;
      SiftDown(top, n, top[n + 1]);
      PeekEffect(h0, n + 1);
    }

    /**
     * heap_delete: 0, or -1 when no timer has the id. The first slot with the id goes; the
     * heap stays in order if that is the first slot or one whose deletion keeps every order.
     */
    method Delete(id: int) returns (ret: int, ghost slot: nat)
      requires Valid()
      modifies `n, top
      ensures Valid() && top == old(top)
      ensures ret == -1 ==> n == old(n) && Contents() == old(Contents())
      ensures ret == -1 <==> forall e: Elem :: e in old(Contents()) ==> e.id != id
      ensures ret == 0 || ret == -1
      ensures ret == 0 ==>
        && 1 <= slot <= old(n) == n + 1 && old(Array())[slot].id == id
        && (forall k :: 1 <= k < slot ==> old(Array())[k].id != id)
        && Contents() == old(Contents()) - multiset{old(Array())[slot]}
        && (old(FirstIsMin()) && slot != 1 ==> FirstIsMin())
        && (old(InOrder()) && (slot == 1 || KeepsOrder(old(n), slot)) ==> InOrder())
    {
      ret, slot := -1, 0;
      if n == 0 { return; }
      var found := FindId(id);
      NoneWithId(id);
      if found == 0 { return; }
      ret, slot := 0, found;
      assert top[found] in Contents() by {
        assert Slots(top[..], n)[found - 1] == top[found];
      }
      hide Slots, Ordered, RootFirst, Under;
      if found == 1 {
        var temp, r := Peek();
        return;
      }
      DeleteAt(found);
    }

    lemma NoneWithId(id: int)
      requires Valid() && n > 0
      ensures (forall k :: 1 <= k <= n ==> top[k].id != id) ==> forall e: Elem :: e in Contents() ==> e.id != id
    {
      var s := Slots(top[..], n);
      if forall k :: 1 <= k <= n ==> top[k].id != id {
        forall e: Elem | e in multiset(s) ensures e.id != id {
          var k :| 0 <= k < |s| && s[k] == e;
          assert top[k + 1] == e;
        }
      }
    }

    /** The search of heap_delete; 0 when there is no such id. */
    method FindId(id: int) returns (found: nat)
      requires Valid() && n > 0
      ensures found <= n
      ensures if found == 0 then forall k :: 1 <= k <= n ==> top[k].id != id else top[found].id == id
      ensures forall k :: 1 <= k < found ==> top[k].id != id
    {
      found := 0;
      var i := 1;
      while i <= n
        invariant 1 <= i <= n + 1
        invariant forall k :: 1 <= k < i ==> top[k].id != id
      {
        if top[i].id == id {
          return i;
        }
        i := i + 1;
      }
    }

    /** heap_delete of a slot other than the first. */
    method DeleteAt(found: nat)
      requires Valid() && 2 <= found <= n
      modifies `n, top
      ensures Valid() && top == old(top) && n == old(n) - 1
      ensures Array() == DeleteFrom(old(Array()), old(n), found)
      ensures Contents() == old(Contents()) - multiset{old(Array())[found]}
      ensures old(FirstIsMin()) ==> FirstIsMin()
      ensures old(InOrder()) && KeepsOrder(old(n), found) ==> InOrder()
    {
      hide Slots, Bubble, RootFirst, Ordered;
      DeleteEffect(top[..], n, found);
      if InOrder() && KeepsOrder(n, found) { DeleteKeepsOrder(top[..], n, found); }
      ghost var h0 := top[..];
      if found == n {
        n := n - 1;
        return;
      }
      var last := top[n];
      n := n - 1;
      top[found] := last;
      assert top[..] == h0[found := last];
      BubblePass(top, n, found);
    }
  }

  /** The loop of heap_insert, and the store after it. */
  method SiftUp(a: array<Elem>, n: nat, etmp: Elem)
    requires 1 <= n < a.Length
    modifies a
    ensures a[..] == Rise(old(a[..]), n, etmp)
  {
    var i := n;
    ghost var h0 := a[..];
    while i > 1 && a[i / 2].data.expire > etmp.data.expire
      invariant 1 <= i <= n
      invariant Rise(a[..], i, etmp) == Rise(h0, n, etmp)
    {
      ghost var h := a[..];
      a[i] := a[i / 2];
      assert a[..] == h[i := h[i / 2]];
      i := i / 2;
    }
    ghost var h := a[..];
    a[i] := etmp;
    assert a[..] == h[i := etmp];
  }

  /** The loop of heap_peek, and the store after it. */
  method SiftDown(a: array<Elem>, n: nat, last: Elem)
    requires n < a.Length && 1 < a.Length
    modifies a
    ensures a[..] == Sink(old(a[..]), n, 1, last)
  {
    var i := 1;
    ghost var h0 := a[..];
    while 2 * i <= n
      invariant 1 <= i < a.Length
      invariant Sink(a[..], n, i, last) == Sink(h0, n, 1, last)
      decreases n - i
    {
      var child := 2 * i;
      if child != n && a[child + 1].data.expire < a[child].data.expire {
        child := child + 1;
      }
      if last.data.expire > a[child].data.expire {
        ghost var h := a[..];
        a[i] := a[child];
        assert a[..] == h[i := h[child]];
      } else {
        break;
      }
      i := child;
    }
    ghost var h := a[..];
    a[i] := last;
    assert a[..] == h[i := last];
  }

  /** The loop of heap_delete. */
  method BubblePass(a: array<Elem>, n: nat, found: nat)
    requires 1 <= found <= n < a.Length
    modifies a
    ensures a[..] == Bubble(old(a[..]), n, found)
  {
    var i := found;
    ghost var h0 := a[..];
    while i < n
      invariant found <= i <= n
      invariant Bubble(a[..], n, i) == Bubble(h0, n, found)
    {
      if a[i].data.expire > a[i + 1].data.expire {
        ghost var h := a[..];
        var temp := a[i];
        a[i] := a[i + 1];
        a[i + 1] := temp;
        assert a[..] == h[i := h[i + 1]][i + 1 := h[i]];
      }
      i := i + 1;
    }
  }
}
