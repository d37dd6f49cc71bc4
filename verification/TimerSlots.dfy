/**
 * The binary heap of kernel/heap.h for kernel timers as the slots 1..n of a sequence,
 * ordered by expire_time, and what its three loops do to them.
 */
module TimerSlots {

  datatype Timer = Timer(expire: nat, handler: int, arg: int)

  datatype Elem = Elem(id: int, data: Timer)

  /** The ids wrap to 0 when bit 31 of the counter would be set. */
  const ID_LIMIT: int := 0x8000_0000

  /** The end of heap_insert: last_id is counted up and starts again at 0 when it would turn negative. */
  function NextId(id: int): int { if id + 1 == ID_LIMIT then 0 else id + 1 }

  /** The id given after so many others. */
  function IdAfter(id: int, k: nat): int { if k == 0 then id else NextId(IdAfter(id, k - 1)) }

  lemma {:induction false} IdCounts(id: int, k: nat)
    requires 0 <= id < ID_LIMIT && k <= ID_LIMIT
    ensures IdAfter(id, k) == if id + k < ID_LIMIT then id + k else id + k - ID_LIMIT
  {
    if k > 0 { IdCounts(id, k - 1); }
  }

  /** No id is given again before all others have been given. */
  lemma IdsDiffer(id: int, k: nat)
    requires 0 <= id < ID_LIMIT && 0 < k <= ID_LIMIT
    ensures IdAfter(id, k) == id <==> k == ID_LIMIT
  {
    IdCounts(id, k);
  }

  ghost function Slots(h: seq<Elem>, n: nat): seq<Elem>
    requires n == 0 || n < |h|
  {
    if n == 0 then [] else h[1..n + 1]
  }

  /** The timer in slot k expires no sooner than its parent, respectively its grandparent. */
  ghost predicate Under(h: seq<Elem>, k: int)
    requires 2 <= k < |h|
  {
    h[k / 2].data.expire <= h[k].data.expire
  }

  ghost predicate FarUnder(h: seq<Elem>, k: int)
    requires 4 <= k < |h|
  {
    h[k / 2 / 2].data.expire <= h[k].data.expire
  }

  /** Under, once x fills the hole at slot i. */
  ghost predicate UnderWith(h: seq<Elem>, i: nat, x: Elem, k: int)
    requires i < |h| && 2 <= k < |h|
  {
    Under(h[i := x], k)
  }

  /** Every slot but the first is at least its parent. */
  ghost predicate Ordered(h: seq<Elem>, n: nat)
    requires n == 0 || n < |h|
  {
    forall k :: 2 <= k <= n ==> Under(h, k)
  }

  /** The first slot holds a timer that expires first. */
  ghost predicate RootFirst(h: seq<Elem>, n: nat)
    requires n == 0 || n < |h|
  {
    forall k :: 1 <= k <= n ==> h[1].data.expire <= h[k].data.expire
  }

  lemma {:induction false} OrderedRoot(h: seq<Elem>, n: nat, k: nat)
    requires n < |h| && Ordered(h, n) && 1 <= k <= n
    ensures h[1].data.expire <= h[k].data.expire
  {
    if k > 1 {
      OrderedRoot(h, n, k / 2);
      assert Under(h, k);
    }
  }

  lemma OrderedRootFirst(h: seq<Elem>, n: nat)
    requires n == 0 || n < |h|
    requires Ordered(h, n)
    ensures RootFirst(h, n)
  {
    forall k | 1 <= k <= n ensures h[1].data.expire <= h[k].data.expire { OrderedRoot(h, n, k); }
  }

  /** Moving a value into the hole and the hole to where it came from. */
  lemma HoleMoves(h: seq<Elem>, n: nat, i: nat, j: nat, x: Elem)
    requires n < |h| && 1 <= i <= n && 1 <= j <= n && i != j
    ensures multiset(Slots(h[i := h[j]][j := x], n)) == multiset(Slots(h[i := x], n))
  {
    var s := Slots(h[i := x], n);
    assert Slots(h[i := h[j]][j := x], n) == s[i - 1 := s[j - 1]][j - 1 := s[i - 1]];
  }

  // ---- the three loops, as functions of the array

  /** heap_insert: the hole at slot i rises past larger parents and takes x. */
  function Rise(h: seq<Elem>, i: nat, x: Elem): (r: seq<Elem>)
    requires 1 <= i < |h|
    ensures |r| == |h|
    decreases i
  {
    if i > 1 && h[i / 2].data.expire > x.data.expire then Rise(h[i := h[i / 2]], i / 2, x) else h[i := x]
  }

  /** The child that heap_peek compares with: the smaller of the two. */
  function SmallerChild(h: seq<Elem>, n: nat, i: nat): (c: nat)
    requires 1 <= i && 2 * i <= n < |h|
    ensures 2 * i <= c <= 2 * i + 1 && c <= n
    ensures forall k :: 2 * i <= k <= 2 * i + 1 && k <= n ==> h[c].data.expire <= h[k].data.expire
  {
    if 2 * i != n && h[2 * i + 1].data.expire < h[2 * i].data.expire then 2 * i + 1 else 2 * i
  }

  /** heap_peek: the hole at slot i sinks past smaller children and takes x. */
  function Sink(h: seq<Elem>, n: nat, i: nat, x: Elem): (r: seq<Elem>)
    requires 1 <= i < |h| && n < |h|
    ensures |r| == |h|
    decreases |h| - i
  {
    if 2 * i <= n && x.data.expire > h[SmallerChild(h, n, i)].data.expire then
      var c := SmallerChild(h, n, i);
      Sink(h[i := h[c]], n, c, x)
    else h[i := x]
  }

  /** heap_delete: one pass that swaps neighbours out of order. */
  function Bubble(h: seq<Elem>, n: nat, i: nat): (r: seq<Elem>)
    requires n < |h| && 1 <= i
    ensures |r| == |h|
    decreases n - i
  {
    if i >= n then h
    else if h[i].data.expire > h[i + 1].data.expire then Bubble(h[i := h[i + 1]][i + 1 := h[i]], n, i + 1)
    else Bubble(h, n, i + 1)
  }

  lemma {:induction false} RiseContents(h: seq<Elem>, n: nat, i: nat, x: Elem)
    requires 1 <= i <= n < |h|
    ensures multiset(Slots(Rise(h, i, x), n)) == multiset(Slots(h[i := x], n))
    decreases i
  {
    if i > 1 && h[i / 2].data.expire > x.data.expire {
      HoleMoves(h, n, i, i / 2, x);
      RiseContents(h[i := h[i / 2]], n, i / 2, x);
    }
  }

  /** All pairs but that of the hole and its parent are in order once x fills the hole. */
  ghost predicate Rising(h: seq<Elem>, n: nat, i: nat, x: Elem)
    requires 1 <= i <= n < |h|
  {
    && (forall k :: 2 <= k <= n && k != i ==> UnderWith(h, i, x, k))
    && (forall k :: 4 <= k <= n && k / 2 == i ==> FarUnder(h, k))
  }

  lemma RisingStep(h: seq<Elem>, n: nat, i: nat, x: Elem)
    requires 1 < i <= n < |h| && Rising(h, n, i, x) && h[i / 2].data.expire > x.data.expire
    ensures Rising(h[i := h[i / 2]], n, i / 2, x)
  {
    var p: nat := i / 2;
    var g: seq<Elem> := h[i := h[p]];
    assert p > 1 ==> UnderWith(h, i, x, p);
    forall k: int | 2 <= k <= n && k != p ensures UnderWith(g, p, x, k) {
      if k != i { assert UnderWith(h, i, x, k); }
      if k / 2 == i { assert FarUnder(h, k); }
    }
    forall k: int | 4 <= k <= n && k / 2 == p ensures FarUnder(g, k) {
      if k != i { assert UnderWith(h, i, x, k); }
    }
  }

  lemma {:induction false} RiseOrders(h: seq<Elem>, n: nat, i: nat, x: Elem)
    requires 1 <= i <= n < |h| && Rising(h, n, i, x)
    ensures Ordered(Rise(h, i, x), n)
    decreases i
  {
    if i > 1 && h[i / 2].data.expire > x.data.expire {
      RisingStep(h, n, i, x);
      RiseOrders(h[i := h[i / 2]], n, i / 2, x);
    } else {
      var r := h[i := x];
      forall k: int | 2 <= k <= n ensures Under(r, k) {
        if k != i { assert UnderWith(h, i, x, k); }
      }
    }
  }

  /** Even out of order, a heap whose first timer expires first keeps that. */
  lemma {:induction false} RiseKeepsRoot(h: seq<Elem>, n: nat, i: nat, x: Elem)
    requires 1 < i <= n < |h|
    requires forall k :: 1 <= k <= n && k != i ==> h[1].data.expire <= h[k].data.expire
    ensures RootFirst(Rise(h, i, x), n)
    decreases i
  {
    if h[i / 2].data.expire > x.data.expire {
      var g := h[i := h[i / 2]];
      if i / 2 == 1 {
        assert Rise(g, 1, x) == g[1 := x];
      } else {
        RiseKeepsRoot(g, n, i / 2, x);
      }
    }
  }

  /** A timer that does not expire before the first one stays below it. */
  lemma {:induction false} RiseLeavesRoot(h: seq<Elem>, i: nat, x: Elem)
    requires 1 < i < |h| && h[1].data.expire <= x.data.expire
    ensures Rise(h, i, x)[1] == h[1]
    decreases i
  {
    if h[i / 2].data.expire > x.data.expire { RiseLeavesRoot(h[i := h[i / 2]], i / 2, x); }
  }

  lemma {:induction false} SinkContents(h: seq<Elem>, n: nat, i: nat, x: Elem)
    requires 1 <= i <= n < |h|
    ensures multiset(Slots(Sink(h, n, i, x), n)) == multiset(Slots(h[i := x], n))
    decreases n - i
  {
    if 2 * i <= n && x.data.expire > h[SmallerChild(h, n, i)].data.expire {
      var c := SmallerChild(h, n, i);
      HoleMoves(h, n, i, c, x);
      SinkContents(h[i := h[c]], n, c, x);
    }
  }

  /** In order everywhere but at the hole, whose parent and children are in order with each other. */
  ghost predicate Sinking(h: seq<Elem>, n: nat, i: nat, x: Elem)
    requires 1 <= i <= n < |h|
  {
    && (forall k :: 2 <= k <= n && k != i && k / 2 != i ==> Under(h, k))
    && (i > 1 ==> h[i / 2].data.expire <= x.data.expire)
    && (forall k :: 4 <= k <= n && k / 2 == i ==> FarUnder(h, k))
  }

  lemma {:induction false} SinkOrders(h: seq<Elem>, n: nat, i: nat, x: Elem)
    requires 1 <= i <= n < |h| && Sinking(h, n, i, x)
    ensures Ordered(Sink(h, n, i, x), n)
    decreases n - i
  {
    if 2 * i <= n && x.data.expire > h[SmallerChild(h, n, i)].data.expire {
      SinkingStep(h, n, i, x);
      SinkOrders(h[i := h[SmallerChild(h, n, i)]], n, SmallerChild(h, n, i), x);
    } else {
      var r := h[i := x];
      forall k: int | 2 <= k <= n ensures Under(r, k) {
        if k / 2 == i { assert h[SmallerChild(h, n, i)].data.expire <= h[k].data.expire; }
        else if k != i { assert Under(h, k); }
      }
    }
  }

  lemma SinkingStep(h: seq<Elem>, n: nat, i: nat, x: Elem)
    requires 1 <= i && 2 * i <= n < |h| && Sinking(h, n, i, x)
    requires x.data.expire > h[SmallerChild(h, n, i)].data.expire
    ensures var c := SmallerChild(h, n, i); Sinking(h[i := h[c]], n, c, x)
  {
    var c := SmallerChild(h, n, i);
    var g: seq<Elem> := h[i := h[c]];
    assert c / 2 == i;
    forall k: int | 2 <= k <= n && k != c && k / 2 != c ensures Under(g, k) {
      if k == i { assert FarUnder(h, c); }
      else if k / 2 == i { assert h[c].data.expire <= h[k].data.expire; }
      else { assert Under(h, k); }
    }
    forall k: int | 4 <= k <= n && k / 2 == c ensures FarUnder(g, k) {
      assert Under(h, k);
    }
  }

  lemma SwapContents(h: seq<Elem>, n: nat, i: nat)
    requires 1 <= i < n < |h|
    ensures multiset(Slots(h[i := h[i + 1]][i + 1 := h[i]], n)) == multiset(Slots(h, n))
  {
    HoleMoves(h, n, i, i + 1, h[i]);
    assert h[i := h[i]] == h;
  }

  lemma {:induction false} BubbleContents(h: seq<Elem>, n: nat, i: nat)
    requires n < |h| && 1 <= i
    ensures multiset(Slots(Bubble(h, n, i), n)) == multiset(Slots(h, n))
    decreases n - i
  {
    hide Slots;
    if i < n {
      if h[i].data.expire > h[i + 1].data.expire {
        SwapContents(h, n, i);
        BubbleContents(h[i := h[i + 1]][i + 1 := h[i]], n, i + 1);
      } else {
        BubbleContents(h, n, i + 1);
      }
    }
  }

  /** The pass does not touch what lies before it. */
  lemma {:induction false} BubbleFront(h: seq<Elem>, n: nat, i: nat, k: nat)
    requires n < |h| && 1 <= i && k < i && k < |h|
    ensures Bubble(h, n, i)[k] == h[k]
    decreases n - i
  {
    if i < n {
      if h[i].data.expire > h[i + 1].data.expire {
        BubbleFront(h[i := h[i + 1]][i + 1 := h[i]], n, i + 1, k);
      } else {
        BubbleFront(h, n, i + 1, k);
      }
    }
  }

  /** Slot f takes the last element and the last slot goes. */
  lemma DropAt(h: seq<Elem>, n: nat, f: nat)
    requires 1 <= f <= n < |h|
    ensures multiset(Slots(h[f := h[n]], n - 1)) == multiset(Slots(h, n)) - multiset{h[f]}
  {
    var s, e := Slots(h, n), h[n];
    var front := s[..n - 1];
    assert s == front + [e];
    if f == n {
      assert Slots(h[f := e], n - 1) == front;
    } else {
      assert Slots(h[f := e], n - 1) == front[f - 1 := e];
      assert front[f - 1] == h[f];
    }
  }

  lemma DropOrder(h: seq<Elem>, n: nat)
    requires 1 <= n < |h| && Ordered(h, n)
    ensures Ordered(h, n - 1) && (n >= 2 ==> Sinking(h, n - 1, 1, h[n]))
  {
    assert forall k :: 2 <= k <= n ==> Under(h, k);
  }

  /** Whether the first timer expires first depends on it and on what is there, not on the order. */
  lemma RootFirstByContents(h: seq<Elem>, n: nat, g: seq<Elem>, m: nat)
    requires 1 <= n < |h| && 1 <= m < |g| && h[1] == g[1]
    requires RootFirst(h, n) && multiset(Slots(g, m)) <= multiset(Slots(h, n))
    ensures RootFirst(g, m)
  {
    forall k | 1 <= k <= m ensures g[1].data.expire <= g[k].data.expire {
      assert g[k] == Slots(g, m)[k - 1];
      assert g[k] in multiset(Slots(g, m)) && g[k] in multiset(Slots(h, n));
      var j :| 0 <= j < n && Slots(h, n)[j] == g[k];
      assert h[j + 1] == g[k];
    }
  }

  /** The array after heap_delete of slot f > 1. */
  function DeleteFrom(h: seq<Elem>, n: nat, f: nat): (r: seq<Elem>)
    requires 2 <= f <= n < |h|
    ensures |r| == |h|
  {
    if f == n then h else Bubble(h[f := h[n]], n - 1, f)
  }

  lemma DeleteEffect(h: seq<Elem>, n: nat, f: nat)
    requires 2 <= f <= n < |h|
    ensures var r := DeleteFrom(h, n, f);
      && multiset(Slots(r, n - 1)) == multiset(Slots(h, n)) - multiset{h[f]}
      && (RootFirst(h, n) ==> RootFirst(r, n - 1))
  {
    hide Bubble, Slots, RootFirst;
    var r, g := DeleteFrom(h, n, f), h[f := h[n]];
    DropAt(h, n, f);
    if f < n {
      BubbleContents(g, n - 1, f);
      BubbleFront(g, n - 1, f, 1);
    } else {
      assert g == h;
    }
    assert multiset(Slots(r, n - 1)) == multiset(Slots(g, n - 1));
    assert r[1] == g[1] == h[1];
    if RootFirst(h, n) { RootFirstByContents(h, n, r, n - 1); }
  }

  lemma InsertEffect(before: seq<Elem>, h: seq<Elem>, n: nat, x: Elem)
    requires 1 <= n < |h| && (n == 1 || n - 1 < |before|)
    requires forall k :: 1 <= k < n ==> h[k] == before[k]
    ensures multiset(Slots(Rise(h, n, x), n)) == multiset(Slots(before, n - 1)) + multiset{x}
    ensures Ordered(before, n - 1) ==> Ordered(Rise(h, n, x), n)
    ensures RootFirst(before, n - 1) ==> RootFirst(Rise(h, n, x), n)
    ensures n > 1 && h[1].data.expire <= x.data.expire ==> Rise(h, n, x)[1] == h[1]
  {
    if n > 1 && h[1].data.expire <= x.data.expire { RiseLeavesRoot(h, n, x); }
    RiseContents(h, n, n, x);
    assert Slots(h[n := x], n) == Slots(before, n - 1) + [x];
    if Ordered(before, n - 1) {
      forall k: int | 2 <= k <= n && k != n ensures UnderWith(h, n, x, k) { assert Under(before, k); }
      RiseOrders(h, n, n, x);
    }
    if n > 1 && RootFirst(before, n - 1) { RiseKeepsRoot(h, n, n, x); }
  }

  lemma PeekEffect(h: seq<Elem>, n: nat)
    requires 1 <= n < |h|
    ensures multiset(Slots(Sink(h, n - 1, 1, h[n]), n - 1)) == multiset(Slots(h, n)) - multiset{h[1]}
    ensures Ordered(h, n) ==> Ordered(Sink(h, n - 1, 1, h[n]), n - 1)
  {
    DropAt(h, n, 1);
    if n > 1 {
      SinkContents(h, n - 1, 1, h[n]);
      if Ordered(h, n) {
        DropOrder(h, n);
        SinkOrders(h, n - 1, 1, h[n]);
      }
    }
  }

  /** Deleting the last slot, or taking out the first, keeps the order. */
  lemma DeleteLastKeepsOrder(h: seq<Elem>, n: nat)
    requires 2 <= n < |h| && Ordered(h, n)
    ensures Ordered(DeleteFrom(h, n, n), n - 1)
  {
    DropOrder(h, n);
  }
}
