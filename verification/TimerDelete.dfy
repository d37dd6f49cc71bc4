/**
 * When heap_delete keeps the heap in order (kernel/heap.h:98-106): its single pass over
 * neighbours does so for every heap of n timers exactly for certain slots.
 */
module TimerDelete {
  import opened TimerSlots

  /** The slots whose deletion keeps the order, whatever the timers are. */
  predicate KeepsOrder(n: nat, f: nat) {
    f == n || n <= 5 || (n == 6 && f == 3) || (n % 2 == 1 && f == n - 1)
  }

  /** One turn of the pass. */
  function Step(h: seq<Elem>, i: nat): (r: seq<Elem>)
    requires 1 <= i && i + 1 < |h|
    ensures |r| == |h|
  {
    if h[i].data.expire > h[i + 1].data.expire then h[i := h[i + 1]][i + 1 := h[i]] else h
  }

  lemma BubbleSteps(h: seq<Elem>, n: nat, i: nat)
    requires 1 <= i < n < |h|
    ensures Bubble(h, n, i) == Bubble(Step(h, i), n, i + 1)
  {
  }

  // ---- the slots that keep the order

  lemma KeptAtEnd(h: seq<Elem>, n: nat)
    requires 3 <= n < |h| && Ordered(h, n) && (n % 2 == 1 || n <= 5)
    ensures Ordered(DeleteFrom(h, n, n - 1), n - 1)
  {
    var r := h[n - 1 := h[n]];
    assert DeleteFrom(h, n, n - 1) == r;
    assert Under(h, n);
    OrderedRoot(h, n, n);
    forall k | 2 <= k <= n - 1 ensures Under(r, k) {
      if k < n - 1 { assert Under(h, k); }
    }
  }

  /** Five timers at most: only slot 4 lies below another slot than the first. */
  lemma KeptAmongFive(h: seq<Elem>, n: nat, f: nat)
    requires 2 <= f <= n - 2 && n <= 5 && n < |h| && Ordered(h, n)
    ensures Ordered(DeleteFrom(h, n, f), n - 1)
  {
    var r, g := DeleteFrom(h, n, f), h[f := h[n]];
    OrderedRootFirst(h, n);
    DeleteEffect(h, n, f);
    if n == 5 {
      assert Under(h, 4) && Under(h, 5);
      BubbleSteps(g, 4, f);
      if f == 2 { BubbleSteps(Step(g, 2), 4, 3); }
    }
    forall k | 2 <= k <= n - 1 ensures Under(r, k) { }
  }

  lemma KeptAmongSix(h: seq<Elem>)
    requires 6 < |h| && Ordered(h, 6)
    ensures Ordered(DeleteFrom(h, 6, 3), 5)
  {
    var r, g := DeleteFrom(h, 6, 3), h[3 := h[6]];
    OrderedRootFirst(h, 6);
    DeleteEffect(h, 6, 3);
    assert Under(h, 2) && Under(h, 3) && Under(h, 4) && Under(h, 5) && Under(h, 6);
    BubbleSteps(g, 5, 3);
    BubbleSteps(Step(g, 3), 5, 4);
    forall k | 2 <= k <= 5 ensures Under(r, k) { }
  }

  lemma DeleteKeepsOrder(h: seq<Elem>, n: nat, f: nat)
    requires 2 <= f <= n < |h| && Ordered(h, n) && KeepsOrder(n, f)
    ensures Ordered(DeleteFrom(h, n, f), n - 1)
  {
    if f == n { DeleteLastKeepsOrder(h, n); }
    else if f == n - 1 { KeptAtEnd(h, n); }
    else if n == 6 { KeptAmongSix(h); }
    else { KeptAmongFive(h, n, f); }
  }

  // ---- the slots that do not

  /** Slot k is p or below it. */
  predicate InTree(p: nat, k: nat) { k == p || (k > p && InTree(p, k / 2)) }

  function TimerAt(time: nat): Elem { Elem(time, Timer(time, 1, 0)) }

  /** Time 1 at slot p and below it, x in the last slot, and 0 elsewhere. */
  function Lopsided(n: nat, p: nat, x: nat): (h: seq<Elem>)
    ensures |h| == n + 1
  {
    seq(n + 1, k requires 0 <= k <= n => TimerAt(if k == n then x else if InTree(p, k) then 1 else 0))
  }

  lemma LopsidedOrdered(n: nat, p: nat, x: nat)
    requires 2 <= p < n && (x > 1 || !InTree(p, n / 2))
    ensures Ordered(Lopsided(n, p, x), n)
  {
    var h := Lopsided(n, p, x);
    forall k | 2 <= k <= n ensures Under(h, k) {
      assert k / 2 < k;
      if InTree(p, k / 2) { assert k > p && InTree(p, k); }
    }
  }

  /** A timer later than all behind it is carried to the end, and they all move up. */
  lemma {:induction false} CarriesOn(h: seq<Elem>, n: nat, i: nat, k: nat)
    requires 1 <= i <= k < n < |h| && forall j :: i < j <= n ==> h[i].data.expire > h[j].data.expire
    ensures Bubble(h, n, i)[k] == h[k + 1]
    decreases n - i
  {
    var g := Step(h, i);
    BubbleSteps(h, n, i);
    if i == k { BubbleFront(g, n, i + 1, k); } else { CarriesOn(g, n, i + 1, k); }
  }

  /** With the latest timer last, each slot from f on gets what was behind it. */
  lemma MovedUp(n: nat, f: nat, p: nat, k: nat)
    requires 2 <= f <= k <= n - 2 && 2 <= p
    ensures DeleteFrom(Lopsided(n, p, 2), n, f)[k] == Lopsided(n, p, 2)[k + 1]
  {
    var h := Lopsided(n, p, 2);
    var g := h[f := h[n]];
    assert h[n] == TimerAt(2) && g[f] == h[n];
    forall j | f < j <= n - 1 ensures g[j].data.expire <= 1 { assert g[j] == h[j]; }
    CarriesOn(g, n - 1, f, k);
  }

  lemma StaysBefore(n: nat, f: nat, p: nat, k: nat)
    requires 2 <= f <= n - 1 && k < f && 2 <= p
    ensures DeleteFrom(Lopsided(n, p, 2), n, f)[k] == Lopsided(n, p, 2)[k]
  {
    var h := Lopsided(n, p, 2);
    BubbleFront(h[f := h[n]], n - 1, f, k);
  }

  /** What moves up to slot i can be earlier than what is above that now. */
  lemma MovesUp(n: nat, f: nat, p: nat, i: nat)
    requires 2 <= f <= i && 4 <= i <= n - 2 && 2 <= p
    requires if p < f then i / 2 == p else i / 2 == p - 1 >= f
    requires !InTree(p, i + 1)
    ensures var h := Lopsided(n, p, 2); Ordered(h, n) && !Ordered(DeleteFrom(h, n, f), n - 1)
  {
    hide Ordered, DeleteFrom;
    var h := Lopsided(n, p, 2);
    LopsidedOrdered(n, p, 2);
    MovedUp(n, f, p, i);
    if p < f { StaysBefore(n, f, p, p); } else { MovedUp(n, f, p, p - 1); }
    Breaks(DeleteFrom(h, n, f), n - 1, i);
  }

  lemma Breaks(r: seq<Elem>, n: nat, k: nat)
    requires 2 <= k <= n < |r| && r[k].data.expire < r[k / 2].data.expire
    ensures !Ordered(r, n)
  {
    assert !Under(r, k);
  }

  /** The last timer is the earliest: at the end it comes below the neighbour of its old parent. */
  lemma ComesLow(n: nat, f: nat)
    requires n >= 6 && n % 2 == 0 && n - 2 <= f <= n - 1
    ensures var h := Lopsided(n, n / 2 - 1, 0); Ordered(h, n) && !Ordered(DeleteFrom(h, n, f), n - 1)
  {
    var p := n / 2 - 1;
    var h := Lopsided(n, p, 0);
    NotNeighbour(p);
    LopsidedOrdered(n, p, 0);
    var g, r := h[f := h[n]], DeleteFrom(h, n, f);
    if f == n - 2 {
      assert InTree(p, n - 1);
      BubbleSteps(g, n - 1, f);
      assert Step(g, f) == g;
    }
    assert r == g && !Under(r, f);
  }

  lemma NotNeighbour(p: nat)
    requires p >= 2
    ensures !InTree(p, p + 1)
  {
    assert (p + 1) / 2 < p;
  }

  /** A heap of n timers that is no longer in order when slot f is deleted. */
  lemma DeleteCanLoseOrder(n: nat, f: nat) returns (h: seq<Elem>)
    requires 2 <= f <= n && !KeepsOrder(n, f)
    ensures |h| == n + 1 && Ordered(h, n) && !Ordered(DeleteFrom(h, n, f), n - 1)
  {
    if n % 2 == 0 && n - 2 <= f {
      ComesLow(n, f);
      return Lopsided(n, n / 2 - 1, 0);
    }
    if f == 2 {
      assert !InTree(3, 5);
      MovesUp(n, 2, 3, 4);
      return Lopsided(n, 3, 2);
    }
    var i := if f == 3 then 5 else if f % 2 == 1 then f else f + 1;
    var p := i / 2;
    NotNeighbour(p);
    assert (i + 1) / 2 == p + 1 && !InTree(p, i + 1);
    MovesUp(n, f, p, i);
    return Lopsided(n, p, 2);
  }

  /** Deleting a slot keeps the order of every heap of that many timers exactly under the condition above. */
  lemma DeleteKeepsOrderExactly(n: nat, f: nat)
    requires 2 <= f <= n
    ensures (forall h: seq<Elem> :: n < |h| && Ordered(h, n) ==> Ordered(DeleteFrom(h, n, f), n - 1)) <==> KeepsOrder(n, f)
  {
    if KeepsOrder(n, f) {
      forall h: seq<Elem> | n < |h| && Ordered(h, n) ensures Ordered(DeleteFrom(h, n, f), n - 1) {
        DeleteKeepsOrder(h, n, f);
      }
    } else {
      var h := DeleteCanLoseOrder(n, f);
    }
  }

  // ---- what that can lead to

  lemma TakenOutOfOrder()
    ensures var r := [TimerAt(0), TimerAt(1), TimerAt(10), TimerAt(3), TimerAt(4), TimerAt(11), TimerAt(12)];
      var once := Sink(r, 5, 1, r[6]); var twice := Sink(once, 4, 1, once[5]);
      RootFirst(r, 6) && twice[..5] == [TimerAt(0), TimerAt(10), TimerAt(4), TimerAt(12), TimerAt(11)] && !RootFirst(twice, 4)
  {
    var r := [TimerAt(0), TimerAt(1), TimerAt(10), TimerAt(3), TimerAt(4), TimerAt(11), TimerAt(12)];
    var r1 := [TimerAt(0), TimerAt(3), TimerAt(10), TimerAt(3), TimerAt(4), TimerAt(11), TimerAt(12)];
    var once := [TimerAt(0), TimerAt(3), TimerAt(10), TimerAt(12), TimerAt(4), TimerAt(11), TimerAt(12)];
    assert r[1 := r[3]] == r1 && r1[3 := r[6]] == once;
    assert Sink(r, 5, 1, r[6]) == Sink(r1, 5, 3, r[6]) == once;
    var s1 := [TimerAt(0), TimerAt(10), TimerAt(10), TimerAt(12), TimerAt(4), TimerAt(11), TimerAt(12)];
    var s2 := [TimerAt(0), TimerAt(10), TimerAt(4), TimerAt(12), TimerAt(4), TimerAt(11), TimerAt(12)];
    var twice := [TimerAt(0), TimerAt(10), TimerAt(4), TimerAt(12), TimerAt(11), TimerAt(11), TimerAt(12)];
    assert once[1 := once[2]] == s1 && s1[2 := s1[4]] == s2 && s2[4 := once[5]] == twice;
    assert Sink(once, 4, 1, once[5]) == Sink(s1, 4, 2, once[5]) == Sink(s2, 4, 4, once[5]) == twice;
    assert twice[2].data.expire < twice[1].data.expire;
  }
}
