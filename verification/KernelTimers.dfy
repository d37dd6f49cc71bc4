/** The timers of kernel/systick.c on top of the heap. */
module KernelTimers {
  import opened Machine
  import opened TimerSlots
  import opened TimerDelete
  import opened TimerHeap

  class Timers {
    const list: Heap
    var jiffies: nat
    var checkPending: nat

    constructor ()
      ensures fresh(list) && list.Valid() && list.InOrder() && list.n == 0 && jiffies == 0
    {
      list := new Heap();
      jiffies, checkPending := 0, 0;
    }

    /** ktimer_add; expire_time is a 32-bit sum. */
    method Add(count: nat, handler: int, arg: int, ok: bool) returns (ret: int)
      requires list.Valid() && jiffies < WORD && count < WORD
      modifies list, list.top
      ensures var t := Timer((jiffies + count) % WORD, handler, arg);
        old(list.n) + 1 < old(list.size) || ok ==>
          && list.Valid() && list.Contents() == old(list.Contents()) + multiset{Elem(ret, t)}
          && (old(list.InOrder()) ==> list.InOrder())
          && (old(list.FirstIsMin()) ==> list.FirstIsMin())
          && ret == old(list.lastId) && list.lastId == NextId(ret)
      ensures old(list.n) + 1 >= old(list.size) && !ok ==> ret == -1 && list.top == null
    {
      ret := list.Insert(Timer((jiffies + count) % WORD, handler, arg), ok);
    }

    /** ktimer_del */
    method Del(tid: int) returns (ret: int, ghost slot: nat)
      requires list.Valid()
      modifies list, list.top
      ensures list.Valid() && (ret == 0 || ret == -1)
      ensures ret == -1 <==> tid < 0 || forall e: Elem :: e in old(list.Contents()) ==> e.id != tid
      ensures ret == -1 ==> list.Contents() == old(list.Contents())
      ensures ret == 0 ==>
        && 1 <= slot <= old(list.n) && old(list.Array())[slot].id == tid
        && list.Contents() == old(list.Contents()) - multiset{old(list.Array())[slot]}
        && (old(list.FirstIsMin()) && slot != 1 ==> list.FirstIsMin())
        && (old(list.InOrder()) && (slot == 1 || KeepsOrder(old(list.n), slot)) ==> list.InOrder())
    {
      if tid < 0 { return -1, 0; }
      ret, slot := list.Delete(tid);
    }

    /**
     * ktimers_check_tasklet. A handler may add timers that do not expire
     * before now; react says which. Timers fire in the order of their times,
     * each that was due fires exactly once, and nothing else leaves the heap.
     */
    method CheckTasklet(react: Timer -> seq<Timer>) returns (fired: seq<Elem>, ghost added: multiset<Elem>)
      requires list.Valid() && list.InOrder()
      requires forall t: Timer, k :: 0 <= k < |react(t)| ==> react(t)[k].expire >= jiffies
      modifies this`checkPending, list, list.top
      ensures list.Valid() && list.InOrder() && checkPending == 0
      ensures DueFired(old(list.Contents()), list.Contents(), fired, added, jiffies)
      ensures Brought(added, Reactions(react, fired))
    {
      ghost var c0 := list.Contents();
      fired, added := FireDue(react);
      ghost var now := list.Contents();
      AllDueFired(now, fired, c0, added, jiffies);
      checkPending := 0;
      assert list.Contents() == now;
    }

    /** The loop of the tasklet. */
    method FireDue(react: Timer -> seq<Timer>) returns (fired: seq<Elem>, ghost added: multiset<Elem>)
      requires list.Valid() && list.InOrder()
      requires forall t: Timer, k :: 0 <= k < |react(t)| ==> react(t)[k].expire >= jiffies
      modifies list, list.top
      ensures list.Valid() && list.InOrder()
      ensures Firing(list.Contents(), fired, old(list.Contents()), added, jiffies)
      ensures forall e: Elem :: e in list.Contents() ==> e.data.expire >= jiffies
      ensures Brought(added, Reactions(react, fired))
    {
      fired, added := [], multiset{};
      ghost var c0 := list.Contents();
      NothingBrought();
      assert Reactions(react, []) == [] && Firing(c0, [], c0, multiset{}, jiffies);
      hide Brought, Reaction, Reactions, Slots, Ordered, Firing;
      while list.n > 0 && list.top[1].data.expire < jiffies
        invariant list.Valid() && list.InOrder()
        invariant list.top == old(list.top) || fresh(list.top)
        invariant Firing(list.Contents(), fired, c0, added, jiffies) && |fired| <= |c0|
        invariant Brought(added, Reactions(react, fired))
        decreases |c0| - |fired|
      {
        fired, added := FireNext(react, fired, added, c0);
      }
      if list.n > 0 { list.FirstIsLeast(); } else { list.EmptyHasNone(); }
    }

    /** One turn of the loop. */
    method FireNext(react: Timer -> seq<Timer>, fired: seq<Elem>, ghost added: multiset<Elem>, ghost c0: multiset<Elem>)
      returns (fired': seq<Elem>, ghost added': multiset<Elem>)
      requires list.Valid() && list.InOrder() && list.n > 0 && list.top[1].data.expire < jiffies
      requires forall t: Timer, k :: 0 <= k < |react(t)| ==> react(t)[k].expire >= jiffies
      requires Firing(list.Contents(), fired, c0, added, jiffies) && Brought(added, Reactions(react, fired))
      modifies list, list.top
      ensures list.Valid() && list.InOrder() && (list.top == old(list.top) || fresh(list.top))
      ensures Firing(list.Contents(), fired', c0, added', jiffies) && Brought(added', Reactions(react, fired'))
      ensures |fired'| == |fired| + 1 && |fired'| <= |c0|
    {
      hide Brought, Reaction, Reactions, Slots, Ordered, Firing;
      ghost var before := list.Contents();
      var t;
      ghost var gone, more;
      t, gone, more := FireFirst(react);
      BroughtLater(react, t.data, more, jiffies);
      FiredOne(react, fired, t, added, more);
      fired', added' := fired + [t], added + more;
      FiringStep(before, list.Contents(), fired, t, c0, added, more, jiffies);
    }

    /** The handler of t adds a timer that expires before t. */
    predicate Forestalls(react: Timer -> seq<Timer>, t: Timer) {
      t.handler != 0 && exists k :: 0 <= k < |react(t)| && react(t)[k].expire < t.expire
    }

    /**
     * One turn of the loop: the handler of the first timer runs, and what is first then is
     * taken out. That is the timer itself exactly if the handler adds none that expires
     * before it; otherwise one that was added goes without having fired.
     */
    method FireFirst(react: Timer -> seq<Timer>) returns (t: Elem, ghost gone: Elem, ghost added: multiset<Elem>)
      requires list.Valid() && list.InOrder() && list.n > 0
      modifies list, list.top
      ensures list.Valid() && list.InOrder()
      ensures list.top == old(list.top) || fresh(list.top)
      ensures t == old(list.top[1]) && t in old(list.Contents())
      ensures list.Contents() + multiset{gone} == old(list.Contents()) + added
      ensures gone == t <==> !Forestalls(react, t.data)
      ensures gone != t ==> gone.data.expire < t.data.expire && gone in added
      ensures Brought(added, Reaction(react, t.data))
      ensures forall e: Elem :: e in list.Contents() ==> gone.data.expire <= e.data.expire
    {
      hide Slots, Ordered;
      t := list.top[1];
      list.FirstIsLeast();
      ghost var before := list.Contents();
      added := RunHandler(t, react);
      list.FirstIsLeast();
      gone := list.top[1];
      assert gone in before + added;
      var tPrevious, r := list.Peek();
    }

    /** The call of the handler, which may add timers. */
    method RunHandler(t: Elem, react: Timer -> seq<Timer>) returns (ghost added: multiset<Elem>)
      requires list.Valid() && list.InOrder() && list.n > 0 && list.top[1] == t
      modifies list, list.top
      ensures list.Valid() && list.InOrder() && list.n > 0
      ensures if Forestalls(react, t.data) then list.top[1].data.expire < t.data.expire else list.top[1] == t
      ensures list.top == old(list.top) || fresh(list.top)
      ensures list.Contents() == old(list.Contents()) + added
      ensures Brought(added, Reaction(react, t.data))
    {
      hide Slots, Ordered, Brought, Reactions;
      added := multiset{};
      NothingBrought();
      if t.data.handler == 0 { return; }
      added := AddAll(t, react(t.data));
    }

    /** What a handler does, as far as this model goes. */
    method AddAll(t: Elem, todo: seq<Timer>) returns (ghost added: multiset<Elem>)
      requires list.Valid() && list.InOrder() && list.n > 0 && list.top[1] == t
      modifies list, list.top
      ensures list.Valid() && list.InOrder() && list.n > 0
      ensures if forall j :: 0 <= j < |todo| ==> todo[j].expire >= t.data.expire then list.top[1] == t
        else list.top[1].data.expire < t.data.expire
      ensures list.top == old(list.top) || fresh(list.top)
      ensures list.Contents() == old(list.Contents()) + added
      ensures Brought(added, todo)
    {
      hide Slots, Ordered, Brought, Reactions, Reaction;
      added := multiset{};
      NothingBrought();
      for k := 0 to |todo|
        invariant list.Valid() && list.InOrder() && list.n > 0
        invariant if forall j :: 0 <= j < k ==> todo[j].expire >= t.data.expire then list.top[1] == t
          else list.top[1].data.expire < t.data.expire
        invariant list.top == old(list.top) || fresh(list.top)
        invariant list.Contents() == old(list.Contents()) + added
        invariant Brought(added, todo[..k])
      {
        ghost var e := AddOne(todo[k]);
        BroughtOne(added, todo[..k], e);
        assert todo[..k + 1] == todo[..k] + [todo[k]];
        added := added + multiset{e};
      }
      assert todo[..|todo|] == todo;
    }

    /** A timer goes into a heap that is not empty; the first one then is no later than before, or than the new one. */
    method AddOne(el: Timer) returns (ghost e: Elem)
      requires list.Valid() && list.InOrder() && list.n > 0
      modifies list, list.top
      ensures list.Valid() && list.InOrder() && list.n > 0 && (list.top == old(list.top) || fresh(list.top))
      ensures e.data == el && list.Contents() == old(list.Contents()) + multiset{e}
      ensures list.top[1].data.expire <= old(list.top[1].data.expire) && list.top[1].data.expire <= el.expire
      ensures el.expire >= old(list.top[1].data.expire) ==> list.top[1] == old(list.top[1])
    {
      hide Slots, Ordered;
      ghost var first := list.top[1];
      list.FirstIsLeast();
      var id := list.Insert(el, true);
      e := Elem(id, el);
      assert first in list.Contents() && e in list.Contents();
      list.FirstIsLeast();
    }
  }

  /** What the handler of a timer adds. */
  function Reaction(react: Timer -> seq<Timer>, t: Timer): seq<Timer> {
    if t.handler == 0 then [] else react(t)
  }

  function Reactions(react: Timer -> seq<Timer>, fired: seq<Elem>): seq<Timer> {
    if fired == [] then [] else Reactions(react, fired[..|fired| - 1]) + Reaction(react, fired[|fired| - 1].data)
  }

  /** These are the timers, each under some id. */
  ghost predicate Brought(added: multiset<Elem>, timers: seq<Timer>) {
    exists news: seq<Elem> :: Carries(news, timers) && added == multiset(news)
  }

  predicate Carries(news: seq<Elem>, timers: seq<Timer>) {
    |news| == |timers| && forall k :: 0 <= k < |news| ==> news[k].data == timers[k]
  }

  lemma NothingBrought()
    ensures Brought(multiset{}, [])
  {
    assert Carries([], []);
  }

  lemma BroughtMore(a: multiset<Elem>, s: seq<Timer>, b: multiset<Elem>, t: seq<Timer>)
    requires Brought(a, s) && Brought(b, t)
    ensures Brought(a + b, s + t)
  {
    var m: seq<Elem> :| Carries(m, s) && a == multiset(m);
    var n: seq<Elem> :| Carries(n, t) && b == multiset(n);
    assert Carries(m + n, s + t) && a + b == multiset(m + n);
  }

  lemma BroughtOne(a: multiset<Elem>, s: seq<Timer>, e: Elem)
    requires Brought(a, s)
    ensures Brought(a + multiset{e}, s + [e.data])
  {
    assert Carries([e], [e.data]) && multiset([e]) == multiset{e};
    BroughtMore(a, s, multiset{e}, [e.data]);
  }

  lemma FiredOne(react: Timer -> seq<Timer>, fired: seq<Elem>, t: Elem, added: multiset<Elem>, more: multiset<Elem>)
    requires Brought(added, Reactions(react, fired)) && Brought(more, Reaction(react, t.data))
    ensures Brought(added + more, Reactions(react, fired + [t]))
  {
    BroughtMore(added, Reactions(react, fired), more, Reaction(react, t.data));
    assert (fired + [t])[..|fired|] == fired;
  }

  lemma BroughtLater(react: Timer -> seq<Timer>, t: Timer, added: multiset<Elem>, jiffies: nat)
    requires Brought(added, Reaction(react, t)) && forall k :: 0 <= k < |react(t)| ==> react(t)[k].expire >= jiffies
    ensures forall e: Elem :: e in added ==> e.data.expire >= jiffies
  {
    var m: seq<Elem> :| Carries(m, Reaction(react, t)) && added == multiset(m);
    forall e: Elem | e in added ensures e.data.expire >= jiffies {
      assert e in m;
    }
  }

  /** So far: nothing lost, and what has fired was due, in order, and before all that is left. */
  ghost predicate Firing(now: multiset<Elem>, fired: seq<Elem>, c0: multiset<Elem>, added: multiset<Elem>, jiffies: nat) {
    && now + multiset(fired) == c0 + added
    && (forall e: Elem :: e in added ==> e.data.expire >= jiffies)
    && (forall i :: 0 <= i < |fired| ==> fired[i].data.expire < jiffies)
    && (forall i, j :: 0 <= i < j < |fired| ==> fired[i].data.expire <= fired[j].data.expire)
    && (forall e: Elem, i :: e in now && 0 <= i < |fired| ==> fired[i].data.expire <= e.data.expire)
  }

  /**
   * Exactly the timers that were due have fired, in order of their times, and
   * the heap holds the others together with those added meanwhile.
   */
  ghost predicate DueFired(c0: multiset<Elem>, now: multiset<Elem>, fired: seq<Elem>, added: multiset<Elem>, jiffies: nat) {
    && now + multiset(fired) == c0 + added
    && (forall e: Elem :: e in added ==> e.data.expire >= jiffies)
    && (forall e: Elem :: e in now ==> e.data.expire >= jiffies)
    && (forall e: Elem :: multiset(fired)[e] == if e.data.expire < jiffies then c0[e] else 0)
    && (forall i, j :: 0 <= i < j < |fired| ==> fired[i].data.expire <= fired[j].data.expire)
  }

  lemma AllDueFired(now: multiset<Elem>, fired: seq<Elem>, c0: multiset<Elem>, added: multiset<Elem>, jiffies: nat)
    requires Firing(now, fired, c0, added, jiffies)
    requires forall e: Elem :: e in now ==> e.data.expire >= jiffies
    ensures DueFired(c0, now, fired, added, jiffies)
  {
    DueWereThere(now, fired, c0, added, jiffies);
    assert forall e: Elem :: e in multiset(fired) ==> e in fired;
  }

  lemma FiringStep(before: multiset<Elem>, now: multiset<Elem>, fired: seq<Elem>, t: Elem,
                   c0: multiset<Elem>, added: multiset<Elem>, more: multiset<Elem>, jiffies: nat)
    requires Firing(before, fired, c0, added, jiffies) && t in before && t.data.expire < jiffies
    requires now + multiset{t} == before + more
    requires forall e: Elem :: e in more ==> e.data.expire >= jiffies
    requires forall e: Elem :: e in now ==> t.data.expire <= e.data.expire
    ensures Firing(now, fired + [t], c0, added + more, jiffies)
    ensures |fired + [t]| <= |c0|
  {
    forall e: Elem, i | e in now && 0 <= i < |fired| ensures fired[i].data.expire <= e.data.expire {
      assert fired[i].data.expire <= t.data.expire;
    }
    var f := multiset(fired);
    assert multiset(fired + [t]) == f + multiset{t};
    assert now + (f + multiset{t}) == (before + more) + f == (c0 + added) + more;
    DueWereThere(now, fired + [t], c0, added + more, jiffies);
  }

  /** Timers that were due and have fired were in the heap at the start, so they cannot be more. */
  lemma DueWereThere(now: multiset<Elem>, fired: seq<Elem>, c0: multiset<Elem>, added: multiset<Elem>, jiffies: nat)
    requires now + multiset(fired) == c0 + added
    requires forall e: Elem :: e in added ==> e.data.expire >= jiffies
    requires forall i :: 0 <= i < |fired| ==> fired[i].data.expire < jiffies
    ensures |fired| <= |c0|
    ensures (forall e: Elem :: e in now ==> e.data.expire >= jiffies) ==>
      forall e: Elem :: e.data.expire < jiffies ==> multiset(fired)[e] == c0[e]
  {
    forall e: Elem ensures multiset(fired)[e] <= c0[e] {
      assert (now + multiset(fired))[e] == (c0 + added)[e];
      if e in multiset(fired) {
        assert e in fired;
        assert e !in added;
      }
    }
    assert multiset(fired) <= c0;
    assert c0 == multiset(fired) + (c0 - multiset(fired));
    forall e: Elem | e.data.expire < jiffies && forall d: Elem :: d in now ==> d.data.expire >= jiffies
      ensures multiset(fired)[e] == c0[e]
    {
      assert (now + multiset(fired))[e] == (c0 + added)[e];
      assert e !in now && e !in added;
    }
  }
}
