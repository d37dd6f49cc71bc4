/** Whom task_switch selects (kernel/scheduler.c:2113-2134), over a list of different tasks. */
module TaskTurns {
  import opened Sequences

  function IndexOf<T(==)>(s: seq<T>, c: T): (i: nat)
    ensures i <= |s| && (i < |s| <==> c in s) && (i < |s| ==> s[i] == c)
    ensures forall k :: 0 <= k < i ==> s[k] != c
  {
    if s == [] || s[0] == c then 0 else 1 + IndexOf(s[1..], c)
  }

  /** The task behind the current one, or the first if there is none. */
  function Next<T(==)>(s: seq<T>, c: T): (t: T)
    requires s != []
    ensures t in s
  {
    var i := IndexOf(s, c);
    if i + 1 < |s| then s[i + 1] else s[0]
  }

  /** Whom so many switches in a row select, while the running list stays as it is. */
  function Turns<T(==)>(s: seq<T>, c: T, n: nat): (r: seq<T>)
    requires s != []
    ensures |r| == n
    decreases n
  {
    if n == 0 then [] else [Next(s, c)] + Turns(s, Next(s, c), n - 1)
  }

  /** From a task on, the turns go down the list. */
  lemma {:induction false} TurnsDown<T>(s: seq<T>, i: nat, n: nat)
    requires Distinct(s) && i + n < |s|
    ensures Turns(s, s[i], n) == s[i + 1..i + 1 + n]
    decreases n
  {
    if n > 0 {
      assert IndexOf(s, s[i]) == i;
      TurnsDown(s, i + 1, n - 1);
      assert s[i + 1..i + 1 + n] == [s[i + 1]] + s[i + 2..i + 1 + n];
    }
  }

  lemma {:induction false} TurnsSplit<T>(s: seq<T>, c: T, m: nat, n: nat)
    requires s != []
    decreases m
    ensures Turns(s, c, m + n) == Turns(s, c, m) + Turns(s, if m == 0 then c else Turns(s, c, m)[m - 1], n)
  {
    if m > 0 {
      var d := Next(s, c);
      TurnsSplit(s, d, m - 1, n);
      assert Turns(s, c, m) == [d] + Turns(s, d, m - 1);
    }
  }

  /** Behind the last one, they begin at the front again. */
  lemma TurnsWrap<T>(s: seq<T>, i: nat)
    requires Distinct(s) && i < |s|
    ensures Turns(s, s[|s| - 1], i + 1) == s[..i + 1]
  {
    assert IndexOf(s, s[|s| - 1]) == |s| - 1;
    TurnsDown(s, 0, i);
    assert s[..i + 1] == [s[0]] + s[1..i + 1];
  }

  lemma TurnsAround<T>(s: seq<T>, i: nat)
    requires Distinct(s) && i < |s|
    ensures Turns(s, s[i], |s|) == s[i + 1..] + s[..i + 1]
  {
    hide Turns, Distinct, IndexOf, Next;
    var rest := |s| - 1 - i;
    var down := s[i + 1..];
    assert s[i + 1..i + 1 + rest] == down;
    TurnsDown(s, i, rest);
    TurnsSplit(s, s[i], rest, i + 1);
    TurnsWrap(s, i);
    if rest > 0 {
      assert down[rest - 1] == s[|s| - 1];
    }
  }

  lemma Rotated<T>(s: seq<T>, i: nat)
    requires i <= |s|
    ensures multiset(s[i..] + s[..i]) == multiset(s)
  {
    assert s == s[..i] + s[i..];
  }

  /** Any n switches over an unchanged list of n tasks select each task exactly once. */
  lemma EachOnce<T>(s: seq<T>, c: T)
    requires Distinct(s) && s != []
    ensures multiset(Turns(s, c, |s|)) == multiset(s)
    ensures var i := IndexOf(s, c); Turns(s, c, |s|) == if i < |s| then s[i + 1..] + s[..i + 1] else s
  {
    hide Turns, Distinct;
    var i := IndexOf(s, c);
    if i < |s| {
      TurnsAround(s, i);
      Rotated(s, i + 1);
    } else {
      FirstTurn(s, c, |s|);
      TurnsWrap(s, |s| - 1);
      assert s[..|s|] == s;
    }
  }

  /** A task that has left the list is followed by the first, as the last one is. */
  lemma FirstTurn<T>(s: seq<T>, c: T, n: nat)
    requires Distinct(s) && s != [] && c !in s && n > 0
    ensures Turns(s, c, n) == Turns(s, s[|s| - 1], n)
  {
    assert IndexOf(s, s[|s| - 1]) == |s| - 1;
  }
}
