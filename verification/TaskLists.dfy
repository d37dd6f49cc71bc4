/** The singly linked task lists of kernel/scheduler.c:292-338. */
module TaskLists {
  import opened Sequences

  datatype TaskState = Idle | Runnable | Running | Waiting | Forked | Stopped | Zombie | Over

  class Task {
    var next: Task?
    var state: TaskState
    var timeslice: int
    var ppid: nat
    var vforked: bool
    const pid: nat
    const tid: nat
    const nice: int

    constructor (p: nat, t: nat, parent: nat, n: int, v: bool)
      ensures pid == p && tid == t && ppid == parent && nice == n && vforked == v && state == Runnable && next == null
    {
      next, state, timeslice, ppid, vforked := null, Runnable, 0, parent, v;
      pid, tid, nice := p, t, n;
    }
  }

  /** The list that starts at head has these tasks, in this order. */
  ghost predicate List(head: Task?, s: seq<Task>)
    reads s`next
  {
    && Distinct(s)
    && (if s == [] then head == null else head == s[0] && s[|s| - 1].next == null)
    && (forall i, j :: 0 <= i && j == i + 1 && j < |s| ==> s[i].next == s[j])
  }

  ghost predicate Apart(a: seq<Task>, b: seq<Task>) {
    forall i, j :: 0 <= i < |a| && 0 <= j < |b| ==> a[i] != b[j]
  }

  lemma ListDistinct(head: Task?, s: seq<Task>)
    requires List(head, s)
    ensures Distinct(s)
  {
  }

  /** The list without a task. */
  ghost function Without(s: seq<Task>, t: Task): seq<Task> {
    if s == [] then [] else if s[0] == t then s[1..] else [s[0]] + Without(s[1..], t)
  }

  lemma {:induction false} WithoutAt(s: seq<Task>, i: nat)
    requires i < |s| && Distinct(s)
    ensures Without(s, s[i]) == s[..i] + s[i + 1..]
  {
    if i > 0 {
      assert forall k, l :: 0 <= k < l < |s[1..]| ==> s[1..][k] == s[k + 1] && s[1..][l] == s[l + 1];
      WithoutAt(s[1..], i - 1);
      assert s[1..][i - 1] == s[i] && s[1..][..i - 1] == s[1..i] && s[1..][i..] == s[i + 1..];
      assert s[..i] == [s[0]] + s[1..i];
    }
  }

  lemma {:induction false} WithoutAbsent(s: seq<Task>, t: Task)
    requires t !in s
    ensures Without(s, t) == s
  {
    if s != [] { WithoutAbsent(s[1..], t); }
  }

  lemma {:induction false} WithoutElements(s: seq<Task>, t: Task)
    requires Distinct(s)
    ensures Distinct(Without(s, t)) && t !in Without(s, t)
    ensures forall x :: x in s && x != t ==> x in Without(s, t)
    ensures forall x :: x in Without(s, t) ==> x in s && x != t
  {
    if t in s {
      var i :| 0 <= i < |s| && s[i] == t;
      WithoutAt(s, i);
      var w := s[..i] + s[i + 1..];
      forall k, l | 0 <= k < l < |w| ensures w[k] != w[l] {
        assert w[k] == s[if k < i then k else k + 1] && w[l] == s[if l < i then l else l + 1];
      }
      forall x | x in s && x != t ensures x in w {
        var k :| 0 <= k < |s| && s[k] == x;
        assert w[if k < i then k else k - 1] == x;
      }
    } else {
      WithoutAbsent(s, t);
    }
  }

  /** Moving a task from one list to the other leaves them apart. */
  lemma MoveApart(a: seq<Task>, b: seq<Task>, t: Task)
    requires Distinct(a) && (Apart(a, b) || Apart(b, a))
    ensures Apart(b, a) && Apart(a, b) && (t in a ==> t !in b)
    ensures t in a ==> Apart([t] + b, Without(a, t)) && Apart(Without(a, t), [t] + b)
  {
    WithoutElements(a, t);
    var w, m := Without(a, t), [t] + b;
    if t in a {
      forall i, j | 0 <= i < |m| && 0 <= j < |w| ensures m[i] != w[j] {
        assert w[j] in w;
        if i > 0 { assert m[i] == b[i - 1]; }
      }
    }
  }

  lemma RemoveApart(a: seq<Task>, b: seq<Task>, t: Task)
    requires Distinct(a) && Distinct(b) && Apart(a, b)
    ensures Apart(Without(a, t), b) && Apart(Without(a, t), Without(b, t))
  {
    WithoutElements(a, t);
    WithoutElements(b, t);
    var w, v := Without(a, t), Without(b, t);
    forall i, j | 0 <= i < |w| && 0 <= j < |b| ensures w[i] != b[j] { assert w[i] in w; }
    forall i, j | 0 <= i < |w| && 0 <= j < |v| ensures w[i] != v[j] { assert w[i] in w && v[j] in v; }
  }

  lemma AddApart(a: seq<Task>, b: seq<Task>, t: Task)
    requires Apart(a, b) && t !in a && t !in b
    ensures Apart([t] + a, b)
  {
    var m := [t] + a;
    forall i, j | 0 <= i < |m| && 0 <= j < |b| ensures m[i] != b[j] {
      if i > 0 { assert m[i] == a[i - 1]; }
    }
  }

  /** tasklist_add, for a list with this head; the result is the new head. */
  method TasklistAdd(list: Task?, el: Task, ghost s: seq<Task>) returns (head: Task)
    requires List(list, s) && el !in s
    modifies el`next
    ensures List(head, [el] + s)
  {
    el.next := list;
    head := el;
    ghost var r := [el] + s;
    forall i, j | 0 <= i && j == i + 1 && j < |r| ensures r[i].next == r[j] {
      if i > 0 { assert r[i] == s[i - 1] && r[j] == s[i]; }
    }
  }

  /** tasklist_del, for a list with this head. */
  method TasklistDel(list: Task?, togo: Task, ghost s: seq<Task>) returns (ret: int, head: Task?)
    requires List(list, s)
    modifies s`next
    ensures ret == (if togo in s then 0 else -1) && List(head, Without(s, togo))
    ensures togo !in s ==> forall t :: t in s ==> t.next == old(t.next)
  {
    hide Without;
    head := list;
    var t, p: Task? := list, null;
    ghost var i := 0;
    while t != null
      invariant 0 <= i <= |s| && (if i < |s| then t == s[i] else t == null)
      invariant if i == 0 then p == null else p == s[i - 1]
      invariant head == list && forall x :: x in s ==> x.next == old(x.next)
      invariant forall k :: 0 <= k < i ==> s[k] != togo
      decreases |s| - i
    {
      if t == togo {
        WithoutAt(s, i);
        if p == null {
          head := t.next;
        } else {
          p.next := t.next;
        }
        return 0, head;
      }
      p := t;
      t := t.next;
      i := i + 1;
    }
    WithoutAbsent(s, togo);
    return -1, head;
  }
}
