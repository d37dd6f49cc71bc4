/**
 * kernel/pipe.c: reads and writes on one pipe, and all their interleavings.
 */
module Pipe {
  import opened Sequences
  import opened CirBuf

  /** PIPE_BUFSIZE; the circular buffer leaves one slot unused. */
  const BUFSIZE: nat := 64
  const CAPACITY: nat := BUFSIZE - 1

  datatype Result = Again | WouldBlock | Done(count: nat)

  /** What the pipe holds between calls: the buffered bytes and w_off. */
  datatype State = State(queue: seq<byte>, wOff: nat)
  {
    ghost predicate Valid() { |queue| <= CAPACITY }
  }

  function Min(a: int, b: int): int { if a < b then a else b }

  /** How far pipe_write gets in the buffer: its loop runs from w_off up to len_available. */
  function WriteUpTo(p: State, len: nat): (out: nat)
    requires p.Valid() && p.wOff <= len
    ensures p.wOff <= out <= len && out - p.wOff <= CAPACITY - |p.queue|
  {
    var available := Min(CAPACITY - |p.queue|, len - p.wOff);
    if available > p.wOff then available else p.wOff
  }

  /** pipe_write */
  function Write(p: State, buf: seq<byte>, blocking: bool): (r: (State, Result))
    requires p.Valid() && p.wOff <= |buf|
    ensures r.0.Valid()
  {
    var out := WriteUpTo(p, |buf|);
    var q := p.queue + buf[p.wOff..out];
    if out < |buf| && blocking then (State(q, out), Again)
    else if out < |buf| && out == 0 then (State(q, p.wOff), WouldBlock)
    else (State(q, 0), Done(out))
  }

  /** pipe_read: state, result, and the bytes delivered. */
  function Read(p: State, len: nat, blocking: bool): (r: (State, Result, seq<byte>))
    requires p.Valid()
    ensures r.0.Valid()
  {
    if p.queue == [] then (p, if blocking then Again else WouldBlock, [])
    else
      var n := Min(len, |p.queue|);
      (State(p.queue[n..], p.wOff), Done(n), p.queue[..n])
  }

  // ---- what one call moves

  /** A read takes bytes off the front: as many as asked for, or all there are; only an empty pipe stops it. */
  lemma ReadDelivers(p: State, len: nat, blocking: bool)
    requires p.Valid()
    ensures var (q, res, bytes) := Read(p, len, blocking);
      && bytes + q.queue == p.queue && q.wOff == p.wOff
      && (if |p.queue| > 0 then res == Done(|bytes|) else res == if blocking then Again else WouldBlock)
      && (|bytes| == len || (|bytes| < len && q.queue == []))
  {
  }

  /**
   * A write that starts a buffer takes as much of it as there is room for; a retry only what
   * exceeds, within that room, the number of bytes taken before.
   */
  lemma WriteAccepts(p: State, buf: seq<byte>, blocking: bool)
    requires p.Valid() && p.wOff <= |buf|
    ensures var (q, res) := Write(p, buf, blocking);
      var taken := |q.queue| - |p.queue|;
      var out := p.wOff + taken;
      && 0 <= taken && out <= |buf| && q.queue == p.queue + buf[p.wOff..out]
      && (p.wOff == 0 ==> taken == |buf| || |q.queue| == CAPACITY)
      && (p.wOff > 0 ==>
        var room := Min(CAPACITY - |p.queue|, |buf| - p.wOff);
        taken == if room <= p.wOff then 0 else room - p.wOff)
      && (if out == |buf| then res == Done(|buf|) && q.wOff == 0
          else if blocking then res == Again && q.wOff == out
          else if out == 0 then res == WouldBlock && q.wOff == 0
          else res == Done(out) && q.wOff == 0)
  {
    assert buf[p.wOff..p.wOff] == [];
  }

  // ---- a writer that retries each buffer until it is taken, and any reader

  datatype Event = WriterRuns | ReaderRuns(len: nat, blocking: bool)

  /** The pipe, the buffers still to be written, and what the reader has got. */
  datatype System = System(pipe: State, todo: seq<seq<byte>>, delivered: seq<byte>)

  ghost predicate Consistent(s: System) {
    s.pipe.Valid() && (if s.todo == [] then s.pipe.wOff == 0 else s.pipe.wOff <= |s.todo[0]|)
  }

  function Step(s: System, e: Event): (r: System)
    requires Consistent(s)
  {
    match e
    case WriterRuns =>
      if s.todo == [] then s
      else
        var (p, res) := Write(s.pipe, s.todo[0], true);
        System(p, if res.Done? then s.todo[1..] else s.todo, s.delivered)
    case ReaderRuns(len, blocking) =>
      var (p, _, bytes) := Read(s.pipe, len, blocking);
      System(p, s.todo, s.delivered + bytes)
  }

  lemma StepConsistent(s: System, e: Event)
    requires Consistent(s)
    ensures Consistent(Step(s, e))
  {
  }

  function Run(s: System, events: seq<Event>): System
    requires Consistent(s)
    decreases |events|
  {
    if events == [] then s
    else
      StepConsistent(s, events[0]);
      Run(Step(s, events[0]), events[1..])
  }

  /** Bytes accepted so far and those the pipe has yet to accept make up all that is written. */
  ghost function Accepted(s: System): seq<byte> {
    s.delivered + s.pipe.queue
  }

  ghost function Ahead(s: System): seq<byte>
    requires Consistent(s)
  {
    if s.todo == [] then [] else s.todo[0][s.pipe.wOff..] + Concat(s.todo[1..])
  }

  /** A step moves bytes forward and loses, repeats or reorders none. */
  lemma StepConserves(s: System, e: Event)
    requires Consistent(s)
    ensures Accepted(Step(s, e)) + Ahead(Step(s, e)) == Accepted(s) + Ahead(s)
    ensures s.delivered <= Step(s, e).delivered
  {
    hide Concat;
    match e
    case WriterRuns => if s.todo != [] { WriterConserves(s); }
    case ReaderRuns(len, blocking) =>
      var n := Min(len, |s.pipe.queue|);
      assert s.pipe.queue == s.pipe.queue[..n] + s.pipe.queue[n..];
      if s.pipe.queue != [] {
        assert (s.delivered + s.pipe.queue[..n]) + s.pipe.queue[n..] == Accepted(s);
      }
  }

  lemma Regroup(d: seq<byte>, q: seq<byte>, a: seq<byte>, b: seq<byte>, c: seq<byte>)
    ensures (d + (q + a)) + (b + c) == (d + q) + ((a + b) + c)
  {
  }

  lemma WriterConserves(s: System)
    requires Consistent(s) && s.todo != []
    ensures var t := Step(s, WriterRuns); Consistent(t) && Accepted(t) + Ahead(t) == Accepted(s) + Ahead(s)
  {
    var p, buf, t := s.pipe, s.todo[0], Step(s, WriterRuns);
    var out := WriteUpTo(p, |buf|);
    StepConsistent(s, WriterRuns);
    Regroup(s.delivered, p.queue, buf[p.wOff..out], buf[out..], Concat(s.todo[1..]));
    assert buf[p.wOff..] == buf[p.wOff..out] + buf[out..];
    assert Accepted(t) == s.delivered + (p.queue + buf[p.wOff..out]);
    if out == |buf| {
      assert buf[out..] == [];
      if t.todo != [] { assert t.todo[0][0..] == t.todo[0]; }
      assert Ahead(t) == buf[out..] + Concat(s.todo[1..]);
    } else {
      assert Ahead(t) == buf[out..] + Concat(s.todo[1..]);
    }
  }

  /**
   * Over every interleaving the reader has received a prefix of the written
   * buffers in order, and delivered plus buffered bytes are those accepted.
   */
  lemma {:induction false} RunDeliversPrefix(s: System, events: seq<Event>)
    requires Consistent(s)
    ensures Consistent(Run(s, events))
    ensures var t := Run(s, events);
      && Accepted(t) + Ahead(t) == Accepted(s) + Ahead(s)
      && t.delivered <= Accepted(s) + Ahead(s)
    decreases |events|
  {
    if events != [] {
      StepConsistent(s, events[0]);
      StepConserves(s, events[0]);
      RunDeliversPrefix(Step(s, events[0]), events[1..]);
    } else {
      assert Accepted(s) + Ahead(s) == s.delivered + (s.pipe.queue + Ahead(s));
    }
  }

  lemma FromEmptyPipe(bufs: seq<seq<byte>>, events: seq<Event>)
    ensures var s := System(State([], 0), bufs, []);
      Consistent(s) && Run(s, events).delivered <= Concat(bufs)
  {
    var s := System(State([], 0), bufs, []);
    RunDeliversPrefix(s, events);
    if bufs != [] { assert bufs[0][0..] == bufs[0]; }
    assert Accepted(s) + Ahead(s) == Concat(bufs);
  }

  // ---- nothing gets stuck in the pipe

  lemma {:induction false} RunOn(s: System, events: seq<Event>, e: Event)
    requires Consistent(s) && Consistent(Run(s, events))
    ensures Run(s, events + [e]) == Step(Run(s, events), e)
    decreases |events|
  {
    if events != [] {
      StepConsistent(s, events[0]);
      assert (events + [e])[1..] == events[1..] + [e];
      RunOn(Step(s, events[0]), events[1..], e);
    } else {
      StepConsistent(s, e);
      assert (events + [e])[1..] == [];
    }
  }

  /** However a run has gone, a reader that asks for enough then has every byte accepted so far. */
  lemma ReaderCatchesUp(s: System, events: seq<Event>, len: nat, blocking: bool)
    requires Consistent(s) && len >= CAPACITY
    ensures Consistent(Run(s, events))
    ensures var t := Run(s, events + [ReaderRuns(len, blocking)]);
      t.delivered == Accepted(Run(s, events)) && t.pipe.queue == []
  {
    RunDeliversPrefix(s, events);
    RunOn(s, events, ReaderRuns(len, blocking));
    ReadDelivers(Run(s, events).pipe, len, blocking);
  }

  /** The writer and such a reader in turn. */
  function Turns(n: nat): seq<Event> {
    if n == 0 then [] else [WriterRuns, ReaderRuns(CAPACITY, true)] + Turns(n - 1)
  }

  lemma OneTurn(bufs: seq<seq<byte>>, got: seq<byte>)
    requires bufs != [] && |bufs[0]| <= CAPACITY
    ensures var t := Step(System(State([], 0), bufs, got), WriterRuns);
      && Consistent(t)
      && Step(t, ReaderRuns(CAPACITY, true)) == System(State([], 0), bufs[1..], got + bufs[0])
  {
    WriteAccepts(State([], 0), bufs[0], true);
    var t := Step(System(State([], 0), bufs, got), WriterRuns);
    assert t == System(State(bufs[0], 0), bufs[1..], got);
    ReadDelivers(t.pipe, CAPACITY, true);
  }

  lemma RunTwo(s: System, a: Event, b: Event, events: seq<Event>)
    requires Consistent(s) && Consistent(Step(s, a)) && Consistent(Step(Step(s, a), b))
    ensures Run(s, [a, b] + events) == Run(Step(Step(s, a), b), events)
  {
    hide Step;
    assert ([a, b] + events)[1..] == [b] + events && ([b] + events)[1..] == events;
    assert Run(s, [a, b] + events) == Run(Step(s, a), [b] + events);
  }

  /** Buffers that fit into the pipe then all arrive, one after the other. */
  lemma {:induction false} AllArrive(bufs: seq<seq<byte>>, got: seq<byte>)
    requires forall b :: b in bufs ==> |b| <= CAPACITY
    ensures var s := System(State([], 0), bufs, got);
      Consistent(s) && Run(s, Turns(|bufs|)) == System(State([], 0), [], got + Concat(bufs))
  {
    var s := System(State([], 0), bufs, got);
    if bufs != [] {
      OneTurn(bufs, got);
      AllArrive(bufs[1..], got + bufs[0]);
      ConcatFirst(got, bufs);
      hide Run, Step, Concat, Consistent;
      RunTwo(s, WriterRuns, ReaderRuns(CAPACITY, true), Turns(|bufs| - 1));
    } else {
      assert got + Concat(bufs) == got;
    }
  }

  lemma ConcatFirst(got: seq<byte>, bufs: seq<seq<byte>>)
    requires bufs != []
    ensures (got + bufs[0]) + Concat(bufs[1..]) == got + Concat(bufs)
  {
  }

  // ---- when a blocking write comes to an end

  /**
   * A call completes exactly if nothing of the buffer went in before and all
   * of it fits now: a retry never gets past the larger of what was written
   * and what then was missing.
   */
  lemma WriteCompletes(p: State, buf: seq<byte>)
    requires p.Valid() && p.wOff <= |buf| && buf != []
    requires p.wOff < |buf|
    ensures Write(p, buf, true).1.Done? <==> p.wOff == 0 && |buf| <= CAPACITY - |p.queue|
  {
  }

  /** So once a blocking write has gone in partly, no run of reads and retries ever completes it. */
  lemma {:induction false} PartialWriteNeverCompletes(s: System, events: seq<Event>)
    requires Consistent(s) && s.todo != [] && 0 < s.pipe.wOff < |s.todo[0]|
    ensures var t := Run(s, events);
      t.todo == s.todo && s.pipe.wOff <= t.pipe.wOff < |s.todo[0]|
    decreases |events|
  {
    if events != [] {
      StepConsistent(s, events[0]);
      if events[0] == WriterRuns { WriteCompletes(s.pipe, s.todo[0]); }
      PartialWriteNeverCompletes(Step(s, events[0]), events[1..]);
    }
  }

  // ---- pipe_read and pipe_write on the circular buffer

  /** struct pipe_priv; tasks are known by number, 0 standing for NULL. */
  class PipePriv {
    const cb: CirBuf
    var wOff: nat
    var taskR: int
    var taskW: int

    ghost predicate Valid()
      reads this, cb
    {
      cb.Valid() && cb.buf.Length == BUFSIZE
    }

    ghost function View(): State
      requires Valid()
      reads this, cb, cb.buf
    {
      State(cb.Contents(), wOff)
    }

    /** The part of sys_pipe2_hdlr that fills in the structure. */
    constructor ()
      ensures Valid() && View() == State([], 0) && fresh(cb) && fresh(cb.buf)
    {
      cb := new CirBuf(BUFSIZE);
      wOff, taskR, taskW := 0, 0, 0;
    }

    /** pipe_read through the reading end, by the running task. */
    method PipeRead(len: nat, blocking: bool, thisTask: int) returns (ret: Result, buf: seq<byte>)
      requires Valid()
      modifies this, cb
      ensures Valid() && (View(), ret, buf) == Read(old(View()), len, blocking)
      ensures ret == Again ==> taskR == thisTask
      ensures ret.Done? ==> taskR == 0
    {
      hide CirBuf.Contents, CirBuf.BytesInUse;
      ghost var q := cb.Contents();
      buf := [];
      if cb.BytesInUse() <= 0 {
        if blocking {
          taskR := thisTask;
          return Again, [];
        }
        return WouldBlock, [];
      }
      var out := 0;
      while out < len
        invariant Valid() && wOff == old(wOff) && out == |buf| <= len
        invariant buf + cb.Contents() == q
      {
        var r, b := cb.ReadByte();
        if r != 0 { break; }
        buf := buf + [b];
        out := out + 1;
      }
      taskR := 0;
      assert buf == q[..out] && cb.Contents() == q[out..];
      ret := Done(out);
    }

    /** pipe_write through the writing end, by the running task. */
    method PipeWrite(buf: seq<byte>, blocking: bool, thisTask: int) returns (ret: Result)
      requires Valid() && wOff <= |buf|
      modifies this, cb, cb.buf
      ensures Valid() && (View(), ret) == Write(old(View()), buf, blocking)
      ensures ret == Again ==> taskW == thisTask
      ensures ret.Done? ==> taskW == 0
    {
      hide CirBuf.Contents, CirBuf.BytesFree;
      ghost var p := View();
      ghost var upTo := WriteUpTo(p, |buf|);
      var out := wOff;
      var lenAvailable := cb.BytesFree();
      if lenAvailable > |buf| - out {
        lenAvailable := |buf| - out;
      }
      while out < lenAvailable
        invariant Valid() && wOff == p.wOff <= out <= upTo
        invariant lenAvailable > p.wOff ==> upTo == lenAvailable
        invariant lenAvailable <= p.wOff ==> upTo == p.wOff
        invariant cb.Contents() == p.queue + buf[p.wOff..out]
        decreases lenAvailable - out
      {
        var r := cb.WriteByte(buf[out]);
        assert r == 0;
        assert buf[p.wOff..out + 1] == buf[p.wOff..out] + [buf[out]];
        out := out + 1;
      }
      if out < |buf| {
        if blocking {
          taskW := thisTask;
          wOff := out;
          return Again;
        } else if out == 0 {
          return WouldBlock;
        }
      }
      wOff := 0;
      taskW := 0;
      ret := Done(out);
    }
  }
}
