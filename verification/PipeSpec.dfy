/**
  Pipes (kernel/pipe.c): eight ring buffers of 256 bytes with blocking reads over the scheduler.  Checking a pipe and
  blocking on it is one step, and so is every call.
  Two theorems hold over every interleaving: the bytes delivered and the bytes still buffered are exactly the bytes
  accepted, in order; and no reader sleeps on a pipe that has data or is closed.
 */
module PipeSpec {
  import opened Bytes
  import S = Scheduler

  const CAP: nat := 256
  const PIPES: nat := 8

  datatype Pipe = Pipe(buf: seq<byte>, head: nat, tail: nat, count: nat, open: bool)

  // ---------------------------------------------------------------- one ring

  function Wrap(i: nat): (k: nat)
    ensures k < CAP && (i < CAP ==> k == i) && (CAP <= i < 2 * CAP ==> k == i - CAP)
  {
    i % CAP
  }

  predicate PipeOk(p: Pipe) {
    |p.buf| == CAP && p.head < CAP && p.count <= CAP && p.tail == Wrap(p.head + p.count)
  }

  /** The bytes in the ring, oldest first. */
  function Contents(p: Pipe): (s: seq<byte>)
    requires PipeOk(p)
    ensures |s| == p.count
  {
    seq(p.count, i requires 0 <= i < p.count => p.buf[Wrap(p.head + i)])
  }

  const CLEARED: Pipe := Pipe(Zeros(CAP), 0, 0, 0, false)

  /** One round of the loop of pipe_write. */
  function Put(p: Pipe, b: byte): (r: Pipe)
    requires PipeOk(p) && p.count < CAP
    ensures PipeOk(r) && r.open == p.open
  {
    p.(buf := p.buf[p.tail := b], tail := Wrap(p.tail + 1), count := p.count + 1)
  }

  /** The loop of pipe_write and the number of bytes it took. */
  function PutAll(p: Pipe, data: seq<byte>): (r: (Pipe, nat))
    requires PipeOk(p)
    ensures PipeOk(r.0) && r.0.open == p.open
    decreases |data|
  {
    if data == [] || p.count == CAP then (p, 0)
    else
      var (q, n) := PutAll(Put(p, data[0]), data[1..]);
      (q, n + 1)
  }

  /** One round of the loop of pipe_read. */
  function Get(p: Pipe): (r: (Pipe, byte))
    requires PipeOk(p) && p.count > 0
    ensures PipeOk(r.0) && r.0.open == p.open && r.0.count == p.count - 1
  {
    (p.(head := Wrap(p.head + 1), count := p.count - 1), p.buf[p.head])
  }

  /** The loop of pipe_read for n bytes. */
  function GetAll(p: Pipe, n: nat): (r: (Pipe, seq<byte>))
    requires PipeOk(p) && n <= p.count
    ensures PipeOk(r.0) && r.0.open == p.open && r.0.count == p.count - n
    decreases n
  {
    if n == 0 then (p, [])
    else
      var (q, b) := Get(p);
      var (q', bs) := GetAll(q, n - 1);
      (q', [b] + bs)
  }

  function Min(a: nat, b: nat): nat {
    if a < b then a else b
  }

  lemma PutAppends(p: Pipe, b: byte)
    requires PipeOk(p) && p.count < CAP
    ensures Contents(Put(p, b)) == Contents(p) + [b] && Put(p, b).count == p.count + 1 <= CAP
  {
    hide Wrap;
    var q := Put(p, b);
    forall i | 0 <= i < p.count
      ensures Contents(q)[i] == Contents(p)[i]
    {
      assert Wrap(p.head + i) != p.tail;
    }
    assert Contents(q)[p.count] == b;
  }

  lemma GetTakesFirst(p: Pipe)
    requires PipeOk(p) && p.count > 0
    ensures Get(p).1 == Contents(p)[0] && Contents(Get(p).0) == Contents(p)[1..]
  {
    hide Wrap;
    var q := Get(p).0;
    assert Wrap(p.head + 0) == p.head;
    forall i | 0 <= i < q.count
      ensures Contents(q)[i] == Contents(p)[i + 1]
    {
      assert Wrap(q.head + i) == Wrap(p.head + (i + 1));
    }
  }

  lemma FullOrDone(p: Pipe)
    requires PipeOk(p)
    ensures p.count <= CAP
  {
  }

  /** pipe_write appends as much as fits, in order, however often the ring wraps. */
  lemma {:induction false} PutAllAppends(p: Pipe, data: seq<byte>)
    requires PipeOk(p)
    ensures PutAll(p, data).1 == Min(|data|, CAP - p.count)
    ensures Contents(PutAll(p, data).0) == Contents(p) + data[..PutAll(p, data).1]
    decreases |data|
  {
    hide Put, Contents, PipeOk;
    FullOrDone(p);
    if data != [] && p.count < CAP {
      PutAppends(p, data[0]);
      var q, rest := Put(p, data[0]), data[1..];
      PutAllAppends(q, rest);
      var n := PutAll(q, rest).1;
      assert [data[0]] + rest[..n] == data[..n + 1];
    }
  }

  /** pipe_read takes the oldest bytes, in order. */
  lemma {:induction false} GetAllTakes(p: Pipe, n: nat)
    requires PipeOk(p) && n <= p.count
    ensures GetAll(p, n).1 == Contents(p)[..n] && Contents(GetAll(p, n).0) == Contents(p)[n..]
    decreases n
  {
    if n > 0 {
      GetTakesFirst(p);
      GetAllTakes(Get(p).0, n - 1);
      assert [Contents(p)[0]] + Contents(p)[1..][..n - 1] == Contents(p)[..n];
      assert Contents(p)[1..][n - 1..] == Contents(p)[n..];
    }
  }

  // ---------------------------------------------------------------- the pipes, the processes, the readers

  /** Whether a process is inside pipe_read, and for what. */
  datatype Reader = Outside | Inside(id: nat, len: nat)

  datatype Sys = Sys(pipes: seq<Pipe>, procs: S.Sched, readers: seq<Reader>)

  /** What a call answers; Waits when the caller was put to sleep instead. */
  datatype Answer = Number(n: int) | Data(bytes: seq<byte>) | Waits

  /** The first slot at or after i that is not open, or PIPES. */
  function FirstClosed(ps: seq<Pipe>, i: nat): (k: nat)
    requires i <= |ps|
    ensures i <= k <= |ps| && (k < |ps| ==> !ps[k].open) && forall j :: i <= j < k ==> ps[j].open
    decreases |ps| - i
  {
    if i == |ps| || !ps[i].open then i else FirstClosed(ps, i + 1)
  }

  predicate Usable(ps: seq<Pipe>, id: int) {
    0 <= id < |ps| && ps[id].open
  }

  predicate Shape(s: Sys) {
    && |s.pipes| == PIPES && |s.readers| == S.MAX && S.Shape(s.procs)
    && (forall i :: 0 <= i < PIPES ==> PipeOk(s.pipes[i]))
    && (forall i :: 0 <= i < S.MAX && s.readers[i].Inside? ==> s.readers[i].id < PIPES)
  }

  function Alloc(s: Sys): (Sys, Answer)
    requires Shape(s)
  {
    var k := FirstClosed(s.pipes, 0);
    if k == PIPES then (s, Number(-1))
    else (s.(pipes := s.pipes[k := CLEARED.(open := true)]), Number(k))
  }

  function Write(s: Sys, id: int, data: seq<byte>): (Sys, Answer)
    requires Shape(s)
  {
    if !Usable(s.pipes, id) then (s, Number(-1))
    else
      var (p, n) := PutAll(s.pipes[id], data);
      (s.(pipes := s.pipes[id := p], procs := if n > 0 then S.WakeBlocked(s.procs) else s.procs), Number(n))
  }

  /** The caller, if it is a process, is now at r. */
  function Mark(s: Sys, r: Reader): Sys
    requires Shape(s)
  {
    if s.procs.cur < 0 then s else s.(readers := s.readers[s.procs.cur := r])
  }

  /** The loop of pipe_read from its test on, and the copy after it. */
  function TryRead(s: Sys, id: nat, len: nat): (Sys, Answer)
    requires Shape(s) && id < PIPES
  {
    var p := s.pipes[id];
    if p.count == 0 then
      if !p.open || s.procs.cur < 0 then (Mark(s, Outside), Number(-1))
      else (Mark(s, Inside(id, len)).(procs := S.Step(s.procs, S.Block)), Waits)
    else
      var (q, bs) := GetAll(p, Min(len, p.count));
      (Mark(s, Outside).(pipes := s.pipes[id := q]), Data(bs))
  }

  function Read(s: Sys, id: int, len: nat): (Sys, Answer)
    requires Shape(s)
  {
    if !Usable(s.pipes, id) then (s, Number(-1)) else TryRead(s, id, len)
  }

  function Close(s: Sys, id: int): (Sys, Answer)
    requires Shape(s)
  {
    if !(0 <= id < PIPES) then (s, Number(0))
    else (s.(pipes := s.pipes[id := s.pipes[id].(open := false)], procs := S.WakeBlocked(s.procs)), Number(0))
  }

  // ---------------------------------------------------------------- events

  datatype Event =
    | DoAlloc | DoWrite(id: int, data: seq<byte>) | DoRead(id: int, len: nat) | DoClose(id: int)
    /** The current process, woken inside pipe_read, looks again. */
    | Resume
    | Proc(e: S.Event)

  predicate Busy(s: Sys)
    requires Shape(s)
  {
    s.procs.cur >= 0 && s.readers[s.procs.cur].Inside?
  }

  /** A process inside pipe_read does nothing but go on with it; interrupts may still preempt it or wake others. */
  predicate Enabled(s: Sys, e: Event)
    requires Shape(s)
  {
    match e
    case Resume => Busy(s)
    case Proc(x) => Busy(s) ==> x.Yield? || x.WakeAll? || x.Wake?
    case _ => !Busy(s)
  }

  function Step(s: Sys, e: Event): (Sys, Answer)
    requires Shape(s) && Enabled(s, e)
  {
    match e
    case DoAlloc => Alloc(s)
    case DoWrite(id, data) => Write(s, id, data)
    case DoRead(id, len) => Read(s, id, len)
    case DoClose(id) => Close(s, id)
    case Resume => TryRead(s, s.readers[s.procs.cur].id, s.readers[s.procs.cur].len)
    case Proc(x) => (s.(procs := S.Step(s.procs, x)), Number(0))
  }

  // ---------------------------------------------------------------- the invariant

  /** A process asleep in pipe_read waits for an open, empty pipe. */
  ghost predicate SleepsRightly(s: Sys, i: nat)
    requires Shape(s) && i < S.MAX
  {
    s.readers[i].Inside? && s.procs.table[i].status == S.Blocked ==>
      s.pipes[s.readers[i].id].open && s.pipes[s.readers[i].id].count == 0
  }

  ghost predicate Inv(s: Sys) {
    && Shape(s) && S.TableOk(s.procs) && s.procs.nextPid > 0
    && (forall i :: 0 <= i < S.MAX ==> SleepsRightly(s, i))
    && (forall i :: s.procs.nextPid <= i < S.MAX ==> s.readers[i] == Outside)
  }

  /** pipe_init and process_init. */
  function Initial(): Sys {
    Sys(seq(PIPES, i => CLEARED), S.Initial(), seq(S.MAX, i => Outside))
  }

  lemma InitialInv()
    ensures Inv(Initial())
  {
    S.InitialOk();
    hide S.Initial, S.TableOk;
  }

  lemma AllocKeeps(s: Sys)
    requires Inv(s)
    ensures Inv(Alloc(s).0)
  {
    hide S.TableOk;
    var s' := Alloc(s).0;
    forall i | 0 <= i < S.MAX
      ensures SleepsRightly(s', i)
    {
      assert SleepsRightly(s, i);
    }
  }

  lemma WriteKeeps(s: Sys, id: int, data: seq<byte>)
    requires Inv(s)
    ensures Inv(Write(s, id, data).0)
  {
    hide PutAll, Contents;
    var s' := Write(s, id, data).0;
    if Usable(s.pipes, id) {
      PutAllAppends(s.pipes[id], data);
      forall i | 0 <= i < S.MAX
        ensures SleepsRightly(s', i)
      {
        assert SleepsRightly(s, i);
      }
    }
  }

  lemma CloseKeeps(s: Sys, id: int)
    requires Inv(s)
    ensures Inv(Close(s, id).0)
    ensures 0 <= id < PIPES ==> forall i :: 0 <= i < S.MAX ==> Close(s, id).0.procs.table[i].status != S.Blocked
  {
    var s' := Close(s, id).0;
  }

  /** Events of the scheduler alone: nobody who is inside pipe_read falls asleep by them. */
  lemma ProcKeeps(s: Sys, e: S.Event)
    requires Inv(s) && Enabled(s, Proc(e))
    ensures Inv(Step(s, Proc(e)).0)
  {
    hide S.Step;
    S.EventKeepsTable(s.procs, e);
    S.BlocksOnlySelf(s.procs, e);
    var s' := Step(s, Proc(e)).0;
    forall i | 0 <= i < S.MAX
      ensures SleepsRightly(s', i)
    {
      assert SleepsRightly(s, i);
    }
  }

  /** A reader that finds nothing goes to sleep on an open, empty pipe. */
  lemma SleepKeeps(s: Sys, id: nat, len: nat)
    requires Inv(s) && id < PIPES && s.procs.cur >= 0 && s.pipes[id].count == 0 && s.pipes[id].open
    ensures Inv(TryRead(s, id, len).0)
  {
    hide S.Step;
    S.EventKeepsTable(s.procs, S.Block);
    S.BlocksOnlySelf(s.procs, S.Block);
    var s' := TryRead(s, id, len).0;
    forall i | 0 <= i < S.MAX
      ensures SleepsRightly(s', i)
    {
      assert SleepsRightly(s, i);
    }
  }

  lemma TakeKeeps(s: Sys, id: nat, len: nat)
    requires Inv(s) && id < PIPES && s.pipes[id].count > 0
    ensures Inv(TryRead(s, id, len).0)
  {
    hide GetAll, Contents;
    var p := s.pipes[id];
    var n := Min(len, p.count);
    GetAllTakes(p, n);
    var s' := TryRead(s, id, len).0;
    forall i | 0 <= i < S.MAX
      ensures SleepsRightly(s', i)
    {
      assert SleepsRightly(s, i);
    }
  }

  lemma TryReadKeeps(s: Sys, id: nat, len: nat)
    requires Inv(s) && id < PIPES
    ensures Inv(TryRead(s, id, len).0)
  {
    if s.pipes[id].count > 0 {
      TakeKeeps(s, id, len);
    } else if s.pipes[id].open && s.procs.cur >= 0 {
      SleepKeeps(s, id, len);
    } else {
      var s' := TryRead(s, id, len).0;
      assert forall i :: 0 <= i < S.MAX ==> SleepsRightly(s, i) ==> SleepsRightly(s', i);
    }
  }

  /** Every step of every process keeps the streams conserved and no reader asleep past its wake-up. */
  lemma StepKeeps(s: Sys, e: Event)
    requires Inv(s) && Enabled(s, e)
    ensures Inv(Step(s, e).0)
  {
    assert Shape(s);
    hide Inv, Alloc, Write, Close, TryRead, S.Step;
    match e
    case DoAlloc => AllocKeeps(s);
    case DoWrite(id, data) => WriteKeeps(s, id, data);
    case DoRead(id, len) =>
      if Usable(s.pipes, id) {
        TryReadKeeps(s, id, len);
      }
    case DoClose(id) => CloseKeeps(s, id);
    case Resume => TryReadKeeps(s, s.readers[s.procs.cur].id, s.readers[s.procs.cur].len);
    case Proc(x) => ProcKeeps(s, x);
  }

  // ---------------------------------------------------------------- runs

  ghost predicate RunOk(s: Sys, es: seq<Event>)
    requires Inv(s)
    decreases |es|
  {
    es == [] || (Enabled(s, es[0]) && (StepKeeps(s, es[0]); RunOk(Step(s, es[0]).0, es[1..])))
  }

  ghost function Run(s: Sys, es: seq<Event>): (r: Sys)
    requires Inv(s) && RunOk(s, es)
    ensures Inv(r)
    decreases |es|
  {
    if es == [] then s
    else
      StepKeeps(s, es[0]);
      Run(Step(s, es[0]).0, es[1..])
  }

  // ---------------------------------------------------------------- conservation

  /** The event makes id a new pipe. */
  predicate Reopens(s: Sys, e: Event, id: nat)
    requires Shape(s)
  {
    e == DoAlloc && FirstClosed(s.pipes, 0) == id
  }

  /** The bytes an event takes into pipe id: those its answer says were written. */
  function SentBy(s: Sys, e: Event, id: nat): seq<byte>
    requires Shape(s) && Enabled(s, e)
  {
    if e.DoWrite? && e.id == id && 0 <= Step(s, e).1.n <= |e.data| then e.data[..Step(s, e).1.n] else []
  }

  /** The bytes an event hands out of pipe id. */
  function ReceivedBy(s: Sys, e: Event, id: nat): seq<byte>
    requires Shape(s) && Enabled(s, e)
  {
    var from := if e.DoRead? then e.id else if e.Resume? then s.readers[s.procs.cur].id else -1;
    if from == id && Step(s, e).1.Data? then Step(s, e).1.bytes else []
  }

  lemma WriteConserves(s: Sys, e: Event, id: nat)
    requires Inv(s) && Enabled(s, e) && id < PIPES && e.DoWrite?
    ensures PipeOk(Step(s, e).0.pipes[id])
    ensures Contents(s.pipes[id]) + SentBy(s, e, id) == Contents(Step(s, e).0.pipes[id])
  {
    hide PutAll, Contents;
    if Usable(s.pipes, e.id) {
      PutAllAppends(s.pipes[e.id], e.data);
    }
  }

  lemma TryReadConserves(s: Sys, from: nat, len: nat, id: nat)
    requires Inv(s) && id < PIPES && from < PIPES
    ensures var (s', a) := TryRead(s, from, len);
            && PipeOk(s'.pipes[id])
            && Contents(s.pipes[id]) == (if from == id && a.Data? then a.bytes else []) + Contents(s'.pipes[id])
  {
    hide GetAll, Contents, S.Step;
    var p := s.pipes[from];
    if p.count > 0 {
      GetAllTakes(p, Min(len, p.count));
    }
  }

  /** One step: what was buffered and what came in is what went out and what is buffered, in that order. */
  lemma StepConserves(s: Sys, e: Event, id: nat)
    requires Inv(s) && Enabled(s, e) && id < PIPES && !Reopens(s, e, id)
    ensures PipeOk(Step(s, e).0.pipes[id])
    ensures Contents(s.pipes[id]) + SentBy(s, e, id) == ReceivedBy(s, e, id) + Contents(Step(s, e).0.pipes[id])
  {
    hide Write, TryRead, S.Step;
    match e
    case DoWrite(_, _) => WriteConserves(s, e, id);
    case DoRead(from, len) =>
      if Usable(s.pipes, from) {
        TryReadConserves(s, from, len, id);
      }
    case Resume => TryReadConserves(s, s.readers[s.procs.cur].id, s.readers[s.procs.cur].len, id);
    case DoClose(c) => assert c == id ==> Contents(s.pipes[id].(open := false)) == Contents(s.pipes[id]);
    case DoAlloc =>
    case Proc(_) =>
  }

  ghost function Sent(s: Sys, es: seq<Event>, id: nat): seq<byte>
    requires Inv(s) && RunOk(s, es)
    decreases |es|
  {
    if es == [] then []
    else
      StepKeeps(s, es[0]);
      SentBy(s, es[0], id) + Sent(Step(s, es[0]).0, es[1..], id)
  }

  ghost function Received(s: Sys, es: seq<Event>, id: nat): seq<byte>
    requires Inv(s) && RunOk(s, es)
    decreases |es|
  {
    if es == [] then []
    else
      StepKeeps(s, es[0]);
      ReceivedBy(s, es[0], id) + Received(Step(s, es[0]).0, es[1..], id)
  }

  ghost predicate NeverReopened(s: Sys, es: seq<Event>, id: nat)
    requires Inv(s) && RunOk(s, es)
    decreases |es|
  {
    es == [] || (!Reopens(s, es[0], id) && (StepKeeps(s, es[0]); NeverReopened(Step(s, es[0]).0, es[1..], id)))
  }

  /** Conservation over any run of any readers and writers, between two allocations of the slot. */
  lemma {:induction false} RunConserves(s: Sys, es: seq<Event>, id: nat)
    requires Inv(s) && RunOk(s, es) && id < PIPES && NeverReopened(s, es, id)
    ensures Contents(s.pipes[id]) + Sent(s, es, id) == Received(s, es, id) + Contents(Run(s, es).pipes[id])
    decreases |es|
  {
    hide Step, Contents, SentBy, ReceivedBy, Reopens, Enabled;
    if es != [] {
      StepKeeps(s, es[0]);
      StepConserves(s, es[0], id);
      var s1, rest := Step(s, es[0]).0, es[1..];
      RunConserves(s1, rest, id);
      var c0, c1, c2 := Contents(s.pipes[id]), Contents(s1.pipes[id]), Contents(Run(s1, rest).pipes[id]);
      var i0, i1, o0, o1 := SentBy(s, es[0], id), Sent(s1, rest, id), ReceivedBy(s, es[0], id), Received(s1, rest, id);
      assert c0 + (i0 + i1) == (c0 + i0) + i1 == (o0 + c1) + i1 == o0 + (c1 + i1) == o0 + (o1 + c2) == (o0 + o1) + c2;
    }
  }

  /** Since its allocation: everything written is what was read followed by what is buffered. */
  lemma StreamSinceAlloc(s: Sys, es: seq<Event>, id: nat)
    requires Inv(s) && Enabled(s, DoAlloc) && Alloc(s).1 == Number(id)
    requires Inv(Alloc(s).0) && RunOk(Alloc(s).0, es) && id < PIPES && NeverReopened(Alloc(s).0, es, id)
    ensures Sent(Alloc(s).0, es, id) == Received(Alloc(s).0, es, id) + Contents(Run(Alloc(s).0, es).pipes[id])
  {
    hide RunOk, NeverReopened, Run, Sent, Received;
    RunConserves(Alloc(s).0, es, id);
    assert Contents(Alloc(s).0.pipes[id]) == [];
  }

  // ---------------------------------------------------------------- answers

  /** The pipe and the length of an event that reads. */
  ghost predicate ReadsFrom(s: Sys, e: Event, id: nat, len: nat)
    requires Shape(s) && Enabled(s, e)
  {
    || (e == DoRead(id, len) && id < PIPES && s.pipes[id].open)
    || (e == Resume && s.readers[s.procs.cur] == Inside(id, len))
  }

  /** A read is answered with the oldest bytes, no more than asked for and no more than there are. */
  lemma ReadAnswers(s: Sys, e: Event, id: nat, len: nat)
    requires Inv(s) && Enabled(s, e) && id < PIPES && ReadsFrom(s, e, id, len) && Contents(s.pipes[id]) != []
    ensures var c := Contents(s.pipes[id]);
            var m := if len < |c| then len else |c|;
            && Step(s, e).1 == Data(c[..m])
            && PipeOk(Step(s, e).0.pipes[id]) && Contents(Step(s, e).0.pipes[id]) == c[m..]
  {
    hide GetAll, Contents;
    GetAllTakes(s.pipes[id], Min(len, s.pipes[id].count));
  }

  /** A read of a slot that is not open, or of no slot, is answered with -1 and changes nothing. */
  lemma ReadRefused(s: Sys, id: int, len: nat)
    requires Inv(s) && Enabled(s, DoRead(id, len)) && !(0 <= id < 8 && s.pipes[id].open)
    ensures Step(s, DoRead(id, len)) == (s, Number(-1))
  {
  }

  /**
    A write into an open pipe is answered with the number of bytes that fit into 256, and then nobody sleeps if
    any did.
   */
  lemma WriteAnswers(s: Sys, id: int, data: seq<byte>)
    requires Inv(s) && Enabled(s, DoWrite(id, data))
    ensures var (s', a) := Step(s, DoWrite(id, data));
            if !(0 <= id < 8 && s.pipes[id].open) then s' == s && a == Number(-1)
            else
              var c := Contents(s.pipes[id]);
              var n := if |data| < 256 - |c| then |data| else 256 - |c|;
              && a == Number(n) && PipeOk(s'.pipes[id]) && Contents(s'.pipes[id]) == c + data[..n]
              && (n > 0 ==> forall i :: 0 <= i < S.MAX ==> s'.procs.table[i].status != S.Blocked)
  {
    hide PutAll, Contents;
    if Usable(s.pipes, id) {
      PutAllAppends(s.pipes[id], data);
    }
  }

  /**
    An allocation is answered with the first of the eight slots that is not open, which is then open and empty;
    else -1.
   */
  lemma AllocAnswers(s: Sys)
    requires Inv(s) && Enabled(s, DoAlloc)
    ensures var (s', a) := Step(s, DoAlloc);
            if forall i :: 0 <= i < 8 ==> s.pipes[i].open then s' == s && a == Number(-1)
            else
              && a.Number? && 0 <= a.n < 8 && !s.pipes[a.n].open && (forall i :: 0 <= i < a.n ==> s.pipes[i].open)
              && s'.pipes[a.n].open && PipeOk(s'.pipes[a.n]) && Contents(s'.pipes[a.n]) == []
  {
    var k := FirstClosed(s.pipes, 0);
    assert k < 8 ==> !s.pipes[k].open;
  }

  // ---------------------------------------------------------------- closing

  /** What the next look of a woken reader is answered with. */
  lemma ResumeFails(s: Sys)
    requires Inv(s) && Enabled(s, Resume)
    ensures var p := s.pipes[s.readers[s.procs.cur].id];
            && (Step(s, Resume).1 == Number(-1) <==> !p.open && p.count == 0)
            && (Step(s, Resume).1 == Waits <==> p.open && p.count == 0)
            && (Step(s, Resume).1.Data? <==> p.count > 0)
  {
  }

  ghost predicate Shut(s: Sys, id: nat)
    requires Shape(s) && id < PIPES
  {
    !s.pipes[id].open && s.pipes[id].count == 0
  }

  /** A closed, empty pipe stays so until it is allocated again: nothing goes in and nothing comes out. */
  lemma StaysShut(s: Sys, e: Event, id: nat)
    requires Inv(s) && Enabled(s, e) && id < PIPES && Shut(s, id) && !Reopens(s, e, id)
    ensures Inv(Step(s, e).0) && Shut(Step(s, e).0, id) && SentBy(s, e, id) == [] && ReceivedBy(s, e, id) == []
  {
    StepKeeps(s, e);
    hide Inv, S.Step, PutAll, GetAll;
  }

  /** Process r is current in no state of the run before the last. */
  ghost predicate Away(s: Sys, es: seq<Event>, r: nat)
    requires Inv(s) && RunOk(s, es)
    decreases |es|
  {
    es == [] || (s.procs.cur != r && (StepKeeps(s, es[0]); Away(Step(s, es[0]).0, es[1..], r)))
  }

  /** Closed or open, sent and received since the last allocation of the slot. */
  datatype Life = Life(closed: bool, sent: seq<byte>, received: seq<byte>)

  /** One event in the life of the slot: an allocation starts it anew. */
  function Lives(s: Sys, e: Event, id: nat, l: Life): Life
    requires Shape(s) && Enabled(s, e)
  {
    if Reopens(s, e, id) then Life(false, [], [])
    else Life(l.closed || e == DoClose(id), l.sent + SentBy(s, e, id), l.received + ReceivedBy(s, e, id))
  }

  /** The life of the slot at the end of a run. */
  ghost function LifeAfter(s: Sys, es: seq<Event>, id: nat, l: Life): Life
    requires Inv(s) && RunOk(s, es)
    decreases |es|
  {
    if es == [] then l
    else
      StepKeeps(s, es[0]);
      LifeAfter(Step(s, es[0]).0, es[1..], id, Lives(s, es[0], id, l))
  }

  /** What the life of a slot says about it. */
  ghost predicate LifeFits(s: Sys, id: nat, l: Life)
    requires Shape(s) && id < PIPES
  {
    (l.closed <==> !s.pipes[id].open) && l.sent == l.received + Contents(s.pipes[id])
  }

  /** Only pipe_close of the slot closes it, and only pipe_alloc opens it. */
  lemma OpenStays(s: Sys, e: Event, id: nat)
    requires Inv(s) && Enabled(s, e) && id < PIPES && |Step(s, e).0.pipes| == PIPES
    ensures Step(s, e).0.pipes[id].open <==> Reopens(s, e, id) || (s.pipes[id].open && e != DoClose(id))
  {
    hide S.Step, PutAll, GetAll;
  }

  lemma LivesOn(s: Sys, e: Event, id: nat, l: Life)
    requires Inv(s) && Enabled(s, e) && id < PIPES && LifeFits(s, id, l)
    ensures Inv(Step(s, e).0) && LifeFits(Step(s, e).0, id, Lives(s, e, id, l))
  {
    InvShape(s);
    hide Step, Inv, SentBy, ReceivedBy, Contents, Reopens, Enabled;
    StepKeeps(s, e);
    InvShape(Step(s, e).0);
    OpenStays(s, e, id);
    if Reopens(s, e, id) {
      ReopenedEmpty(s, e, id);
    } else {
      StepConserves(s, e, id);
      Regroup(l.received, Contents(s.pipes[id]), SentBy(s, e, id), ReceivedBy(s, e, id),
              Contents(Step(s, e).0.pipes[id]));
    }
  }

  lemma Regroup(r: seq<byte>, c: seq<byte>, i: seq<byte>, o: seq<byte>, c': seq<byte>)
    requires c + i == o + c'
    ensures (r + c) + i == (r + o) + c'
  {
    assert (r + c) + i == r + (c + i) && (r + o) + c' == r + (o + c');
  }

  lemma ReopenedEmpty(s: Sys, e: Event, id: nat)
    requires Inv(s) && Enabled(s, e) && id < PIPES && Reopens(s, e, id)
    ensures Shape(Step(s, e).0) && Contents(Step(s, e).0.pipes[id]) == []
  {
    AllocKeeps(s);
  }

  /** A reader who is not current stays where it is. */
  lemma ReaderStays(s: Sys, e: Event, r: nat)
    requires Inv(s) && Enabled(s, e) && r < S.MAX && r != s.procs.cur && Inv(Step(s, e).0)
    ensures Step(s, e).0.readers[r] == s.readers[r]
  {
    hide Inv, S.Step, PutAll, GetAll;
    InvShape(s);
  }

  lemma InvShape(s: Sys)
    requires Inv(s)
    ensures Shape(s)
  {
  }

  lemma {:induction false} LifeHolds(s: Sys, es: seq<Event>, id: nat, r: nat, l: Life)
    requires Inv(s) && RunOk(s, es) && id < PIPES && r < S.MAX && Away(s, es, r) && LifeFits(s, id, l)
    ensures LifeFits(Run(s, es), id, LifeAfter(s, es, id, l)) && Run(s, es).readers[r] == s.readers[r]
    decreases |es|
  {
    InvShape(s);
    hide Step, Inv, LifeFits, Lives;
    if es != [] {
      LivesOn(s, es[0], id, l);
      ReaderStays(s, es[0], r);
      LifeHolds(Step(s, es[0]).0, es[1..], id, r, Lives(s, es[0], id, l));
    }
  }

  /**
    A reader asleep on a pipe that is closed is woken.  When it runs again, after any run of the others, it is
    answered with -1 if and only if, since the last allocation of the slot in that run, or since this close when
    there is none, the slot has been closed and everything it accepted has been received.  Otherwise it sleeps on
    the new pipe or takes bytes meant for another reader.
   */
  lemma CloseAnswersReader(s: Sys, id: nat, r: nat, es: seq<Event>)
    requires Inv(s) && Enabled(s, DoClose(id)) && r < S.MAX
    requires s.readers[r].Inside? && s.readers[r].id == id && s.procs.table[r].status == S.Blocked
    requires Inv(Close(s, id).0) && RunOk(Close(s, id).0, es)
    requires Away(Close(s, id).0, es, r) && Run(Close(s, id).0, es).procs.cur == r
    ensures Close(s, id).0.procs.table[r].status == S.Ready
    ensures var t := Run(Close(s, id).0, es);
            var l := LifeAfter(Close(s, id).0, es, id, Life(true, [], []));
            && Enabled(t, Resume)
            && (Step(t, Resume).1 == Number(-1) <==> l.closed && l.sent == l.received)
            && (Step(t, Resume).1 == Waits <==> !l.closed && l.sent == l.received)
            && (Step(t, Resume).1.Data? <==> l.sent != l.received)
  {
    hide RunOk, Away, Run, LifeAfter, S.TableOk;
    assert SleepsRightly(s, r);
    var c := Close(s, id).0;
    assert Contents(c.pipes[id]) == [];
    LifeHolds(c, es, id, r, Life(true, [], []));
    var t, l := Run(c, es), LifeAfter(c, es, id, Life(true, [], []));
    ResumeFails(t);
    NothingLeft(l, Contents(t.pipes[id]));
  }

  lemma NothingLeft(l: Life, c: seq<byte>)
    requires l.sent == l.received + c
    ensures l.sent == l.received <==> c == []
  {
    if c == [] {
      assert l.received + c == l.received;
    } else {
      assert |l.sent| == |l.received| + |c|;
    }
  }

  /** Without a new allocation that condition holds: such a reader always gets -1. */
  lemma {:induction false} ShutUntilReopened(s: Sys, es: seq<Event>, id: nat, l: Life)
    requires Inv(s) && RunOk(s, es) && id < PIPES && Shut(s, id) && NeverReopened(s, es, id)
    requires l.closed && l.sent == l.received
    ensures LifeAfter(s, es, id, l).closed && LifeAfter(s, es, id, l).sent == LifeAfter(s, es, id, l).received
    decreases |es|
  {
    InvShape(s);
    hide Step, Inv, Shut, Reopens;
    if es != [] {
      StaysShut(s, es[0], id);
      ShutUntilReopened(Step(s, es[0]).0, es[1..], id, Lives(s, es[0], id, l));
    }
  }

  /** If the slot is allocated again first, the reader of the closed pipe goes to sleep on the new one instead. */
  lemma CloseThenAllocStrands(s: Sys, id: nat, r: nat)
    requires Inv(s) && Enabled(s, DoClose(id)) && id < PIPES && r < S.MAX && r != s.procs.cur
    requires s.readers[r].Inside? && s.readers[r].id == id && s.procs.table[r].status == S.Blocked
    requires forall j :: 0 <= j < id ==> s.pipes[j].open
    ensures var t := Alloc(Close(s, id).0).0;
            && Alloc(Close(s, id).0).1 == Number(id) && Inv(t)
            && (S.Switch(t.procs).cur == r ==>
                  && Enabled(t, Proc(S.Yield)) && Inv(Step(t, Proc(S.Yield)).0)
                  && Enabled(Step(t, Proc(S.Yield)).0, Resume) && Step(Step(t, Proc(S.Yield)).0, Resume).1 == Waits)
  {
    hide S.Switch, S.TableOk;
    CloseKeeps(s, id);
    AllocKeeps(Close(s, id).0);
    var ps := Close(s, id).0.pipes;
    assert !ps[id].open && FirstClosed(ps, 0) == id;
    var t := Alloc(Close(s, id).0).0;
    StepKeeps(t, Proc(S.Yield));
  }
}
