/** kernel/pipe.c as imperative code: rings filled and drained in place, over the process table. */
module Pipes {
  import opened Bytes
  import opened PipeSpec
  import opened Processes
  import S = Scheduler

  class Ring {
    const buf: array<byte>
    var head: nat
    var tail: nat
    var count: nat
    var open: bool

    ghost function View(): Pipe
      reads this, buf
    {
      Pipe(buf[..], head, tail, count, open)
    }

    ghost predicate Valid()
      reads this, buf
    {
      PipeOk(View())
    }

    constructor ()
      ensures Valid() && View() == CLEARED && fresh(buf)
    {
      buf := new byte[CAP](i => 0);
      head, tail, count, open := 0, 0, 0, false;
      new;
      assert buf[..] == Zeros(CAP);
    }

    /** The memset of pipe_alloc, and the mark that follows it. */
    method Reopen()
      requires Valid()
      modifies this, buf
      ensures Valid() && View() == CLEARED.(open := true)
    {
      for i := 0 to CAP
        invariant buf.Length == CAP && forall j :: 0 <= j < i ==> buf[j] == 0
      {
        buf[i] := 0;
      }
      assert buf[..] == Zeros(CAP);
      head, tail, count, open := 0, 0, 0, true;
    }

    /** The loop of pipe_write. */
    method Fill(data: seq<byte>) returns (written: nat)
      requires Valid()
      modifies this, buf
      ensures Valid() && (View(), written) == PutAll(old(View()), data)
    {
      hide Contents, Wrap, Put;
      written := 0;
      while written < |data| && count < CAP
        invariant Valid() && written <= |data|
        invariant PutAll(old(View()), data) ==
                  (PutAll(View(), data[written..]).0, PutAll(View(), data[written..]).1 + written)
      {
        var b := data[written];
        PutOne(b);
        assert data[written..][0] == b && data[written..][1..] == data[written + 1..];
        written := written + 1;
      }
    }

    /** One byte of it. */
    method PutOne(b: byte)
      requires Valid() && count < CAP
      modifies this, buf
      ensures Valid() && View() == Put(old(View()), b)
    {
      hide Wrap;
      buf[tail] := b;
      tail := WrapIndex(tail + 1);
      count := count + 1;
    }

    /** The loop of pipe_read. */
    method Drain(n: nat) returns (dst: seq<byte>)
      requires Valid() && n <= count
      modifies this
      ensures Valid() && (View(), dst) == GetAll(old(View()), n)
    {
      hide Contents, Wrap, GetAll, Get;
      dst := [];
      for i := 0 to n
        invariant Valid() && n - i <= count
        invariant GetAll(old(View()), n).0 == GetAll(View(), n - i).0
        invariant GetAll(old(View()), n).1 == dst + GetAll(View(), n - i).1
      {
        ghost var was := dst;
        GetAllFirst(View(), n - i);
        var b := GetOne();
        dst := dst + [b];
        ghost var later := GetAll(View(), n - i - 1).1;
        assert was + ([b] + later) == dst + later;
      }
      GetAllNone(View());
      assert dst + [] == dst;
    }

    method GetOne() returns (b: byte)
      requires Valid() && count > 0
      modifies this
      ensures Valid() && (View(), b) == Get(old(View()))
    {
      hide Wrap;
      b := buf[head];
      head := WrapIndex(head + 1);
      count := count - 1;
    }

    static method WrapIndex(i: nat) returns (k: nat)
      ensures k == Wrap(i)
    {
      k := i % CAP;
    }
  }

  /** One turn of the loop of pipe_read. */
  lemma GetAllFirst(p: Pipe, n: nat)
    requires PipeOk(p) && 0 < n <= p.count
    ensures GetAll(p, n) == (GetAll(Get(p).0, n - 1).0, [Get(p).1] + GetAll(Get(p).0, n - 1).1)
  {
    hide Get;
  }

  lemma GetAllNone(p: Pipe)
    requires PipeOk(p)
    ensures GetAll(p, 0) == (p, [])
  {
  }

  class PipeTable {
    const pipes: seq<Ring>
    const procs: ProcessTable
    /** Which processes are inside pipe_read: where they are in the code, not a field of `pipe_t`. */
    ghost var readers: seq<Reader>

    /** Eight rings, no two sharing memory. */
    ghost predicate Apart()
    {
      && |pipes| == PIPES
      && (forall i, j :: 0 <= i < j < PIPES ==> pipes[i] != pipes[j] && pipes[i].buf != pipes[j].buf)
    }

    ghost predicate Valid()
      reads this, procs, procs.table, set i | 0 <= i < |pipes| :: pipes[i], set i | 0 <= i < |pipes| :: pipes[i].buf
    {
      Apart() && procs.Valid() && Shape(View())
    }

    ghost function Rings(n: nat): (r: seq<Pipe>)
      reads this, set i | 0 <= i < |pipes| :: pipes[i], set i | 0 <= i < |pipes| :: pipes[i].buf
      requires n <= |pipes|
      ensures |r| == n && forall i :: 0 <= i < n ==> r[i] == pipes[i].View()
    {
      if n == 0 then [] else Rings(n - 1) + [pipes[n - 1].View()]
    }

    ghost function View(): Sys
      reads this, procs, procs.table, set i | 0 <= i < |pipes| :: pipes[i], set i | 0 <= i < |pipes| :: pipes[i].buf
    {
      Sys(Rings(|pipes|), procs.View(), readers)
    }

    /** pipe_init */
    constructor (procs: ProcessTable)
      requires procs.Valid()
      ensures Valid() && this.procs == procs
      ensures View() == Sys(seq(PIPES, i => CLEARED), procs.View(), seq(S.MAX, i => Outside))
    {
      var rings: seq<Ring> := [];
      while |rings| < PIPES
        invariant |rings| <= PIPES
        invariant forall i :: 0 <= i < |rings| ==> fresh(rings[i]) && fresh(rings[i].buf) && rings[i].View() == CLEARED
        invariant forall i, j :: 0 <= i < j < |rings| ==> rings[i] != rings[j] && rings[i].buf != rings[j].buf
      {
        var r := new Ring();
        rings := rings + [r];
      }
      this.pipes, this.procs, this.readers := rings, procs, seq(S.MAX, i => Outside);
    }

    /** pipe_alloc */
    method AllocPipe() returns (id: int)
      requires Valid()
      modifies set i | 0 <= i < |pipes| :: pipes[i], set i | 0 <= i < |pipes| :: pipes[i].buf
      ensures Valid() && (View(), Number(id)) == Alloc(old(View()))
    {
      hide CLEARED;
      ghost var s := View();
      for i := 0 to PIPES
        invariant View() == s && Valid()
        invariant FirstClosed(s.pipes, 0) == FirstClosed(s.pipes, i)
      {
        if !pipes[i].open {
          pipes[i].Reopen();
          assert View().pipes == s.pipes[i := CLEARED.(open := true)];
          return i;
        }
      }
      id := -1;
    }

    /** pipe_write */
    method WritePipe(id: int, data: seq<byte>) returns (n: int)
      requires Valid()
      modifies set i | 0 <= i < |pipes| :: pipes[i], set i | 0 <= i < |pipes| :: pipes[i].buf, procs.table
      ensures Valid() && (View(), Number(n)) == Write(old(View()), id, data)
    {
      hide PutAll, PipeOk, S.WakeBlocked;
      ghost var s := View();
      if id < 0 || id >= PIPES || !pipes[id].open {
        return -1;
      }
      n := pipes[id].Fill(data);
      assert View().pipes == s.pipes[id := PutAll(s.pipes[id], data).0];
      if n > 0 {
        procs.WakeAllBlocked();
        assert View().pipes == s.pipes[id := PutAll(s.pipes[id], data).0];
      }
    }

    /** pipe_close */
    method ClosePipe(id: int)
      requires Valid()
      modifies set i | 0 <= i < |pipes| :: pipes[i], procs.table
      ensures Valid() && View() == Close(old(View()), id).0
    {
      hide S.WakeBlocked;
      ghost var s := View();
      if id < 0 || id >= PIPES {
        return;
      }
      pipes[id].open := false;
      assert View().pipes == s.pipes[id := s.pipes[id].(open := false)];
      procs.WakeAllBlocked();
      assert View().pipes == s.pipes[id := s.pipes[id].(open := false)];
    }

    /** The caller is at r from now on. */
    ghost method Place(r: Reader)
      requires Valid() && (r.Inside? ==> r.id < PIPES)
      modifies this
      ensures Valid() && View() == Mark(old(View()), r)
    {
      if procs.cur >= 0 {
        readers := readers[procs.cur := r];
      }
      assert View().pipes == old(View()).pipes;
    }

    /** The copy of pipe_read out of one ring. */
    method TakeOut(id: nat, n: nat) returns (dst: seq<byte>)
      requires Valid() && id < PIPES && n <= pipes[id].count
      modifies pipes[id]
      ensures Valid() && PipeOk(old(View()).pipes[id])
      ensures var r := GetAll(old(View()).pipes[id], n);
              dst == r.1 && View() == old(View()).(pipes := old(View()).pipes[id := r.0])
    {
      hide GetAll, Contents;
      ghost var s := View();
      dst := pipes[id].Drain(n);
      assert View().pipes == s.pipes[id := GetAll(s.pipes[id], n).0];
    }

    /** pipe_read from its loop test to the block or to the end of the copy: one step of the process. */
    method TryReadPipe(id: nat, len: nat) returns (a: Answer)
      requires Valid() && id < PIPES
      modifies this, procs, procs.table, set i | 0 <= i < |pipes| :: pipes[i]
      ensures Valid()
      ensures (View(), a) == TryRead(old(View()), id, len)
      ensures a.Data? ==> |a.bytes| <= len && a.bytes <= Contents(old(View()).pipes[id])
    {
      hide GetAll, PipeOk, Contents, S.Step;
      ghost var s := View();
      if pipes[id].count == 0 {
        if !pipes[id].open || procs.cur < 0 {
          Place(Outside);
          return Number(-1);
        }
        Place(Inside(id, len));
        ghost var t := View();
        var next := procs.BlockCurrent();
        assert View().pipes == t.pipes;
        return Waits;
      }
      var toRead := if len < pipes[id].count then len else pipes[id].count;
      Place(Outside);
      GetAllTakes(s.pipes[id], toRead);
      var dst := TakeOut(id, toRead);
      a := Data(dst);
    }

    /** pipe_read up to its first block. */
    method ReadPipe(id: int, len: nat) returns (a: Answer)
      requires Valid()
      modifies this, procs, procs.table, set i | 0 <= i < |pipes| :: pipes[i]
      ensures Valid()
      ensures (View(), a) == Read(old(View()), id, len)
      ensures a.Data? ==> |a.bytes| <= len && 0 <= id < PIPES && a.bytes <= Contents(old(View()).pipes[id])
    {
      hide TryRead;
      if id < 0 || id >= PIPES || !pipes[id].open {
        return Number(-1);
      }
      a := TryReadPipe(id, len);
    }
  }
}
