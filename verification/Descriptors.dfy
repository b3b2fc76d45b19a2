/**
  The descriptor table above VesperFS (kernel/fd.c).  A run interleaves opens, reads and closes
  through any descriptors with writes and deletions of any files; whatever the interleaving,
  what one descriptor has delivered is a prefix of its file as it was when opened, as long
  as that file itself is not overwritten or deleted.
 */
module Descriptors {
  import opened Bytes
  import opened FsLayout
  import opened FsPlans
  import opened FsTheorems
  import opened FsRuns
  import opened FileSystem

  const FD_MAX: int := 16

  // ---------------------------------------------------------------- other files stay put

  /**
    A write or deletion, finished or not, leaves the entry and the bytes of every other file alone; and those of
    every file when it does not commit.
   */
  lemma StepKeepsOthers(d: Image, op: Op, i: nat)
    requires Inv(d) && OpOk(d, op) && i < 64 && Live(Dir(d)[i])
    requires FileName(Dir(d)[i]) != Target(op) || !Committed(d, op)
    ensures Inv(Step(d, op)) && Dir(Step(d, op))[i] == Dir(d)[i]
    ensures var e := Dir(d)[i]; Content(Step(d, op), e.start, e.size) == Content(d, e.start, e.size)
  {
    hide Dir, Step, FilesOf;
    var x, e := Step(d, op), Dir(d)[i];
    StepRefines(d, op);
    KeepsEntry(d, op, i);
    FilesAt(Dir(d), d, FileName(e), i);
    FilesAt(Dir(x), x, FileName(e), i);
  }

  lemma KeepsEntry(d: Image, op: Op, i: nat)
    requires Inv(d) && OpOk(d, op) && i < 64 && Live(Dir(d)[i])
    requires FileName(Dir(d)[i]) != Target(op) || !Committed(d, op)
    ensures Inv(Step(d, op)) && Dir(Step(d, op))[i] == Dir(d)[i]
  {
    hide DirOk, Dir, Slot, Lookup, WritePlan, DeletePlan, FilesOf, WriteCommit;
    StepRefines(d, op);
    if Accepts(d, op) {
      if op.Put? {
        WriteCrashAtomic(d, op.name, op.data, Progress(d, op));
        if Committed(d, op) {
          PutSlotIsOther(d, op.name, i);
        }
      } else {
        DeleteCrashAtomic(d, op.name, Progress(d, op));
      }
    }
  }

  lemma PutSlotIsOther(d: Image, name: seq<byte>, i: nat)
    requires Inv(d) && i < 64 && Live(Dir(d)[i]) && FileName(Dir(d)[i]) != Key(name)
    ensures Slot(d, name) != i
  {
    NameLength(Dir(d)[i]);
    ScanFinds(Dir(d), name, |Dir(d)|);
  }

  // ---------------------------------------------------------------- runs

  datatype Fd = Fd(used: bool, pid: nat, file: Handle)

  /** What an observer has seen through one descriptor since it was opened. */
  datatype View = View(name: seq<byte>, original: seq<byte>, got: seq<byte>, intact: bool)

  datatype State = State(disk: Image, table: seq<Fd>, views: seq<View>)

  /**
    cap bounds the bytes a read can deliver before the drive fails; readable says whether an open gets the
    directory.
   */
  datatype Event =
    | Open(name: seq<byte>, pid: nat, readable: bool)
    | Read(fd: int, pid: nat, len: nat, cap: nat)
    | Close(fd: int, pid: nat)
    | Change(op: Op)

  /** The first unused slot among the first n, or -1. */
  function FreeSlot(table: seq<Fd>, n: nat): (s: int)
    requires n <= |table|
    ensures -1 <= s < n && (s >= 0 ==> !table[s].used)
    ensures forall k :: 0 <= k < (if s < 0 then n else s) ==> table[k].used
  {
    if n == 0 then -1
    else
      var s := FreeSlot(table, n - 1);
      if s >= 0 then s else if !table[n - 1].used then n - 1 else -1
  }

  predicate Owns(table: seq<Fd>, fd: int, pid: nat) {
    0 <= fd < |table| && table[fd].used && table[fd].pid == pid
  }

  /** Bytes one read delivers: what is asked for, up to the end of the file and to the drive's failure. */
  function ReadCount(h: Handle, len: nat, cap: nat): (n: nat) {
    if !h.valid || h.pos >= h.size then 0
    else
      var want := if len > h.size - h.pos then h.size - h.pos else len;
      if cap < want then cap else want
  }

  ghost predicate HandleOk(h: Handle, sectors: int) {
    h.valid && h.pos <= h.size && h.start + SectorsOf(h.size) <= sectors
  }

  /** A live entry still gives that name that extent. */
  ghost predicate StillThere(dir: Directory, name: seq<byte>, start: word, size: word) {
    exists i :: 0 <= i < 64 && Matches(dir[i], name) && dir[i].start == start && dir[i].size == size
  }

  /** What a descriptor has delivered is the part of the file before its position. */
  ghost predicate ViewOk(d: Image, f: Fd, v: View)
    requires Inv(d)
  {
    f.used ==>
      && HandleOk(f.file, |d|)
      && |v.got| == f.file.pos
      && (v.intact ==>
            && StillThere(Dir(d), v.name, f.file.start, f.file.size)
            && Content(d, f.file.start, f.file.size) == v.original
            && v.got == v.original[..f.file.pos])
  }

  ghost predicate Good(s: State) {
    && Inv(s.disk) && |s.table| == |s.views| == FD_MAX
    && forall k :: 0 <= k < FD_MAX ==> ViewOk(s.disk, s.table[k], s.views[k])
  }

  ghost predicate EventOk(s: State, e: Event)
    requires Good(s)
  {
    e.Change? ==> OpOk(s.disk, e.op)
  }

  /** What a change does to an observer: it ends the claim only when it commits and hits the file. */
  ghost function Seen(d: Image, op: Op, v: View): View
    requires Inv(d) && OpOk(d, op)
  {
    v.(intact := v.intact && !(Committed(d, op) && v.name == Target(op)))
  }

  ghost function Next(s: State, e: Event): State
    requires Good(s) && EventOk(s, e)
  {
    match e
    case Open(name, pid, readable) =>
      var k := FreeSlot(s.table, |s.table|);
      if k < 0 || !readable || Lookup(Dir(s.disk), name) == 64 then s
      else
        var h := OpenedHandle(s.disk, name);
        OpenIsLookup(s.disk, name);
        s.(table := s.table[k := Fd(true, pid, h)],
           views := s.views[k := View(name, Content(s.disk, h.start, h.size), [], true)])
    case Read(fd, pid, len, cap) =>
      if !Owns(s.table, fd, pid) then s
      else
        var f, v := s.table[fd], s.views[fd];
        var n := ReadCount(f.file, len, cap);
        var bytes := Content(s.disk, f.file.start, f.file.size)[f.file.pos..f.file.pos + n];
        s.(table := s.table[fd := f.(file := f.file.(pos := f.file.pos + n))],
           views := s.views[fd := v.(got := v.got + bytes)])
    case Close(fd, pid) =>
      if !Owns(s.table, fd, pid) then s
      else s.(table := s.table[fd := Fd(false, 0, s.table[fd].file.(valid := false))])
    case Change(op) =>
      s.(disk := Step(s.disk, op),
         views := seq(|s.views|, k requires 0 <= k < |s.views| =>
                                   Seen(s.disk, op, s.views[k])))
  }

  lemma ChangeKeepsView(d: Image, op: Op, f: Fd, v: View)
    requires Inv(d) && OpOk(d, op) && ViewOk(d, f, v)
    ensures Inv(Step(d, op)) && ViewOk(Step(d, op), f, Seen(d, op, v))
  {
    StepRefines(d, op);
    if f.used && Seen(d, op, v).intact {
      var i :| 0 <= i < 64 && Matches(Dir(d)[i], v.name) &&
               Dir(d)[i].start == f.file.start && Dir(d)[i].size == f.file.size;
      StepKeepsOthers(d, op, i);
      assert Matches(Dir(Step(d, op))[i], v.name);
    }
  }

  lemma OpenMakesView(d: Image, name: seq<byte>, pid: nat)
    requires Inv(d) && Lookup(Dir(d), name) < 64
    ensures var h := OpenedHandle(d, name);
            && h.start + SectorsOf(h.size) <= |d|
            && ViewOk(d, Fd(true, pid, h), View(name, Content(d, h.start, h.size), [], true))
  {
    OpenIsLookup(d, name);
    assert Matches(Dir(d)[Lookup(Dir(d), name)], name);
  }

  lemma ReadKeepsView(d: Image, f: Fd, v: View, n: nat)
    requires Inv(d) && f.used && ViewOk(d, f, v) && f.file.pos + n <= f.file.size
    ensures var bytes := Content(d, f.file.start, f.file.size)[f.file.pos..f.file.pos + n];
            ViewOk(d, f.(file := f.file.(pos := f.file.pos + n)), v.(got := v.got + bytes))
  {
    if v.intact {
      assert v.original[..f.file.pos] + v.original[f.file.pos..f.file.pos + n] == v.original[..f.file.pos + n];
    }
  }

  /** Every event keeps every descriptor's stream a prefix of its file. */
  lemma NextKeeps(s: State, e: Event)
    requires Good(s) && EventOk(s, e)
    ensures Good(Next(s, e))
  {
    hide DirOk, Dir, Step, Content, StillThere, Lookup;
    var s' := Next(s, e);
    match e
    case Open(name, pid, readable) =>
      if Lookup(Dir(s.disk), name) < 64 {
        OpenMakesView(s.disk, name, pid);
      }
    case Read(fd, pid, len, cap) =>
      if Owns(s.table, fd, pid) {
        ReadKeepsView(s.disk, s.table[fd], s.views[fd], ReadCount(s.table[fd].file, len, cap));
      }
    case Close(fd, pid) =>
    case Change(op) =>
      StepRefines(s.disk, op);
      forall k | 0 <= k < FD_MAX
        ensures ViewOk(s'.disk, s'.table[k], s'.views[k])
      {
        ChangeKeepsView(s.disk, op, s.table[k], s.views[k]);
      }
  }

  /** Every change of the run meets its condition in the state it finds. */
  ghost predicate RunOk(s: State, es: seq<Event>)
    requires Good(s)
    decreases |es|
  {
    es == [] || (EventOk(s, es[0]) && (NextKeeps(s, es[0]); RunOk(Next(s, es[0]), es[1..])))
  }

  ghost function RunFd(s: State, es: seq<Event>): (r: State)
    requires Good(s) && RunOk(s, es)
    ensures Good(r)
    decreases |es|
  {
    if es == [] then s
    else
      NextKeeps(s, es[0]);
      RunFd(Next(s, es[0]), es[1..])
  }

  /** fd_init on a mounted disk: no descriptor is in use. */
  lemma InitialGood(d: Image, table: seq<Fd>, views: seq<View>)
    requires Inv(d) && |table| == |views| == FD_MAX && forall k :: 0 <= k < FD_MAX ==> !table[k].used
    ensures Good(State(d, table, views))
  {
  }

  /** Over any interleaving, an intact descriptor has delivered exactly the first pos bytes of its file as opened. */
  lemma StreamsAreIndependent(s: State, es: seq<Event>, k: nat)
    requires Good(s) && RunOk(s, es) && k < FD_MAX
    ensures var r := RunFd(s, es);
            r.table[k].used ==>
              && |r.views[k].got| == r.table[k].file.pos <= r.table[k].file.size
              && (r.views[k].intact ==> r.views[k].got == r.views[k].original[..r.table[k].file.pos]
                                        && Files(r.disk)[r.views[k].name] == r.views[k].original)
  {
    var r := RunFd(s, es);
    if r.table[k].used && r.views[k].intact {
      var f, v := r.table[k], r.views[k];
      assert ViewOk(r.disk, f, v);
      var i :| 0 <= i < 64 && Matches(Dir(r.disk)[i], v.name) &&
               Dir(r.disk)[i].start == f.file.start && Dir(r.disk)[i].size == f.file.size;
      FilesAt(Dir(r.disk), r.disk, v.name, i);
    }
  }

  /** A read or a close made in the name of that process. */
  predicate By(e: Event, pid: nat) {
    (e.Read? || e.Close?) && e.pid == pid
  }

  lemma NextLeavesAlone(s: State, e: Event, k: nat)
    requires Good(s) && EventOk(s, e) && k < 16 && s.table[k].used && !By(e, s.table[k].pid)
    ensures Next(s, e).table[k] == s.table[k] && |Next(s, e).views| == FD_MAX
    ensures Next(s, e).views[k].got == s.views[k].got
  {
    hide DirOk, Dir, Step, Content, Lookup, ViewOk, Committed;
  }

  /**
    A descriptor belongs to the process that opened it: whatever others open, read, close or write, it stays as it
    is.
   */
  lemma {:induction false} OthersLeaveAlone(s: State, es: seq<Event>, k: nat)
    requires Good(s) && RunOk(s, es) && k < 16 && s.table[k].used
    requires forall i :: 0 <= i < |es| ==> !By(es[i], s.table[k].pid)
    ensures RunFd(s, es).table[k] == s.table[k] && RunFd(s, es).views[k].got == s.views[k].got
    decreases |es|
  {
    hide Next, EventOk, ViewOk, Inv;
    if es != [] {
      NextKeeps(s, es[0]);
      NextLeavesAlone(s, es[0], k);
      OthersLeaveAlone(Next(s, es[0]), es[1..], k);
    }
  }

  // ---------------------------------------------------------------- the table itself

  class FdTable {
    const fs: FileSystem
    const files: seq<File>
    var used: seq<bool>
    var pids: seq<nat>

    /** fd_init: sixteen unused slots, each with its own handle. */
    constructor (f: FileSystem)
      ensures Valid() && fs == f && forall k :: 0 <= k < FD_MAX ==> !Table()[k].used
    {
      fs := f;
      var fresh': seq<File> := [];
      while |fresh'| < FD_MAX
        invariant |fresh'| <= FD_MAX && forall k :: 0 <= k < |fresh'| ==> fresh(fresh'[k])
        invariant forall j, k :: 0 <= j < k < |fresh'| ==> fresh'[j] != fresh'[k]
      {
        var h := new File();
        fresh' := fresh' + [h];
      }
      files := fresh';
      used := seq(FD_MAX, i => false);
      pids := seq(FD_MAX, i => 0);
    }

    ghost predicate Valid()
      reads this
    {
      && |files| == |used| == |pids| == FD_MAX
      && forall j, k :: 0 <= j < k < FD_MAX ==> files[j] != files[k]
    }

    ghost function Table(): (t: seq<Fd>)
      requires Valid()
      reads this, files
      ensures |t| == FD_MAX
    {
      seq(FD_MAX, k requires 0 <= k < FD_MAX && Valid() reads this, files => Fd(used[k], pids[k], files[k].Value()))
    }

    /** fd_open: the first unused slot, if there is one and the file can be opened. */
    method Open(name: seq<byte>, pid: nat) returns (fd: int)
      requires Valid() && fs.Valid() && Inv(fs.disk.image)
      modifies this, files, fs.dirBuf
      ensures Valid()
      ensures fd < 0 ==> fd == -1 && Table() == old(Table())
      ensures fd >= 0 ==>
        && fd == FreeSlot(old(Table()), FD_MAX) && Lookup(Dir(fs.disk.image), name) < 64
        && Table() == old(Table())[fd := Fd(true, pid, OpenedHandle(fs.disk.image, name))]
      ensures fs.disk.healthy ==>
        (fd >= 0 <==> FreeSlot(old(Table()), FD_MAX) >= 0 && Lookup(Dir(fs.disk.image), name) < 64)
    {
      var slot := -1;
      for i := 0 to FD_MAX
        invariant slot == FreeSlot(Table(), i)
      {
        if slot < 0 && !used[i] {
          slot := i;
        }
      }
      if slot < 0 {
        return -1;
      }
      var r := fs.Open(files[slot], name);
      if r != 0 {
        assert Table() == old(Table());
        return -1;
      }
      pids, used := pids[slot := pid], used[slot := true];
      fd := slot;
    }

    /** fd_read: -1 unless the descriptor is in use by that process; otherwise the bytes and the new position. */
    method Read(fd: int, len: word, pid: nat) returns (n: int, out: seq<byte>)
      requires Valid() && fs.Valid()
      requires |fs.disk.image| <= MAX_SECTORS && forall k :: 0 <= k < FD_MAX && Table()[k].file.valid ==>
        Table()[k].file.start + SectorsOf(Table()[k].file.size) <= |fs.disk.image|
      modifies files, fs.sectorBuf
      ensures !(0 <= fd < 16 && old(used)[fd] && old(pids)[fd] == pid) ==>
        n == -1 && out == [] && Table() == old(Table())
      ensures 0 <= fd < 16 && old(used)[fd] && old(pids)[fd] == pid ==>
        var h := old(Table())[fd].file;
        && |out| <= len && n == (if |out| < 0x8000_0000 then |out| else |out| - 0x1_0000_0000)
        && Table() == old(Table())[fd := Fd(true, pid, h.(pos := h.pos + |out|))]
        && (exists cap: nat :: |out| == ReadCount(h, len, cap))
        && (fs.disk.healthy ==> |out| == ReadCount(h, len, len))
        && (h.valid && h.pos < h.size ==> out == Content(fs.disk.image, h.start, h.size)[h.pos..h.pos + |out|])
    {
      out := [];
      if fd < 0 || fd >= FD_MAX {
        return -1, [];
      }
      if !used[fd] || pids[fd] != pid {
        return -1, [];
      }
      assert Table()[fd].file == files[fd].Value();
      out := fs.Read(files[fd], len);
      n := if |out| < 0x8000_0000 then |out| else |out| - WORD_LIMIT;
      assert |out| == ReadCount(old(Table())[fd].file, len, |out|);
    }

    /** fd_close: only the owner releases a descriptor. */
    method Close(fd: int, pid: nat)
      requires Valid()
      modifies this, files
      ensures Valid()
      ensures Table() == if 0 <= fd < 16 && old(used)[fd] && old(pids)[fd] == pid
                         then old(Table())[fd := Fd(false, 0, old(Table())[fd].file.(valid := false))]
                         else old(Table())
    {
      if fd < 0 || fd >= FD_MAX {
        return;
      }
      if !used[fd] || pids[fd] != pid {
        return;
      }
      files[fd].valid := false;
      used, pids := used[fd := false], pids[fd := 0];
    }
  }
}
