/**
  Memory isolation.  Starting, ending and killing programs goes through the same frames, tables and loader; none of it
  changes a byte of the user memory of a process that stays alive.
 */
module Isolation {
  import opened Bytes
  import opened Frames
  import opened PageTables
  import opened AddressSpace
  import opened Paging
  import opened ElfImage
  import opened Exec
  import opened FrameBudget
  import opened FrameLoss
  import opened IdentityMap
  import opened KernelReach
  import opened ProgramRuns
  import S = Scheduler

  /** A frame nobody owns is on no path from a directory to its user pages. */
  lemma UnownedFrame(s: Sys, s': Sys, f: nat, fr: Frame, e: nat, q: nat)
    requires Inv(s) && Is(s, e, Dir) && 2048 <= q < PAGES
    requires f < TOTAL && f !in s.owner && s'.mem == s.mem[f := fr]
    ensures PageAt(s', e, q) == PageAt(s, e, q)
  {
    hide Word, RoleOk;
    EntryLeads(s, e, q / 1024);
    if Pte(s, e, q).Some? {
      PteLeads(s, e, q);
    }
  }

  lemma NewDirIsolates(s: Sys, f: nat, e: nat, q: nat)
    requires Inv(s) && f in s.free && Is(s, e, Dir) && 2048 <= q < PAGES
    ensures Inv(NewDir(s, f)) && Is(NewDir(s, f), f, Dir) && Is(NewDir(s, f), e, Dir) && e != f
    ensures PageAt(NewDir(s, f), e, q) == PageAt(s, e, q)
  {
    NewDirIsReady(s, f);
    hide Word, RoleOk, SetWord, PageAt;
    UnownedFrame(s, NewDir(s, f), f, NewDir(s, f).mem[f], e, q);
  }

  lemma MapLowIsolates(s: Sys, virt: word, phys: word, flags: word, e: nat, q: nat)
    requires Inv(s) && Is(s, e, Dir) && 2048 <= q < PAGES
    ensures |MapKernel(s, virt, phys, flags).mem| == TOTAL
    ensures PageAt(MapKernel(s, virt, phys, flags), e, q) == PageAt(s, e, q)
  {
    hide Word, RoleOk, SetWord, PageAt;
    var s' := MapKernel(s, virt, phys, flags);
    var t := if virt < 0x40_0000 then s.k.pt0 else s.k.pt1;
    if virt < 0x80_0000 {
      UnownedFrame(s, s', t, s'.mem[t], e, q);
    }
  }

  /** Preparing a program shows in no other directory, whether or not it succeeds. */
  lemma PrepareIsolates(s: Sys, d: seq<byte>, e: nat, q: nat)
    requires Inv(s) && UserImage(d) && s.free != {} && Is(s, e, Dir) && 2048 <= q < PAGES
    ensures var l := Prepare(s, d);
            !l.NoMemory? && |l.mem.mem| == TOTAL && PageAt(l.mem, e, q) == PageAt(s, e, q)
  {
    hide NewDir, LoadUser, MapPages, SegsMapped, PageAt, RoleOk, Least, HeaderOk;
    var pd := Least(s.free);
    NewDirIsolates(s, pd, e, q);
    var s1 := NewDir(s, pd);
    LoadLeavesOthers(s1, pd, d, e, q);
    var (s2, entry) := LoadUser(s1, pd, d);
    if entry != 0 {
      MapPagesShow(s2, pd, PagesFrom(STACK_BASE, STACK_PAGES), e, q);
    }
  }

  lemma DestroyShows(s: Sys, pd: nat, e: nat, q: nat)
    requires |s.mem| == TOTAL && e < TOTAL && q < PAGES
    ensures Destroy(s, pd).mem == s.mem && PageAt(Destroy(s, pd), e, q) == PageAt(s, e, q)
  {
  }

  // ---------------------------------------------------------------- one event

  /** The directory of a slot in use is kept or given up, never exchanged; where it started stays. */
  ghost predicate KeepsOrDrops(k: Kern, k': Kern, i: nat)
    requires i < |k.procs.table| && i < |k'.procs.table|
  {
    && k.procs.nextPid <= k'.procs.nextPid
    && (k'.procs.table[i].pd == k.procs.table[i].pd || k'.procs.table[i].pd == 0)
    && k'.procs.table[i].eip == k.procs.table[i].eip && k'.procs.table[i].esp == k.procs.table[i].esp
  }

  lemma ExecDirs(k: Kern, d: seq<byte>, i: nat)
    requires Owned(k) && UserImage(d) && i < k.procs.nextPid
    ensures i < S.MAX && |ExecImage(k, d).procs.table| == |k.procs.table| == S.MAX
    ensures KeepsOrDrops(k, ExecImage(k, d), i)
  {
    hide Prepare, Inv, Destroy;
    var l := Prepare(k.mem, d);
    if l.Ready? {
      S.CreateKeeps(k.procs, Program(l.pd, l.entry));
    }
  }

  lemma BuryDirs(k: Kern, j: nat, i: nat)
    requires Owned(k) && j < S.MAX && i < k.procs.nextPid
    ensures i < S.MAX && |Bury(k, j).procs.table| == |k.procs.table| == S.MAX
    ensures KeepsOrDrops(k, Bury(k, j), i)
  {
    hide Inv, Destroy;
  }

  lemma ProcDirs(k: Kern, p: S.Event, i: nat)
    requires Owned(k) && i < k.procs.nextPid && Typed(Proc(p))
    ensures i < S.MAX && |S.Step(k.procs, p).table| == |k.procs.table| == S.MAX
    ensures KeepsOrDrops(k, k.(procs := S.Step(k.procs, p)), i)
  {
    hide Inv, S.Step;
    ProcMovesNothing(k.procs, p);
    S.EventKeepsTable(k.procs, p);
    S.StartsKept(k.procs, p);
  }

  lemma StepDirs(k: Kern, e: Event, i: nat)
    requires Owned(k) && Typed(e) && i < k.procs.nextPid
    ensures i < S.MAX && |Step(k, e).procs.table| == |k.procs.table| == S.MAX && KeepsOrDrops(k, Step(k, e), i)
  {
    SizeOf(k);
    assert k.procs.nextPid <= S.MAX && k.procs.cur < S.MAX;
    hide Owned, ExecImage, Bury, MapKernel, S.Step;
    match e
    case Exec(d) => ExecDirs(k, d, i);
    case Kill(pid) =>
      var j := S.FirstKillable(k.procs.table, pid, 0);
      if j < S.MAX {
        BuryDirs(k, j, i);
      }
    case Exit =>
      if k.procs.cur >= 0 {
        BuryDirs(k, k.procs.cur, i);
      }
    case MapLow(_, _, _) =>
    case Proc(p) => ProcDirs(k, p, i);
  }

  lemma OwnerDir(k: Kern, i: nat)
    requires Owned(k) && i < S.MAX && k.procs.table[i].pd != 0
    ensures Inv(k.mem) && Is(k.mem, IndexOf(k.procs.table[i].pd), Dir) && IndexOf(k.procs.table[i].pd) < TOTAL
    ensures i < k.procs.nextPid
  {
    hide RoleOk;
  }

  lemma ExecIsolates(k: Kern, d: seq<byte>, e: nat, q: nat)
    requires Owned(k) && UserImage(d) && Is(k.mem, e, Dir) && e < TOTAL && 2048 <= q < PAGES
    ensures |ExecImage(k, d).mem.mem| == |k.mem.mem| == TOTAL
    ensures PageAt(ExecImage(k, d).mem, e, q) == PageAt(k.mem, e, q)
  {
    hide Prepare, PageAt, RoleOk;
    if k.mem.free == {} {
      NothingFree(k.mem, d);
    } else {
      PrepareIsolates(k.mem, d, e, q);
      var l := Prepare(k.mem, d);
      DestroyShows(l.mem, l.pd, e, q);
    }
  }

  lemma BuryIsolates(k: Kern, j: nat, e: nat, q: nat)
    requires Owned(k) && j < S.MAX && e < TOTAL && q < PAGES
    ensures |Bury(k, j).mem.mem| == |k.mem.mem| == TOTAL && PageAt(Bury(k, j).mem, e, q) == PageAt(k.mem, e, q)
  {
    hide PageAt, RoleOk;
    DestroyShows(k.mem, IndexOf(k.procs.table[j].pd), e, q);
  }

  /** One event, seen from any directory that exists before it. */
  lemma StepShows(k: Kern, ev: Event, e: nat, q: nat)
    requires Owned(k) && Typed(ev) && Is(k.mem, e, Dir) && e < TOTAL && 2048 <= q < PAGES
    ensures |Step(k, ev).mem.mem| == |k.mem.mem| == TOTAL && PageAt(Step(k, ev).mem, e, q) == PageAt(k.mem, e, q)
  {
    hide PageAt, RoleOk, ExecImage, Bury, MapKernel, S.Step;
    match ev
    case Exec(d) => ExecIsolates(k, d, e, q);
    case Kill(pid) =>
      var j := S.FirstKillable(k.procs.table, pid, 0);
      if j < S.MAX {
        BuryIsolates(k, j, e, q);
      }
    case Exit =>
      if k.procs.cur >= 0 {
        BuryIsolates(k, k.procs.cur, e, q);
      }
    case MapLow(virt, phys, flags) => MapLowIsolates(k.mem, virt, phys, flags, e, q);
    case Proc(_) =>
  }

  // ---------------------------------------------------------------- runs

  /** What process i sees at user page q. */
  ghost function Sees(k: Kern, i: nat, q: nat): Option<Frame>
    requires Owned(k) && i < S.MAX && k.procs.table[i].pd != 0 && q < PAGES
  {
    OwnerDir(k, i);
    PageAt(k.mem, IndexOf(k.procs.table[i].pd), q)
  }

  /** One event that meets its condition leaves every user page of every process that keeps its directory as it was. */
  lemma StepIsolates(k: Kern, e: Event, i: nat, q: nat)
    requires Good(k) && EventOk(k, e) && Good(Step(k, e)) && i < k.procs.nextPid && i < S.MAX && 2048 <= q < PAGES
    requires Step(k, e).procs.table[i].pd != 0
    ensures k.procs.table[i].pd == Step(k, e).procs.table[i].pd && Sees(Step(k, e), i, q) == Sees(k, i, q)
  {
    hide Owned, Step, PageAt, Reaches, EventOk;
    EventTyped(k, e);
    StepDirs(k, e, i);
    OwnerDir(k, i);
    StepShows(k, e, IndexOf(k.procs.table[i].pd), q);
  }

  /**
    Isolation: a process that still has its directory after any run of program starts, kills, exits, kernel mappings and
    scheduler events has the same directory as before, and every user page shows the same bytes.
   */
  lemma {:induction false} RunIsolates(k: Kern, es: seq<Event>, i: nat, q: nat)
    requires Good(k) && RunOk(k, es)
    requires i < k.procs.nextPid && i < S.MAX && 2048 <= q < PAGES && Run(k, es).procs.table[i].pd != 0
    ensures k.procs.table[i].pd == Run(k, es).procs.table[i].pd && Sees(Run(k, es), i, q) == Sees(k, i, q)
  {
    hide Owned, Step, Sees, EventOk, Reaches;
    if es != [] {
      var front, e := es[..|es| - 1], es[|es| - 1];
      var m := Run(k, front);
      StepKeeps(m, e);
      RunPids(k, front);
      EventTyped(m, e);
      StepDirs(m, e, i);
      StepIsolates(m, e, i, q);
      RunIsolates(k, front, i, q);
    }
  }

  lemma {:induction false} RunPids(k: Kern, es: seq<Event>)
    requires Good(k) && RunOk(k, es)
    ensures k.procs.nextPid <= Run(k, es).procs.nextPid
  {
    hide Owned, Step, EventOk, Reaches;
    if es != [] {
      var front, e := es[..|es| - 1], es[|es| - 1];
      RunPids(k, front);
      StepKeeps(Run(k, front), e);
      EventTyped(Run(k, front), e);
      StepDirs(Run(k, front), e, 0);
    }
  }

  // ---------------------------------------------------------------- a program keeps its image

  /** What a prepared program shows at an address of a segment outside the stack. */
  lemma PreparedImage(s: Sys, d: seq<byte>, j: nat, a: nat)
    requires Inv(s) && UserImage(d) && HeaderOk(d) && PageDisjoint(Segments(d)) && Prepare(s, d).Ready?
    requires j < |Segments(d)| && Loaded(Segments(d)[j]) && InSeg(Segments(d)[j], a / 4096)
    requires a / 4096 !in PagesFrom(STACK_BASE, STACK_PAGES)
    ensures var l := Prepare(s, d);
            && |l.mem.mem| == TOTAL && l.pd < TOTAL && a < WORD_LIMIT && FileInside(d, Segments(d)[j])
            && ReadUser(l.mem, l.pd, a) == Some(SegByte(d, Segments(d)[j], a))
  {
    hide NewDir, LoadUser, MapPages, SegsMapped, PageAt, RoleOk, Least, HeaderOk, Segments, InSeg;
    var pd := Least(s.free);
    NewDirIsReady(s, pd);
    var s1 := NewDir(s, pd);
    LoadedImage(s1, pd, d, j, a);
    InSegUser(Segments(d)[j], a / 4096);
    MapPagesShow(LoadUser(s1, pd, d).0, pd, PagesFrom(STACK_BASE, STACK_PAGES), pd, a / 4096);
  }

  /** A program that cmd_exec started owns the prepared directory. */
  lemma StartedSees(k: Kern, d: seq<byte>, q: nat)
    requires Owned(k) && UserImage(d) && Prepare(k.mem, d).Ready? && k.procs.nextPid < S.MAX && q < PAGES
    ensures var l, r, i := Prepare(k.mem, d), ExecImage(k, d), k.procs.nextPid;
            && Owned(r) && r.procs.nextPid == i + 1 && r.procs.table[i].pd != 0
            && |l.mem.mem| == TOTAL && l.pd < TOTAL && Sees(r, i, q) == PageAt(l.mem, l.pd, q)
  {
    hide Prepare, PageAt, RoleOk, OnlyGrew;
    var l := Prepare(k.mem, d);
    ExecKeeps(k, d);
    NothingFreeNone(k.mem, d);
    PrepareGrew(k.mem, d);
    GrownBounds(k.mem, l.mem, l.pd);
    S.CreateKeeps(k.procs, Program(l.pd, l.entry));
    CreateTakes(k.procs, Program(l.pd, l.entry));
  }

  lemma NothingFreeNone(s: Sys, d: seq<byte>)
    requires Inv(s) && UserImage(d) && Prepare(s, d).Ready?
    ensures s.free != {}
  {
  }

  lemma StartsReady(s: Sys, d: seq<byte>)
    requires Inv(s) && UserImage(d)
    ensures Starts(d, |s.free|) <==> Prepare(s, d).Ready?
  {
    hide Prepare, ImagePages, Startable, Took;
    if s.free == {} {
      NothingFree(s, d);
    } else {
      PrepareIs(s, d);
    }
  }

  /** At every address of its load segments outside the stack pages the process sees the byte the file prescribes. */
  ghost predicate ShowsImage(k: Kern, i: nat, d: seq<byte>)
    requires Owned(k) && i < S.MAX && k.procs.table[i].pd != 0 && UserImage(d) && HeaderOk(d)
  {
    forall j: nat, a: nat | j < |Segments(d)| && a < WORD_LIMIT :: ShowsByte(k, i, d, Segments(d)[j], a)
  }

  ghost predicate ShowsByte(k: Kern, i: nat, d: seq<byte>, g: Seg, a: nat)
    requires Owned(k) && i < S.MAX && k.procs.table[i].pd != 0 && (Loaded(g) ==> UserSeg(g)) && a < WORD_LIMIT
  {
    Loaded(g) && InSeg(g, a / 4096) && a / 4096 !in PagesFrom(STACK_BASE, STACK_PAGES) ==>
      && FileInside(d, g)
      && var page := Sees(k, i, a / 4096);
         page.Some? && page.value[a % 4096] == SegByte(d, g, a)
  }

  /**
    From exec to the end of the process: a page-disjoint file that can be started with the frames that are free, within
    the kernel's map, becomes a process that sees its image, and goes on seeing it, whatever programs start, end or are
    killed meanwhile, for as long as it keeps its directory.
   */
  lemma ProgramKeepsItsImage(k: Kern, d: seq<byte>, es: seq<Event>)
    requires Good(k) && UserImage(d) && Within(k.mem, d) && Starts(d, |k.mem.free|) && PageDisjoint(Segments(d))
    requires k.procs.nextPid < S.MAX && Good(ExecImage(k, d)) && RunOk(ExecImage(k, d), es)
    requires Run(ExecImage(k, d), es).procs.table[k.procs.nextPid].pd != 0
    ensures ShowsImage(Run(ExecImage(k, d), es), k.procs.nextPid, d)
  {
    hide Owned, ExecImage, Prepare, Run, RunOk, PageAt, Sees, HeaderOk, Segments, ShowsByte, ImagePages, PageDisjoint;
    hide Reaches, Within;
    OwnedInv(k);
    StartsReady(k.mem, d);
    forall j: nat, a: nat | j < |Segments(d)| && a < WORD_LIMIT
      ensures ShowsByte(Run(ExecImage(k, d), es), k.procs.nextPid, d, Segments(d)[j], a)
    {
      KeepsByte(k, d, es, j, a);
    }
  }

  lemma KeepsByte(k: Kern, d: seq<byte>, es: seq<Event>, j: nat, a: nat)
    requires Owned(k) && UserImage(d) && HeaderOk(d) && PageDisjoint(Segments(d)) && Prepare(k.mem, d).Ready?
    requires k.procs.nextPid < S.MAX && Good(ExecImage(k, d)) && RunOk(ExecImage(k, d), es)
    requires Run(ExecImage(k, d), es).procs.table[k.procs.nextPid].pd != 0 && j < |Segments(d)| && a < WORD_LIMIT
    ensures ShowsByte(Run(ExecImage(k, d), es), k.procs.nextPid, d, Segments(d)[j], a)
  {
    hide Owned, ExecImage, Prepare, Run, RunOk, PageAt, Sees, HeaderOk, Segments, InSeg, PageDisjoint, Reaches;
    var g := Segments(d)[j];
    if Loaded(g) && InSeg(g, a / 4096) && a / 4096 !in PagesFrom(STACK_BASE, STACK_PAGES) {
      OwnedInv(k);
      PreparedImage(k.mem, d, j, a);
      InSegUser(g, a / 4096);
      StartedSees(k, d, a / 4096);
      RunIsolates(ExecImage(k, d), es, k.procs.nextPid, a / 4096);
    }
  }

  // ---------------------------------------------------------------- a program has its stack

  lemma PreparedStack(s: Sys, d: seq<byte>, q: nat)
    requires Inv(s) && UserImage(d) && Prepare(s, d).Ready? && q in PagesFrom(STACK_BASE, STACK_PAGES)
    ensures var l := Prepare(s, d);
            && HeaderOk(d) && l.entry == U32(d, 24) && q < PAGES
            && |l.mem.mem| == TOTAL && l.pd < TOTAL && PageAt(l.mem, l.pd, q).Some?
  {
    hide NewDir, LoadSegs, MapPages, SegsMapped, RoleOk, Least, HeaderOk, Segments, Pte;
    var pd := Least(s.free);
    NewDirIsReady(s, pd);
    var s2 := LoadUser(NewDir(s, pd), pd, d).0;
    var stack := PagesFrom(STACK_BASE, STACK_PAGES);
    StackClean();
    MapPagesKeepMapped(s2, pd, stack, q);
    PteLeads(MapPages(s2, pd, stack).0, pd, q);
  }

  /** The sixteen kilobytes below the stack pointer are mapped. */
  ghost predicate HasStack(k: Kern, i: nat)
    requires Owned(k) && i < S.MAX && k.procs.table[i].pd != 0
  {
    && k.procs.table[i].esp == 0x102_0000
    && forall a: nat :: k.procs.table[i].esp - 16384 <= a < k.procs.table[i].esp ==> Sees(k, i, a / 4096).Some?
  }

  lemma StackPages(a: nat)
    requires 0x102_0000 - 16384 <= a < 0x102_0000
    ensures a / 4096 in PagesFrom(STACK_BASE, STACK_PAGES) && 2048 <= a / 4096 < PAGES
  {
    hide PageNo;
    var k := a / 4096 - 0x101C;
    StackPage(k);
    assert PagesFrom(STACK_BASE, STACK_PAGES)[k] == a / 4096;
  }

  /** The table entry of a program that cmd_exec started. */
  lemma StartedEntry(k: Kern, d: seq<byte>)
    requires Owned(k) && UserImage(d) && Prepare(k.mem, d).Ready? && k.procs.nextPid < S.MAX
    ensures var r, i := ExecImage(k, d), k.procs.nextPid;
            && Owned(r) && r.procs.table[i].status == S.Ready
            && HeaderOk(d) && r.procs.table[i].eip == U32(d, 24) && r.procs.table[i].esp == 0x102_0000
  {
    hide Prepare, RoleOk, OnlyGrew, HeaderOk;
    var l := Prepare(k.mem, d);
    ExecKeeps(k, d);
    StackPages(0x101_C000);
    PreparedStack(k.mem, d, 0x101C);
    NothingFreeNone(k.mem, d);
    PrepareGrew(k.mem, d);
    GrownBounds(k.mem, l.mem, l.pd);
    S.CreateKeeps(k.procs, Program(l.pd, l.entry));
    CreateTakes(k.procs, Program(l.pd, l.entry));
  }

  lemma {:induction false} RunStarts(k: Kern, es: seq<Event>, i: nat)
    requires Good(k) && RunOk(k, es) && i < k.procs.nextPid && i < S.MAX
    ensures Run(k, es).procs.table[i].eip == k.procs.table[i].eip
    ensures Run(k, es).procs.table[i].esp == k.procs.table[i].esp
  {
    hide Owned, Step, EventOk, Reaches;
    if es != [] {
      var front, e := es[..|es| - 1], es[|es| - 1];
      RunStarts(k, front, i);
      RunPids(k, front);
      EventTyped(Run(k, front), e);
      StepDirs(Run(k, front), e, i);
    }
  }

  /**
    A program that cmd_exec started begins at the entry point in its file, with the top of a mapped stack; and for
    as long as it keeps its directory, whatever happens to others, that stack stays mapped.
   */
  lemma ProgramKeepsItsStack(k: Kern, d: seq<byte>, es: seq<Event>)
    requires Good(k) && UserImage(d) && Within(k.mem, d) && Starts(d, |k.mem.free|)
    requires k.procs.nextPid < S.MAX && Good(ExecImage(k, d)) && RunOk(ExecImage(k, d), es)
    requires Run(ExecImage(k, d), es).procs.table[k.procs.nextPid].pd != 0
    ensures var r, i := Run(ExecImage(k, d), es), k.procs.nextPid;
            HeaderOk(d) && r.procs.table[i].eip == U32(d, 24) && HasStack(r, i)
  {
    hide Owned, ExecImage, Prepare, Run, RunOk, PageAt, Sees, HeaderOk, ImagePages, Reaches, Within;
    var i := k.procs.nextPid;
    OwnedInv(k);
    StartsReady(k.mem, d);
    StartedEntry(k, d);
    StartedSees(k, d, 2048);
    RunStarts(ExecImage(k, d), es, i);
    forall a: nat | 0x102_0000 - 16384 <= a < 0x102_0000
      ensures a / 4096 < PAGES && Sees(Run(ExecImage(k, d), es), i, a / 4096).Some?
    {
      StackPages(a);
      PreparedStack(k.mem, d, a / 4096);
      StartedSees(k, d, a / 4096);
      RunIsolates(ExecImage(k, d), es, i, a / 4096);
    }
  }

  lemma OwnedInv(k: Kern)
    requires Owned(k)
    ensures Inv(k.mem) && |k.procs.table| == S.MAX
  {
  }
}
