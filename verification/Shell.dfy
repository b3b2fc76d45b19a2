/**
  cmd_exec of kernel/shell.c, process_kill and process_exit of kernel/process.c, as code over the page tables and
  the process table.
 */
module Shell {
  import opened Bytes
  import opened Frames
  import opened PageTables
  import opened AddressSpace
  import opened ElfImage
  import opened Exec
  import opened FrameLoss
  import opened KernelReach
  import opened ProgramRuns
  import opened Isolation
  import opened ActiveDirectory
  import FS = FileSystem
  import L = FsLayout
  import Paging
  import ElfLoader
  import Processes
  import S = Scheduler

  const RUN_BUF_SIZE: word := 0x1_0000

  /** The file can be read into the buffer cmd_exec has. */
  ghost predicate Fetchable(d: L.Image, name: seq<byte>)
    requires L.Inv(d)
  {
    name != [] && name in L.Files(d) && |L.Files(d)[name]| <= 65536
  }

  /** What the loader may be handed: the file, or as much of it as a failing drive delivers. */
  ghost predicate Loadable(d: seq<byte>, healthy: bool) {
    forall n | 0 <= n <= |d| && (healthy ==> n == |d|) :: UserImage(d[..n])
  }

  /** From k, a start of the bytes d within the kernel's map: the state afterwards and the slot. */
  ghost predicate Started(k: Kern, d: seq<byte>, k': Kern, slot: int) {
    && Good(k) && UserImage(d) && k' == ExecImage(k, d)
    && slot == if Starts(d, |k.mem.free|) && k.procs.nextPid < S.MAX then k.procs.nextPid else -1
  }

  /** The same, with what the new process sees. */
  ghost predicate Ran(k: Kern, d: seq<byte>, k': Kern, slot: int) {
    && Good(k') && Started(k, d, k', slot)
    && (slot >= 0 ==>
          && k'.procs.table[slot].pd != 0 && k'.procs.table[slot].eip == U32(d, 24) && HasStack(k', slot)
          && (PageDisjoint(Segments(d)) ==> ShowsImage(k', slot, d)))
  }

  class Kernel {
    const pg: Paging.Paging
    const procs: Processes.ProcessTable
    /** The page-directory register. */
    var cr3: word

    ghost predicate Valid()
      reads pg, pg.pmm, pg.pmm.bitmap, procs, procs.table
    {
      pg.Valid() && procs.Valid() && Good(View())
    }

    ghost function View(): Kern
      requires pg.pmm.Valid()
      reads pg, pg.pmm.bitmap, procs, procs.table
    {
      Kern(pg.View(), procs.View())
    }

    constructor (pg: Paging.Paging, procs: Processes.ProcessTable)
      requires pg.Valid() && procs.Valid() && Good(Kern(pg.View(), procs.View()))
      ensures this.pg == pg && this.procs == procs && Valid() && View() == Kern(pg.View(), procs.View())
      ensures cr3 == 4096 * pg.k.pd
    {
      this.pg, this.procs, this.cr3 := pg, procs, 4096 * pg.k.pd;
    }

    /** process_before_switch: the directory of the process that is to run, the kernel's for a kernel thread. */
    method BeforeSwitch()
      requires Valid() && procs.cur >= 0
      modifies this`cr3
      ensures Valid() && View() == old(View()) && cr3 == Target(View())
      ensures cr3 == if procs.table[procs.cur].pd != 0 then procs.table[procs.cur].pd else 4096 * pg.k.pd
    {
      SizesOf(View());
      var own := procs.table[procs.cur].pd;
      var target := if own != 0 then own else 4096 * pg.k.pd;
      if target != cr3 {
        cr3 := target;
      }
    }

    /** The C side of process_yield: choose, then load the directory. */
    method SwitchProcess()
      requires Valid()
      modifies this`cr3, procs, procs.table
      ensures Valid() && View() == Step(old(View()), Proc(S.Event.Yield)) && cr3 == Target(View())
    {
      hide Inv, Owned, Reaches, Within, S.Switch;
      SizesOf(View());
      YieldIs(View());
      var next := procs.SchedNext();
      BeforeSwitch();
    }

    /** cmd_exec up to process_create_user: 0 when a step failed and the directory is already destroyed. */
    method PrepareProgram(d: seq<byte>) returns (pd: word, entry: word)
      requires pg.Valid() && UserImage(d)
      modifies pg, pg.pmm, pg.pmm.bitmap
      ensures pg.Valid()
      ensures var l := Prepare(old(pg.View()), d);
              match l
              case NoMemory => pd == 0 && pg.View() == old(pg.View())
              case Failed(s, f, _) => pd == 0 && pg.View() == Destroy(s, f)
              case Ready(s, f, _, e) => pd != 0 && pd == 4096 * f && entry == e && pg.View() == s
      ensures pd != 0 ==>
        && Paging.IndexOf(pd) < TOTAL && HeaderOk(d) && entry == U32(d, 24)
        && forall a: nat :: 0x101_C000 <= a < 0x102_0000 ==> PageAt(pg.View(), Paging.IndexOf(pd), a / 4096).Some?
    {
      hide Inv, NewDir, LoadUser, MapPages, Destroy, Least, SegsMapped;
      ghost var s := pg.View();
      entry := 0;
      pd := pg.CreatePd();
      if pd == 0 {
        return;
      }
      ghost var f := Paging.IndexOf(pd);
      NewDirIsReady(s, f);
      entry := ElfLoader.LoadUserImage(pg, d, pd);
      if entry == 0 {
        pg.DestroyPd(pd);
        return 0, 0;
      }
      var r := pg.AllocUserPages(pd, STACK_TOP - STACK_PAGES * 4096, STACK_PAGES);
      if r != 0 {
        pg.DestroyPd(pd);
        return 0, 0;
      }
      PreparedStackAll(s, d);
    }

    /** The page directory of a process that is going away. */
    method DropDirectory(pd: word)
      requires pg.Valid() && (pd != 0 ==> Is(pg.View(), Paging.IndexOf(pd), Dir))
      modifies pg, pg.pmm, pg.pmm.bitmap
      ensures pg.Valid() && pg.View() == Dropped(old(pg.View()), pd)
    {
      hide Inv, Destroy;
      if pd != 0 {
        pg.DestroyPd(pd);
      }
    }

    /**
      cmd_exec on the bytes of the file, without the final switch: the slot of the new process, or -1.  Nothing is
      promised of a start that leaves the kernel's map, where the source faults or writes into other frames.
     */
    method ExecFile(d: seq<byte>) returns (slot: int)
      requires Valid() && UserImage(d)
      modifies pg, pg.pmm, pg.pmm.bitmap, procs, procs.table
      ensures old(Within(View().mem, d)) ==> Valid() && Ran(old(View()), d, View(), slot)
    {
      hide Prepare, Inv, Owned, Reaches, Within, Destroy, S.CreateProc, ExecImage, Starts, S.TableOk, Ran;
      ghost var k := View();
      ExecIs(k, d);
      ExecGood(k, d);
      ReadyIsDir(k.mem, d);
      StartsReady(k.mem, d);
      CreateAnswers(k);
      var pd, entry := PrepareProgram(d);
      if pd == 0 {
        slot := -1;
      } else {
        slot := procs.AddProcess(S.Birth(pd, entry, STACK_TOP));
        if slot < 0 {
          DropDirectory(pd);
        }
      }
      if Within(k.mem, d) {
        RanWhen(k, d, View(), slot);
      }
    }

    /**
      cmd_exec on a file of the disk; delivered is how much of it the drive gave, -1 when there was nothing to run.  A
      healthy drive gives the whole file whenever it is there and fits the buffer.
     */
    method ExecNamed(fs: FS.FileSystem, name: seq<byte>) returns (slot: int, ghost delivered: int)
      requires Valid() && fs.Valid() && L.Inv(fs.disk.image)
      requires name in L.Files(fs.disk.image) ==> Loadable(L.Files(fs.disk.image)[name], fs.disk.healthy)
      modifies pg, pg.pmm, pg.pmm.bitmap, procs, procs.table, fs.dirBuf, fs.sectorBuf
      ensures fs.disk.healthy ==>
        if Fetchable(fs.disk.image, name) then delivered == |L.Files(fs.disk.image)[name]| else delivered < 0
      ensures delivered < 0 ==> Valid() && slot == -1 && View() == old(View())
      ensures delivered >= 0 ==>
        && name in L.Files(fs.disk.image) && delivered <= |L.Files(fs.disk.image)[name]|
        && var d := L.Files(fs.disk.image)[name][..delivered];
           && UserImage(d)
           && (Within(old(View()).mem, d) ==> Valid() && Ran(old(View()), d, View(), slot))
    {
      hide L.Inv, L.Files, Good, Inv, Within, Ran, Started, Fetchable;
      slot, delivered := -1, -1;
      GoodMemory(View());
      var found, d := ReadProgram(fs, name);
      if found {
        delivered := |d|;
        slot := ExecFile(d);
      }
    }

    /** The first half of cmd_exec: the file in run_buf. */
    method ReadProgram(fs: FS.FileSystem, name: seq<byte>) returns (found: bool, d: seq<byte>)
      requires fs.Valid() && L.Inv(fs.disk.image)
      modifies fs.dirBuf, fs.sectorBuf
      ensures found ==>
        && name in L.Files(fs.disk.image) && |d| <= |L.Files(fs.disk.image)[name]|
        && d == L.Files(fs.disk.image)[name][..|d|]
      ensures fs.disk.healthy ==> (found <==> Fetchable(fs.disk.image, name))
      ensures fs.disk.healthy && found ==> |d| == |L.Files(fs.disk.image)[name]|
    {
      ImageSize(fs.disk.image);
      hide L.Inv, L.Files;
      found, d := false, [];
      if name == [] {
        return;
      }
      var mounted := fs.Init();
      if !mounted {
        return;
      }
      var r;
      r, d := fs.Fetch(name, RUN_BUF_SIZE);
      found := r == 0;
    }

    /** process_kill */
    method KillPid(pid: nat) returns (r: int)
      requires Valid()
      modifies pg, pg.pmm, pg.pmm.bitmap, procs.table
      ensures Valid() && View() == Step(old(View()), Kill(pid))
      ensures r == if 1 <= pid <= old(procs.nextPid) && old(View()).procs.table[pid - 1].status != S.Zombie
                   then 0 else -1
      ensures r == 0 ==> procs.table[pid - 1].status == S.Zombie && procs.table[pid - 1].pd == 0
    {
      hide Inv, Owned, Reaches, Dropped, Step, S.KillProc;
      ghost var k := View();
      KillIs(k, pid);
      OwnedMemory(k);
      S.KillKills(k.procs, pid);
      var pd;
      r, pd := procs.KillProcess(pid);
      DropDirectory(pd);
    }

    /** process_exit up to the switch, which the caller makes. */
    method ExitProcess()
      requires Valid()
      modifies pg, pg.pmm, pg.pmm.bitmap, procs.table
      ensures Valid() && View() == Step(old(View()), Exit)
      ensures procs.cur >= 0 ==> procs.table[procs.cur].status == S.Zombie && procs.table[procs.cur].pd == 0
    {
      hide Inv, Owned, Reaches, Dropped, Step;
      ghost var k := View();
      ExitIs(k);
      var pd := procs.RetireCurrent();
      DropDirectory(pd);
    }
  }

  /** Memory after the directory at pd, if any, is destroyed. */
  ghost function Dropped(s: Sys, pd: word): Sys
    requires pd != 0 ==> Inv(s) && Is(s, Paging.IndexOf(pd), Dir)
  {
    if pd == 0 then s else Destroy(s, Paging.IndexOf(pd))
  }

  lemma YieldIs(k: Kern)
    requires Good(k)
    ensures var e := Proc(S.Event.Yield);
            && S.Shape(k.procs) && Good(Step(k, e)) && Step(k, e) == k.(procs := S.Switch(k.procs))
            && S.Switch(k.procs).cur >= 0
  {
    hide Inv, Reaches, S.Switch;
    StepKeeps(k, Proc(S.Event.Yield));
    S.SwitchMovesNothing(k.procs);
  }

  lemma ExitIs(k: Kern)
    requires Good(k)
    ensures |k.procs.table| == S.MAX && -1 <= k.procs.cur < S.MAX && Good(Step(k, Exit))
    ensures var pd := if k.procs.cur < 0 then 0 else k.procs.table[k.procs.cur].pd;
            var procs := if k.procs.cur < 0 then k.procs else S.Retire(k.procs, k.procs.cur);
            && (pd != 0 ==> Inv(k.mem) && Is(k.mem, Paging.IndexOf(pd), Dir))
            && Step(k, Exit) == Kern(Dropped(k.mem, pd), procs)
  {
    hide Inv, Owned, Reaches, Destroy;
    OwnersHaveDirs(k);
    StepKeeps(k, Exit);
  }

  lemma KillIs(k: Kern, pid: nat)
    requires Good(k)
    ensures S.Shape(k.procs) && Good(Step(k, Kill(pid)))
    ensures var i := S.FirstKillable(k.procs.table, pid, 0);
            var pd := if S.KillProc(k.procs, pid).1 == 0 && i < S.MAX then k.procs.table[i].pd else 0;
            && (S.KillProc(k.procs, pid).1 == 0 ==> i < S.MAX)
            && (pd != 0 ==> Inv(k.mem) && Is(k.mem, Paging.IndexOf(pd), Dir))
            && Step(k, Kill(pid)) == Kern(Dropped(k.mem, pd), S.KillProc(k.procs, pid).0)
  {
    hide Inv, Owned, Reaches, Destroy;
    OwnersHaveDirs(k);
    StepKeeps(k, Kill(pid));
  }

  lemma ExecGood(k: Kern, d: seq<byte>)
    requires Good(k) && UserImage(d)
    ensures Inv(k.mem) && (Within(k.mem, d) ==> Good(ExecImage(k, d)))
  {
    hide Inv, Owned, Reaches, ExecImage, Within;
    OwnersHaveDirs(k);
    if Within(k.mem, d) {
      StepKeeps(k, Exec(d));
    }
  }

  lemma GoodMemory(k: Kern)
    requires Good(k)
    ensures Inv(k.mem)
  {
  }

  lemma ExecIs(k: Kern, d: seq<byte>)
    requires Owned(k) && UserImage(d)
    ensures Owned(ExecImage(k, d)) && Inv(k.mem) && S.Shape(k.procs)
    ensures match Prepare(k.mem, d)
            case NoMemory => ExecImage(k, d) == k
            case Failed(s, pd, _) => ExecImage(k, d) == Kern(Destroy(s, pd), k.procs)
            case Ready(s, pd, _, entry) =>
              && 0 < pd < TOTAL && Inv(s) && Is(s, pd, Dir)
              && var (p, slot) := S.CreateProc(k.procs, S.Birth(4096 * pd, entry, STACK_TOP));
                 ExecImage(k, d) == if slot < 0 then Kern(Destroy(s, pd), p) else Kern(s, p)
  {
    hide Inv, Owned, Destroy, Prepare, S.CreateProc;
    OwnersHaveDirs(k);
    ExecKeeps(k, d);
    ReadyIsDir(k.mem, d);
    var l := Prepare(k.mem, d);
    if l.Ready? && S.CreateProc(k.procs, Program(l.pd, l.entry)).1 < 0 {
      CreateFails(k.procs, Program(l.pd, l.entry));
    }
  }

  lemma ReadyIsDir(s: Sys, d: seq<byte>)
    requires Inv(s) && UserImage(d)
    ensures var l := Prepare(s, d);
            l.Ready? ==> Inv(l.mem) && Is(l.mem, l.pd, Dir) && 0 < l.pd < TOTAL
  {
    hide Prepare, OnlyGrew;
    if s.free == {} {
      NothingFree(s, d);
    } else {
      var l := Prepare(s, d);
      PrepareGrew(s, d);
      GrownBounds(s, l.mem, l.pd);
      GrewInv(s, l.mem, l.pd);
    }
  }

  lemma CreateFails(s: S.Sched, b: S.Birth)
    requires S.Shape(s) && S.CreateProc(s, b).1 < 0
    ensures S.CreateProc(s, b).0 == s
  {
  }

  lemma OwnersHaveDirs(k: Kern)
    requires Owned(k)
    ensures S.Shape(k.procs) && Inv(k.mem)
    ensures forall i :: 0 <= i < S.MAX && k.procs.table[i].pd != 0 ==>
              Is(k.mem, Paging.IndexOf(k.procs.table[i].pd), Dir)
  {
  }

  lemma CreateAnswers(k: Kern)
    requires Owned(k)
    ensures S.Shape(k.procs)
    ensures forall b: S.Birth {:trigger S.CreateProc(k.procs, b)} ::
              S.CreateProc(k.procs, b).1 == if k.procs.nextPid < S.MAX then k.procs.nextPid else -1
  {
    hide Inv, S.CreateProc;
    forall b: S.Birth
      ensures S.CreateProc(k.procs, b).1 == if k.procs.nextPid < S.MAX then k.procs.nextPid else -1
    {
      S.CreateKeeps(k.procs, b);
    }
  }

  /** A program just started has its stack, and sees its image. */
  lemma StartedImage(k: Kern, d: seq<byte>)
    requires Good(k) && UserImage(d) && Within(k.mem, d) && Starts(d, |k.mem.free|)
    requires k.procs.nextPid < S.MAX && Good(ExecImage(k, d))
    ensures HeaderOk(d) && ExecImage(k, d).procs.table[k.procs.nextPid].pd != 0
    ensures ExecImage(k, d).procs.table[k.procs.nextPid].eip == U32(d, 24) && HasStack(ExecImage(k, d), k.procs.nextPid)
    ensures PageDisjoint(Segments(d)) ==> ShowsImage(ExecImage(k, d), k.procs.nextPid, d)
  {
    hide Owned, Reaches, Within, Inv, Prepare, ExecImage, ShowsImage;
    hide HasStack, Sees, PageDisjoint, ImagePages, HeaderOk;
    OwnedInv(k);
    StartsReady(k.mem, d);
    StartedSees(k, d, 2048);
    ProgramKeepsItsStack(k, d, []);
    if PageDisjoint(Segments(d)) {
      ProgramKeepsItsImage(k, d, []);
    }
  }

  lemma RanWhen(k: Kern, d: seq<byte>, k': Kern, slot: int)
    requires Good(k) && Good(k') && Started(k, d, k', slot) && Within(k.mem, d)
    ensures Ran(k, d, k', slot)
  {
    hide Owned, Reaches, Within, ExecImage, ShowsImage, HasStack, Starts, PageDisjoint, HeaderOk;
    if slot >= 0 {
      StartedImage(k, d);
    }
  }

  lemma ImageSize(d: L.Image)
    requires L.Inv(d)
    ensures L.SizeOk(d) && L.Formatted(d)
  {
  }

  lemma PreparedStackAll(s: Sys, d: seq<byte>)
    requires Inv(s) && UserImage(d) && Prepare(s, d).Ready?
    ensures var l := Prepare(s, d);
            && |l.mem.mem| == TOTAL && l.pd < TOTAL && HeaderOk(d) && l.entry == U32(d, 24)
            && forall a: nat :: 0x101_C000 <= a < 0x102_0000 ==> PageAt(l.mem, l.pd, a / 4096).Some?
  {
    hide Prepare, Inv, PageAt, HeaderOk;
    StackPages(0x101_C000);
    PreparedStack(s, d, 0x101C);
    forall a: nat | 0x101_C000 <= a < 0x102_0000
      ensures PageAt(Prepare(s, d).mem, Prepare(s, d).pd, a / 4096).Some?
    {
      StackPages(a);
      PreparedStack(s, d, a / 4096);
    }
  }
}
