/**
  CR3 over runs of program starts, ends and switches.  process_before_switch loads the directory of the incoming
  process, or the kernel's; nothing else writes the register.  So the processor translates through the directory
  of the current process exactly if that directory has not been destroyed under it since the last switch.
 */
module ActiveDirectory {
  import opened Bytes
  import opened Frames
  import opened PageTables
  import opened AddressSpace
  import opened Paging
  import opened ElfImage
  import opened Exec
  import opened FrameLoss
  import opened KernelReach
  import opened ProgramRuns
  import opened Isolation
  import opened Protection
  import S = Scheduler

  /** Where CR3 belongs: the directory of the current process, the kernel's when it has none or nobody runs. */
  ghost function Target(k: Kern): word
    requires Good(k)
  {
    if k.procs.cur >= 0 && k.procs.table[k.procs.cur].pd != 0 then k.procs.table[k.procs.cur].pd else 4096 * k.mem.k.pd
  }

  predicate Switches(e: Event) {
    e == Proc(S.Event.Yield) || e == Proc(S.Event.Block)
  }

  /** The event destroys the directory of the current process: it exits, or its own PID is killed. */
  ghost predicate DropsOwn(k: Kern, e: Event)
    requires Good(k)
  {
    && k.procs.cur >= 0 && k.procs.table[k.procs.cur].pd != 0
    && (e == Exit || e == Kill(k.procs.cur + 1))
  }

  /** CR3 after the run, if it was where it belongs before. */
  ghost function Cr3(k: Kern, es: seq<Event>): word
    requires Good(k) && RunOk(k, es)
  {
    if es == [] then Target(k)
    else if Switches(es[|es| - 1]) then Target(Run(k, es))
    else Cr3(k, es[..|es| - 1])
  }

  /** The current process has lost its directory since the last switch. */
  ghost predicate Stale(k: Kern, es: seq<Event>)
    requires Good(k) && RunOk(k, es)
  {
    && es != [] && !Switches(es[|es| - 1])
    && (Stale(k, es[..|es| - 1]) || DropsOwn(Run(k, es[..|es| - 1]), es[|es| - 1]))
  }

  // ---------------------------------------------------------------- one event

  lemma SizesOf(k: Kern)
    requires Good(k)
    ensures Inv(k.mem) && Owned(k) && |k.procs.table| == S.MAX && -1 <= k.procs.cur < k.procs.nextPid <= S.MAX
    ensures k.mem.k.pd < LOW
  {
    hide RoleOk, Reaches;
  }

  /** A directory of a process is not the kernel's. */
  lemma OwnIsNotKernels(k: Kern, i: nat)
    requires Good(k) && i < S.MAX && k.procs.table[i].pd != 0
    ensures k.procs.table[i].pd != 4096 * k.mem.k.pd && k.procs.table[i].pd == 4096 * IndexOf(k.procs.table[i].pd)
    ensures Is(k.mem, IndexOf(k.procs.table[i].pd), Dir)
  {
    hide RoleOk, Reaches;
  }

  /** What becomes of the current slot in an event that is not a switch. */
  ghost predicate Unmoved(k: Kern, k': Kern) {
    && |k.procs.table| == |k'.procs.table| == S.MAX && -1 <= k.procs.cur < S.MAX
    && k'.mem.k == k.mem.k && k'.procs.cur == k.procs.cur
    && (k.procs.cur >= 0 ==> k'.procs.table[k.procs.cur].pd == k.procs.table[k.procs.cur].pd)
  }

  lemma ExecUnmoved(k: Kern, d: seq<byte>)
    requires Good(k) && UserImage(d)
    ensures Unmoved(k, ExecImage(k, d))
  {
    hide Prepare, RoleOk, Reaches, OnlyGrew;
    SizesOf(k);
    if k.mem.free == {} {
      NothingFree(k.mem, d);
    } else {
      PrepareGrew(k.mem, d);
      var l := Prepare(k.mem, d);
      GrownKernel(k.mem, l.mem, l.pd);
      if l.Ready? && S.CreateProc(k.procs, Program(l.pd, l.entry)).1 >= 0 {
        CreateTakes(k.procs, Program(l.pd, l.entry));
      }
    }
  }

  lemma GrownKernel(s: Sys, s': Sys, pd: nat)
    requires OnlyGrew(s, s', pd)
    ensures s'.k == s.k && Destroy(s', pd).k == s.k
  {
  }

  lemma BuryOther(k: Kern, i: nat)
    requires Good(k) && i < S.MAX
    ensures k.procs.cur != i ==> Unmoved(k, Bury(k, i))
    ensures Bury(k, i).procs.table[i].pd == 0 && Bury(k, i).mem.k == k.mem.k && Bury(k, i).procs.cur == k.procs.cur
    ensures var pd := k.procs.table[i].pd;
            pd != 0 ==> IndexOf(pd) in Bury(k, i).mem.free
  {
    hide RoleOk, Reaches;
    SizesOf(k);
    var pd := k.procs.table[i].pd;
    if pd != 0 {
      OwnIsNotKernels(k, i);
      assert PdOf(k.mem, IndexOf(pd)) == Some(IndexOf(pd));
    }
  }

  /** What an event that is not a switch makes of CR3's place: nothing, or it goes with the directory. */
  ghost predicate Follows(k: Kern, k': Kern, drops: bool)
    requires Good(k) && Good(k')
  {
    && k'.mem.k == k.mem.k && k'.procs.cur == k.procs.cur
    && if drops then Target(k') == 4096 * k.mem.k.pd != Target(k) && IndexOf(Target(k)) in k'.mem.free
       else Target(k') == Target(k)
  }

  lemma UnmovedFollows(k: Kern, k': Kern)
    requires Good(k) && Good(k') && Unmoved(k, k')
    ensures Follows(k, k', false)
  {
    hide Owned, Reaches;
  }

  lemma BuryFollows(k: Kern, i: nat)
    requires Good(k) && i < S.MAX && Owned(k) && Good(Bury(k, i))
    ensures |k.procs.table| == S.MAX
    ensures Follows(k, Bury(k, i), k.procs.cur == i && k.procs.table[i].pd != 0)
  {
    hide Owned, Reaches, Bury, Inv;
    SizesOf(k);
    SizesOf(Bury(k, i));
    BuryOther(k, i);
    if k.procs.cur != i {
      UnmovedFollows(k, Bury(k, i));
    } else if k.procs.table[i].pd != 0 {
      OwnIsNotKernels(k, i);
    }
  }

  lemma KillFollows(k: Kern, pid: nat)
    requires Good(k) && Owned(k) && Good(Step(k, Kill(pid)))
    ensures Follows(k, Step(k, Kill(pid)), DropsOwn(k, Kill(pid)))
  {
    hide Good, Owned, Bury, Follows, Target;
    SizesOf(k);
    Killed(k, pid);
    var i := S.FirstKillable(k.procs.table, pid, 0);
    if i < S.MAX {
      BuryFollows(k, i);
    } else {
      Still(k);
    }
  }

  lemma ExitFollows(k: Kern)
    requires Good(k) && Owned(k) && Good(Step(k, Exit))
    ensures Follows(k, Step(k, Exit), DropsOwn(k, Exit))
  {
    hide Good, Owned, Bury, Follows, Target;
    SizesOf(k);
    if k.procs.cur >= 0 {
      BuryFollows(k, k.procs.cur);
    } else {
      Still(k);
    }
  }

  /** Between switches the register stays right unless the directory goes; then it names a free frame. */
  lemma EventTarget(k: Kern, e: Event)
    requires Good(k) && EventOk(k, e) && Good(Step(k, e)) && !Switches(e)
    ensures Follows(k, Step(k, e), DropsOwn(k, e))
  {
    SizesOf(k);
    EventTyped(k, e);
    hide Good, Owned, Inv, ExecImage, Bury, MapKernel, S.Step, Follows, Unmoved;
    match e
    case Exec(d) =>
      ExecUnmoved(k, d);
      UnmovedFollows(k, Step(k, e));
    case Kill(pid) => KillFollows(k, pid);
    case Exit => ExitFollows(k);
    case MapLow(virt, phys, flags) =>
      MapLowUnmoved(k, virt, phys, flags);
      UnmovedFollows(k, Step(k, e));
    case Proc(p) =>
      ProcUnmoved(k, p);
      UnmovedFollows(k, Step(k, e));
  }

  lemma Still(k: Kern)
    requires Good(k)
    ensures Follows(k, k, false)
  {
    hide Good;
  }

  /** The slot a kill hits is the one before its PID; a process with a directory can always be hit. */
  lemma Killed(k: Kern, pid: nat)
    requires Good(k)
    ensures S.Shape(k.procs)
    ensures var i := S.FirstKillable(k.procs.table, pid, 0);
            && (i < S.MAX ==> pid == i + 1)
            && (1 <= pid <= S.MAX && k.procs.table[pid - 1].pd != 0 ==> i == pid - 1)
  {
    hide RoleOk, Reaches, Inv;
    if 1 <= pid <= S.MAX && k.procs.table[pid - 1].pd != 0 {
      assert S.Killable(k.procs.table[pid - 1], pid);
    }
  }

  lemma MapLowUnmoved(k: Kern, virt: word, phys: word, flags: word)
    requires Good(k)
    ensures KernelOk(k.mem) && Unmoved(k, k.(mem := MapKernel(k.mem, virt, phys, flags)))
  {
    hide RoleOk, Reaches, SetWord;
  }

  lemma ProcUnmoved(k: Kern, p: S.Event)
    requires Good(k) && Typed(Proc(p)) && !p.Yield? && !p.Block?
    ensures S.Shape(k.procs) && Unmoved(k, k.(procs := S.Step(k.procs, p)))
  {
    hide RoleOk, Reaches, Inv, S.CreateProc, S.WakeBlocked;
    ProcMovesNothing(k.procs, p);
    if p.Create? {
      CreateStays(k.procs, S.KERNEL_THREAD);
    }
  }

  lemma CreateStays(s: S.Sched, b: S.Birth)
    requires S.Shape(s)
    ensures S.CreateProc(s, b).0.cur == s.cur
  {
  }

  // ---------------------------------------------------------------- runs

  lemma RunFront(k: Kern, es: seq<Event>)
    requires Good(k) && es != [] && RunOk(k, es)
    ensures RunOk(k, es[..|es| - 1])
    ensures var m, e := Run(k, es[..|es| - 1]), es[|es| - 1];
            EventOk(m, e) && Good(Step(m, e)) && Run(k, es) == Step(m, e)
  {
    hide EventOk, Step, Good;
    StepKeeps(Run(k, es[..|es| - 1]), es[|es| - 1]);
  }

  /**
    After any run CR3 names the directory of the current process, the kernel's if it has none, if and only if that
    process has not lost its directory since the last switch.
   */
  lemma {:induction false} Cr3Iff(k: Kern, es: seq<Event>)
    requires Good(k) && RunOk(k, es)
    ensures Cr3(k, es) == Target(Run(k, es)) <==> !Stale(k, es)
    ensures Stale(k, es) ==> Target(Run(k, es)) == 4096 * Run(k, es).mem.k.pd
    ensures Stale(k, es) ==> Run(k, es).procs.cur >= 0 && Run(k, es).procs.table[Run(k, es).procs.cur].pd == 0
  {
    hide Good, EventOk, Step, Run, RunOk, DropsOwn, Target;
    if es == [] {
      RunNone(k);
    } else {
      RunFront(k, es);
      var front, e := es[..|es| - 1], es[|es| - 1];
      if !Switches(e) {
        Cr3Iff(k, front);
        var m := Run(k, front);
        EventTarget(m, e);
        AfterDrop(m, e);
      }
    }
  }

  lemma RunNone(k: Kern)
    requires Good(k)
    ensures RunOk(k, []) && Run(k, []) == k
  {
  }

  lemma AfterDrop(m: Kern, e: Event)
    requires Good(m) && EventOk(m, e) && Good(Step(m, e)) && !Switches(e)
    ensures var c := m.procs.cur;
            && |m.procs.table| == |Step(m, e).procs.table| == S.MAX && c < S.MAX
            && (c >= 0 && (DropsOwn(m, e) || m.procs.table[c].pd == 0) ==> Step(m, e).procs.table[c].pd == 0)
            && (DropsOwn(m, e) ==> c >= 0 && m.procs.table[c].pd != 0)
            && (DropsOwn(m, e) || (c >= 0 && m.procs.table[c].pd == 0) ==> Target(Step(m, e)) == 4096 * m.mem.k.pd)
  {
    hide Owned, Inv, Reaches, EventOk, Step;
    SizesOf(m);
    EventTyped(m, e);
    SizesOf(Step(m, e));
    EventTarget(m, e);
    OwnTarget(m);
    OwnTarget(Step(m, e));
  }

  lemma OwnTarget(k: Kern)
    requires Good(k)
    ensures |k.procs.table| == S.MAX && -1 <= k.procs.cur < S.MAX
    ensures k.procs.cur >= 0 ==> (Target(k) == 4096 * k.mem.k.pd <==> k.procs.table[k.procs.cur].pd == 0)
  {
    hide Owned, Inv, Reaches;
    SizesOf(k);
    if k.procs.cur >= 0 && k.procs.table[k.procs.cur].pd != 0 {
      OwnIsNotKernels(k, k.procs.cur);
    }
  }

  /** The register is right: the running program reaches its own leaves and nothing else, through CR3 itself. */
  lemma RunningIsProtected(k: Kern, es: seq<Event>, a: word, write: bool)
    requires Good(k) && RunOk(k, es) && !Stale(k, es)
    requires Run(k, es).procs.cur >= 0 && Run(k, es).procs.table[Run(k, es).procs.cur].pd != 0
    ensures var m, d := Run(k, es), IndexOf(Cr3(k, es));
            && |m.mem.mem| == TOTAL && d < TOTAL && m.procs.table[m.procs.cur].pd == 4096 * d
            && var x := Walk(m.mem.mem, d, a, true, write);
            x.Some? ==> var f := x.value / 0x1000;
                        f in m.mem.owner && m.mem.owner[f].Leaf? && PdOf(m.mem, f) == Some(d)
  {
    hide Owned, Inv, Reaches, Run, RunOk, Stale, Walk;
    var m := Run(k, es);
    Cr3Iff(k, es);
    SizesOf(m);
    ProcessDir(m, m.procs.cur);
    OwnIsNotKernels(m, m.procs.cur);
    var d := IndexOf(Cr3(k, es));
    if Walk(m.mem.mem, d, a, true, write).Some? {
      OwnLeavesOnly(m.mem, d, a, write);
    }
  }
}
