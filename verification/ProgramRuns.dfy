/**
  Runs of program starts, ends, kernel mappings and scheduler events.  Each event meets, in the state it finds, the
  condition under which the kernel touches only the frames it means: a start stays within the kernel's map, a mapping
  spares what is in use.  Over all such runs every directory has one owner, frames are conserved, the kernel half of
  every directory agrees, and frames are lost exactly by harmful starts.
 */
module ProgramRuns {
  import opened Bytes
  import opened Frames
  import opened PageTables
  import opened AddressSpace
  import opened Paging
  import opened ElfImage
  import opened Exec
  import opened FrameLoss
  import opened IdentityMap
  import opened KernelReach
  import S = Scheduler

  /** The states of a run: one owner for each directory, and a kernel that reaches what it uses. */
  ghost predicate Good(k: Kern) {
    Owned(k) && k.procs.nextPid > 0 && Reaches(k.mem)
  }

  /** The condition of an event, on the state before it. */
  ghost predicate EventOk(k: Kern, e: Event)
    requires Owned(k)
  {
    && Typed(e)
    && match e
       case Exec(d) => Within(k.mem, d)
       case MapLow(virt, phys, _) => MapSpares(k.mem, virt, phys)
       case _ => true
  }

  lemma BuryReaches(k: Kern, i: nat)
    requires Owned(k) && Reaches(k.mem) && i < S.MAX
    ensures var m := Bury(k, i).mem;
            |m.mem| == TOTAL && m.k.pd < TOTAL && Reaches(m)
  {
    hide Reaches, Destroy, RoleOk;
    if k.procs.table[i].pd != 0 {
      DestroyReaches(k.mem, IndexOf(k.procs.table[i].pd));
    }
  }

  lemma StepReaches(k: Kern, e: Event)
    requires Good(k) && EventOk(k, e)
    ensures var m := Step(k, e).mem;
            |m.mem| == TOTAL && m.k.pd < TOTAL && Reaches(m)
  {
    CurUsed(k);
    OwnedMemory(k);
    KernelInMemory(k.mem);
    hide Owned, Inv, Reaches, ExecImage, Bury, MapKernel, S.Step, Within;
    match e
    case Exec(d) => ExecReaches(k, d);
    case Kill(pid) =>
      var i := S.FirstKillable(k.procs.table, pid, 0);
      if i < S.MAX {
        BuryReaches(k, i);
      }
    case Exit =>
      if k.procs.cur >= 0 {
        BuryReaches(k, k.procs.cur);
      }
    case MapLow(virt, phys, flags) => MapLowReachesIff(k.mem, virt, phys, flags);
    case Proc(_) =>
  }

  /**
    Every event that meets its condition keeps one owner for each directory, what the kernel reaches, and the
    frames.
   */
  lemma StepKeeps(k: Kern, e: Event)
    requires Good(k) && EventOk(k, e)
    ensures Good(Step(k, e)) && Pool(Step(k, e).mem) == Pool(k.mem)
  {
    hide Owned, Reaches, Step, EventOk;
    EventTyped(k, e);
    StepOwns(k, e);
    StepReaches(k, e);
  }

  lemma EventTyped(k: Kern, e: Event)
    requires Owned(k) && EventOk(k, e)
    ensures Typed(e)
  {
  }

  /** Every event of the run meets its condition in the state it finds. */
  ghost predicate RunOk(k: Kern, es: seq<Event>)
    requires Good(k)
    decreases |es|, 0
  {
    es == [] || (RunOk(k, es[..|es| - 1]) && EventOk(Run(k, es[..|es| - 1]), es[|es| - 1]))
  }

  ghost function Run(k: Kern, es: seq<Event>): (r: Kern)
    requires Good(k) && RunOk(k, es)
    ensures Good(r) && Pool(r.mem) == Pool(k.mem)
    decreases |es|, 1
  {
    if es == [] then k
    else
      var m := Run(k, es[..|es| - 1]);
      StepKeeps(m, es[|es| - 1]);
      Step(m, es[|es| - 1])
  }

  /** The state after paging_init and process_init, where every run may start. */
  lemma BootGood(s: Sys)
    requires Inv(s) && Identity(s) && s.owner == map[]
    ensures Good(Kern(s, S.Initial()))
  {
    hide Reaches, Owned, Identity;
    BootReaches(s);
    BootOwned(s);
  }

  /** In every reachable state the directory of every process translates the first 8 MB as the kernel directory does. */
  lemma KernelHalfOverRuns(k: Kern, es: seq<Event>, i: nat, p: nat)
    requires Good(k) && RunOk(k, es)
    requires i < S.MAX && Run(k, es).procs.table[i].pd != 0 && p < 2048
    ensures var m := Run(k, es).mem;
            && IndexOf(Run(k, es).procs.table[i].pd) < TOTAL
            && Pte(m, IndexOf(Run(k, es).procs.table[i].pd), p) == Pte(m, m.k.pd, p)
  {
    hide Run, RunOk, RoleOk, Pte, Reaches;
    KernelHalfAgrees(Run(k, es).mem, IndexOf(Run(k, es).procs.table[i].pd), p);
  }

  /** In every reachable state the kernel reaches the directory, the tables and the leaves of every process. */
  lemma ReachedOverRuns(k: Kern, es: seq<Event>, f: nat)
    requires Good(k) && RunOk(k, es) && f in Run(k, es).mem.owner
    ensures var m := Run(k, es).mem;
            f < TOTAL && |m.mem| == TOTAL && m.k.pd < TOTAL && PageAt(m, m.k.pd, f) == Some(m.mem[f])
  {
    hide Run, RunOk, RoleOk, PageAt, Reach;
    ReachReads(Run(k, es).mem, f);
  }

  // ---------------------------------------------------------------- loss

  /** Every start in the run is harmless in the state it meets. */
  ghost predicate RunHarmless(k: Kern, es: seq<Event>)
    requires Good(k) && RunOk(k, es)
  {
    es == [] ||
    (RunHarmless(k, es[..|es| - 1]) &&
     (EventTyped(Run(k, es[..|es| - 1]), es[|es| - 1]);
      HarmlessStep(Run(k, es[..|es| - 1]), es[|es| - 1])))
  }

  /** Over any run, no frame is lost if and only if every start in it is harmless. */
  lemma {:induction false} RunLossIff(k: Kern, es: seq<Event>)
    requires Good(k) && RunOk(k, es)
    ensures LostFrames(k.mem) <= LostFrames(Run(k, es).mem)
    ensures LostFrames(Run(k, es).mem) == LostFrames(k.mem) <==> RunHarmless(k, es)
  {
    hide Owned, Reaches, LostFrames, HarmlessStep, Step, EventOk;
    if es != [] {
      var front, e := es[..|es| - 1], es[|es| - 1];
      RunLossIff(k, front);
      EventTyped(Run(k, front), e);
      StepLossIff(Run(k, front), e);
    }
  }

  ghost predicate StartsClean(e: Event) {
    Typed(e) && (e.Exec? ==> CleanImage(e.image))
  }

  lemma CleanStepHarmless(k: Kern, e: Event)
    requires StartsClean(e)
    ensures Typed(e) && HarmlessStep(k, e)
  {
    hide CleanImage, Harmless, UserImage;
    if e.Exec? {
      HarmlessWhen(e.image, |k.mem.free|);
    }
  }

  /** Runs that start clean images only lose nothing. */
  lemma {:induction false} CleanRunsHarmless(k: Kern, es: seq<Event>)
    requires Good(k) && RunOk(k, es) && forall i :: 0 <= i < |es| ==> StartsClean(es[i])
    ensures RunHarmless(k, es)
  {
    hide Owned, Reaches, HarmlessStep, Run, StartsClean, EventOk;
    if es != [] {
      var front, e := es[..|es| - 1], es[|es| - 1];
      CleanRunsHarmless(k, front);
      CleanStepHarmless(Run(k, front), e);
    }
  }

  /**
    Once no process owns a directory any more, every frame that was ever in the pool and not lost before the run is free
    again, if and only if every start of the run was harmless.
   */
  lemma AllDeadAllFree(k: Kern, es: seq<Event>)
    requires Good(k) && RunOk(k, es)
    requires forall i :: 0 <= i < S.MAX ==> Run(k, es).procs.table[i].pd == 0
    ensures Run(k, es).mem.free == Pool(k.mem) - LostFrames(k.mem) <==> RunHarmless(k, es)
  {
    hide Run, RunOk, Owned, Reaches, RunHarmless, LostFrames, Pool;
    RunLossIff(k, es);
    FreeWhenAllDead(Run(k, es));
    LostInPool(Run(k, es).mem);
  }

  lemma LostInPool(s: Sys)
    ensures LostFrames(s) <= Pool(s)
  {
  }
}
