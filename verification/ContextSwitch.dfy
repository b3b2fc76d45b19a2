/**
  The stack-swap protocol of process_yield (kernel/process.asm) at word level.  The process table is one
  stretch of memory: word 0 of each entry is the saved stack pointer, the kernel stack fills the entry from word 15 on.
  The theorem is that this protocol implements private contexts: whatever the others do on their
  own stacks, a process resumes with the registers, return address and stack it left.
 */
module ContextSwitch {
  import opened Bytes
  import S = Scheduler

  /** sizeof(process_t) and the offset of kstack, in words. */
  const ENTRY: nat := 2063
  const KSTACK: nat := 15
  const SIZE: nat := S.MAX * ENTRY

  /** Where the saved stack pointer of slot i is, where its stack starts and where it ends. */
  function EspAt(i: nat): nat { ENTRY * i }
  function Low(i: nat): nat { ENTRY * i + KSTACK }
  function Top(i: nat): nat { ENTRY * i + ENTRY }

  datatype Regs = Regs(ebx: word, esi: word, edi: word, ebp: word, esp: word, eip: word)

  /** Word addresses count from the start of the process table. */
  datatype Machine = Machine(mem: seq<word>, regs: Regs, procs: S.Sched)

  /**
    What a process owns of the processor: callee-saved registers, where it goes on, and its stack from the stack
    pointer up.
   */
  datatype Context = Context(ebx: word, esi: word, edi: word, ebp: word, eip: word, stack: seq<word>)

  predicate HasFrame(mem: seq<word>, i: nat) {
    |mem| == SIZE && i < S.MAX && Low(i) <= mem[EspAt(i)] <= Top(i) - 5
  }

  /** The context of a process that is switched out, read back from its stack. */
  function Suspended(mem: seq<word>, i: nat): Context
    requires HasFrame(mem, i)
  {
    var e := mem[EspAt(i)];
    Context(mem[e], mem[e + 1], mem[e + 2], mem[e + 3], mem[e + 4], mem[e + 5..Top(i)])
  }

  predicate OnStack(m: Machine) {
    |m.mem| == SIZE && 0 <= m.procs.cur < S.MAX && Low(m.procs.cur) <= m.regs.esp <= Top(m.procs.cur)
  }

  function Live(m: Machine): Context
    requires OnStack(m)
  {
    var r := m.regs;
    Context(r.ebx, r.esi, r.edi, r.ebp, r.eip, m.mem[r.esp..Top(m.procs.cur)])
  }

  /** The current process is on its own stack and every other process of the table has a frame to return to. */
  predicate Ok(m: Machine) {
    && OnStack(m) && S.TableOk(m.procs)
    && forall i :: 0 <= i < m.procs.nextPid && i != m.procs.cur ==> HasFrame(m.mem, i)
  }

  function ContextOf(m: Machine, i: nat): Context
    requires Ok(m) && i < m.procs.nextPid
  {
    if i == m.procs.cur then Live(m) else Suspended(m.mem, i)
  }

  // ---------------------------------------------------------------- instructions

  function Push(m: Machine, w: word): Machine
    requires 0 < m.regs.esp <= |m.mem|
  {
    m.(mem := m.mem[m.regs.esp - 1 := w], regs := m.regs.(esp := m.regs.esp - 1))
  }

  /** The call of process_yield and its prologue, up to the store of the stack pointer. */
  function Save(m: Machine, ret: word): Machine
    requires OnStack(m) && Low(m.procs.cur) + 5 <= m.regs.esp
  {
    var r := m.regs;
    var p := Push(Push(Push(Push(Push(m, ret), r.ebp), r.edi), r.esi), r.ebx);
    p.(mem := p.mem[EspAt(m.procs.cur) := p.regs.esp])
  }

  /** A C function called from process_yield: it leaves anything at all in the words below the stack pointer. */
  function CallC(m: Machine, junk: seq<word>): (r: Machine)
    requires |junk| <= m.regs.esp <= |m.mem|
    ensures |r.mem| == |m.mem| && r.regs == m.regs && r.procs == m.procs
    ensures forall a :: 0 <= a < |m.mem| ==>
              r.mem[a] == if m.regs.esp - |junk| <= a < m.regs.esp then junk[a - (m.regs.esp - |junk|)] else m.mem[a]
  {
    var e := m.regs.esp;
    m.(mem := m.mem[..e - |junk|] + junk + m.mem[e..])
  }

  /** From the load of the new stack pointer to the return. */
  function Restore(m: Machine): Machine
    requires m.procs.cur >= 0 && HasFrame(m.mem, m.procs.cur)
  {
    var e := m.mem[EspAt(m.procs.cur)];
    m.(regs := Regs(m.mem[e], m.mem[e + 1], m.mem[e + 2], m.mem[e + 3], e + 5, m.mem[e + 4]))
  }

  /** The words process_yield needs: the return address, four registers, and what the two calls use. */
  predicate Room(m: Machine, junk1: seq<word>, junk2: seq<word>) {
    OnStack(m) && Low(m.procs.cur) + 6 + |junk1| + |junk2| <= m.regs.esp
  }

  /** process_yield up to the stack swap: save, choose, make the choice current, prepare the switch. */
  function Park(m: Machine, ret: word, junk1: seq<word>, junk2: seq<word>): Machine
    requires Room(m, junk1, junk2) && S.Shape(m.procs)
  {
    var s := CallC(Save(m, ret), junk1);
    var next := S.Switch(s.procs);
    var addr := EspAt(next.cur);
    CallC(Push(s.(procs := next, regs := s.regs.(esi := addr)), addr), junk2)
  }

  /** process_yield called from the instruction before ret. */
  function Yield(m: Machine, ret: word, junk1: seq<word>, junk2: seq<word>): Machine
    requires Ok(m) && Room(m, junk1, junk2)
  {
    ParkKeeps(m, ret, junk1, junk2);
    Restore(Park(m, ret, junk1, junk2))
  }

  // ---------------------------------------------------------------- one switch

  /** Slots overlap nowhere. */
  lemma SlotsApart(i: nat, j: nat)
    requires i < S.MAX && j < S.MAX && i != j
    ensures Top(i) <= EspAt(j) || Top(j) <= EspAt(i)
  {
  }

  /** A suspended context is fixed by its saved stack pointer and the words from there up. */
  lemma SuspendedFrame(mem: seq<word>, mem': seq<word>, i: nat)
    requires HasFrame(mem, i) && |mem'| == SIZE && mem'[EspAt(i)] == mem[EspAt(i)]
    requires forall a :: mem[EspAt(i)] <= a < Top(i) ==> mem'[a] == mem[a]
    ensures HasFrame(mem', i) && Suspended(mem', i) == Suspended(mem, i)
  {
    var e := mem[EspAt(i)];
    assert mem'[e + 5..Top(i)] == mem[e + 5..Top(i)];
  }

  /** The words the save and the two calls leave, and the words they do not touch. */
  lemma ParkMemory(m: Machine, ret: word, junk1: seq<word>, junk2: seq<word>)
    requires Room(m, junk1, junk2) && S.Shape(m.procs)
    ensures var p, c, e, r := Park(m, ret, junk1, junk2), m.procs.cur, m.regs.esp, m.regs;
            && |p.mem| == SIZE && p.procs == S.Switch(m.procs) && p.mem[EspAt(c)] == e - 5
            && p.mem[e - 5] == r.ebx && p.mem[e - 4] == r.esi && p.mem[e - 3] == r.edi && p.mem[e - 2] == r.ebp
            && p.mem[e - 1] == ret
            && (forall a :: 0 <= a < SIZE && (a < EspAt(c) || EspAt(c) < a < Low(c) || e <= a) ==> p.mem[a] == m.mem[a])
  {
    hide S.Switch;
    var v := Save(m, ret);
    SaveMemory(m, ret);
    hide Save;
    var s := CallC(v, junk1);
    assert s.procs == m.procs;
  }

  lemma SaveMemory(m: Machine, ret: word)
    requires OnStack(m) && Low(m.procs.cur) + 5 <= m.regs.esp
    ensures var v, c, e, r := Save(m, ret), m.procs.cur, m.regs.esp, m.regs;
            && |v.mem| == SIZE && v.procs == m.procs && v.regs == r.(esp := e - 5) && v.mem[EspAt(c)] == e - 5
            && v.mem[e - 5] == r.ebx && v.mem[e - 4] == r.esi && v.mem[e - 3] == r.edi && v.mem[e - 2] == r.ebp
            && v.mem[e - 1] == ret
            && (forall a :: 0 <= a < SIZE && a != EspAt(c) && !(e - 5 <= a < e) ==> v.mem[a] == m.mem[a])
  {
  }

  /** Before the swap every process is suspended with the context it had; the caller will go on at ret. */
  lemma ParkKeeps(m: Machine, ret: word, junk1: seq<word>, junk2: seq<word>)
    requires Ok(m) && Room(m, junk1, junk2)
    ensures var p := Park(m, ret, junk1, junk2);
            && p.procs == S.Switch(m.procs) && S.TableOk(p.procs)
            && p.procs.nextPid == m.procs.nextPid && 0 <= p.procs.cur < p.procs.nextPid
            && (forall i :: 0 <= i < m.procs.nextPid ==>
                  && HasFrame(p.mem, i)
                  && Suspended(p.mem, i) == if i == m.procs.cur then Live(m).(eip := ret) else Suspended(m.mem, i))
  {
    hide S.Switch, Park;
    var p, c := Park(m, ret, junk1, junk2), m.procs.cur;
    ParkMemory(m, ret, junk1, junk2);
    S.SwitchMovesNothing(m.procs);
    forall i | 0 <= i < m.procs.nextPid
      ensures HasFrame(p.mem, i)
      ensures Suspended(p.mem, i) == if i == c then Live(m).(eip := ret) else Suspended(m.mem, i)
    {
      if i == c {
        assert p.mem[m.regs.esp..Top(c)] == m.mem[m.regs.esp..Top(c)];
      } else {
        SlotsApart(i, c);
        SuspendedFrame(m.mem, p.mem, i);
      }
    }
  }

  lemma RestoreResumes(p: Machine)
    requires p.procs.cur >= 0 && HasFrame(p.mem, p.procs.cur)
    ensures var y := Restore(p);
            y.mem == p.mem && y.procs == p.procs && OnStack(y) && Live(y) == Suspended(p.mem, p.procs.cur)
  {
  }

  /** One switch changes no context but for where the caller goes on: the stack protocol is a change of cur alone. */
  lemma YieldTransparent(m: Machine, ret: word, junk1: seq<word>, junk2: seq<word>)
    requires Ok(m) && Room(m, junk1, junk2)
    ensures var y := Yield(m, ret, junk1, junk2);
            && Ok(y) && y.procs == S.Switch(m.procs) && y.procs.nextPid == m.procs.nextPid
            && (forall i :: 0 <= i < m.procs.nextPid ==>
                  ContextOf(y, i) == if i == m.procs.cur then Live(m).(eip := ret) else ContextOf(m, i))
  {
    assert S.Shape(m.procs);
    hide S.Switch, Park, Restore, Suspended, Live, S.TableOk;
    ParkKeeps(m, ret, junk1, junk2);
    RestoreResumes(Park(m, ret, junk1, junk2));
  }

  // ---------------------------------------------------------------- the other steps

  /** build_initial_kstack: a return address and four zeros at the top of slot i's stack. */
  function NewStack(mem: seq<word>, i: nat, entry: word): (r: seq<word>)
    requires |mem| == SIZE && i < S.MAX
  {
    var t := Top(i);
    mem[t - 1 := entry][t - 2 := 0][t - 3 := 0][t - 4 := 0][t - 5 := 0][EspAt(i) := t - 5]
  }

  /** A new process starts with four zero registers at its entry, on an empty stack. */
  function Fresh(entry: word): Context {
    Context(0, 0, 0, 0, entry, [])
  }

  lemma NewStackStarts(mem: seq<word>, i: nat, entry: word)
    requires |mem| == SIZE && i < S.MAX
    ensures HasFrame(NewStack(mem, i, entry), i) && Suspended(NewStack(mem, i, entry), i) == Fresh(entry)
  {
  }

  /** One step of the kernel as the current process sees it. */
  datatype Event =
    /** Anything the current process, or an interrupt on its stack, does with its registers and its own stack. */
    | Work(regs: Regs, stack: seq<word>)
    /** process_yield, process_block, process_exit: the scheduler's event, then process_yield. */
    | Leave(e: S.Event, ret: word, junk1: seq<word>, junk2: seq<word>)
    /** process_create and process_create_user. */
    | Spawn(birth: S.Birth, entry: word)
    /** Kills and wake-ups. */
    | Other(e: S.Event)

  /** What the scheduler's event does before process_yield is called. */
  function Before(s: S.Sched, e: S.Event): S.Sched
    requires S.Shape(s) && s.cur >= 0
  {
    if e.Block? then S.SetStatus(s, s.cur, S.Blocked) else if e.Exit? then S.Retire(s, s.cur) else s
  }

  /** Processes stay on their own kernel stacks. */
  predicate Confined(m: Machine, e: Event)
    requires OnStack(m)
  {
    match e
    case Work(regs, stack) => |stack| == ENTRY - KSTACK && Low(m.procs.cur) <= regs.esp <= Top(m.procs.cur)
    case Leave(x, _, j1, j2) => S.Switches(x) && Room(m, j1, j2)
    case Spawn(_, _) => true
    case Other(x) => x.Kill? || x.WakeAll? || x.Wake?
  }

  function Step(m: Machine, e: Event): Machine
    requires Ok(m) && Confined(m, e)
  {
    match e
    case Work(regs, stack) =>
      var c := m.procs.cur;
      m.(mem := m.mem[..Low(c)] + stack + m.mem[Top(c)..], regs := regs)
    case Leave(x, ret, j1, j2) =>
      BeforeOk(m, x);
      Yield(m.(procs := Before(m.procs, x)), ret, j1, j2)
    case Spawn(b, entry) =>
      var (procs, slot) := S.CreateProc(m.procs, b);
      if slot < 0 then m else m.(procs := procs, mem := NewStack(m.mem, slot, entry))
    case Other(x) => m.(procs := S.Step(m.procs, x))
  }

  lemma BeforeOk(m: Machine, e: S.Event)
    requires Ok(m)
    ensures var b := m.(procs := Before(m.procs, e));
            && Ok(b) && b.procs.nextPid == m.procs.nextPid && b.procs.cur == m.procs.cur
            && (forall i :: 0 <= i < m.procs.nextPid ==> ContextOf(b, i) == ContextOf(m, i))
  {
  }

  /** Where a process goes on after an event of its own that switches away. */
  function After(c: Context, e: Event): Context {
    if e.Leave? then c.(eip := e.ret) else c
  }

  /** What one step may do to the contexts: only the current process changes its own, by working. */
  ghost predicate KeepsContexts(m: Machine, e: Event, m': Machine)
    requires Ok(m) && Ok(m') && m.procs.nextPid <= m'.procs.nextPid
  {
    forall i :: 0 <= i < m.procs.nextPid && !(e.Work? && i == m.procs.cur) ==>
      ContextOf(m', i) == if i == m.procs.cur then After(ContextOf(m, i), e) else ContextOf(m, i)
  }

  lemma WorkKeeps(m: Machine, e: Event)
    requires Ok(m) && Confined(m, e) && e.Work?
    ensures Ok(Step(m, e)) && KeepsContexts(m, e, Step(m, e))
  {
    var m', c := Step(m, e), m.procs.cur;
    forall i | 0 <= i < m.procs.nextPid && i != c
      ensures HasFrame(m'.mem, i) && Suspended(m'.mem, i) == Suspended(m.mem, i)
    {
      SlotsApart(i, c);
      SuspendedFrame(m.mem, m'.mem, i);
    }
  }

  lemma LeaveKeeps(m: Machine, e: Event)
    requires Ok(m) && Confined(m, e) && e.Leave?
    ensures Ok(Step(m, e)) && Step(m, e).procs.nextPid == m.procs.nextPid && KeepsContexts(m, e, Step(m, e))
    ensures Step(m, e).procs == S.Step(m.procs, e.e)
  {
    hide Yield, S.Switch, Suspended, Live;
    var b := m.(procs := Before(m.procs, e.e));
    BeforeOk(m, e.e);
    YieldTransparent(b, e.ret, e.junk1, e.junk2);
    assert Live(m) == ContextOf(m, m.procs.cur) == ContextOf(b, m.procs.cur);
  }

  lemma SpawnKeeps(m: Machine, e: Event)
    requires Ok(m) && Confined(m, e) && e.Spawn?
    ensures var m' := Step(m, e);
            && Ok(m') && m.procs.nextPid <= m'.procs.nextPid && KeepsContexts(m, e, m')
            && (m.procs.nextPid < S.MAX ==>
                  m'.procs.nextPid == m.procs.nextPid + 1 && ContextOf(m', m.procs.nextPid) == Fresh(e.entry))
  {
    hide S.CreateProc;
    var m', n := Step(m, e), m.procs.nextPid;
    S.CreateKeeps(m.procs, e.birth);
    if n < S.MAX {
      NewStackStarts(m.mem, n, e.entry);
      forall i | 0 <= i < n
        ensures forall a :: EspAt(i) <= a < Top(i) ==> m'.mem[a] == m.mem[a]
      {
        SlotsApart(i, n);
      }
      forall i | 0 <= i < n && i != m.procs.cur
        ensures HasFrame(m'.mem, i) && Suspended(m'.mem, i) == Suspended(m.mem, i)
      {
        SuspendedFrame(m.mem, m'.mem, i);
      }
      var c := m.procs.cur;
      assert m'.mem[m.regs.esp..Top(c)] == m.mem[m.regs.esp..Top(c)];
    }
  }

  lemma StepKeeps(m: Machine, e: Event)
    requires Ok(m) && Confined(m, e)
    ensures var m' := Step(m, e);
            Ok(m') && m.procs.nextPid <= m'.procs.nextPid && KeepsContexts(m, e, m')
  {
    match e
    case Work(_, _) => WorkKeeps(m, e);
    case Leave(_, _, _, _) => LeaveKeeps(m, e);
    case Spawn(_, _) => SpawnKeeps(m, e);
    case Other(x) => OtherKeeps(m, e);
  }

  lemma OtherKeeps(m: Machine, e: Event)
    requires Ok(m) && Confined(m, e) && e.Other?
    ensures Ok(Step(m, e)) && Step(m, e).procs.nextPid == m.procs.nextPid && KeepsContexts(m, e, Step(m, e))
  {
    S.EventKeepsTable(m.procs, e.e);
  }

  /**
    The first switch of all, made with no current process: it resumes the process it picks, the idle one if that
    can run, and leaves every context as its stack has it.
   */
  lemma FirstSwitch(mem: seq<word>, regs: Regs, procs: S.Sched)
    requires |mem| == SIZE && S.TableOk(procs) && procs.nextPid > 0 && procs.cur < 0
    requires forall i :: 0 <= i < procs.nextPid ==> HasFrame(mem, i)
    ensures var q := S.Switch(procs);
            && 0 <= q.cur < procs.nextPid == q.nextPid && (S.IdleOk(procs) ==> q.cur == 0)
            && var m := Restore(Machine(mem, regs, q));
               && Ok(m) && Live(m) == Suspended(mem, q.cur)
               && (forall i :: 0 <= i < procs.nextPid ==> ContextOf(m, i) == Suspended(mem, i))
  {
    S.SwitchMovesNothing(procs);
    FirstIsIdle(procs);
    hide S.Switch, Restore, Suspended, Live;
    RestoreResumes(Machine(mem, regs, S.Switch(procs)));
  }

  lemma FirstIsIdle(s: S.Sched)
    requires S.TableOk(s) && s.nextPid > 0 && s.cur < 0
    ensures S.Switch(s).cur == S.Pick(s) < s.nextPid && (S.IdleOk(s) ==> S.Switch(s).cur == 0)
  {
    S.PickUsed(s);
  }

  // ---------------------------------------------------------------- runs

  ghost predicate RunOk(m: Machine, es: seq<Event>)
    requires Ok(m)
    decreases |es|
  {
    es == [] || (Confined(m, es[0]) && (StepKeeps(m, es[0]); RunOk(Step(m, es[0]), es[1..])))
  }

  ghost function Run(m: Machine, es: seq<Event>): (r: Machine)
    requires Ok(m) && RunOk(m, es)
    ensures Ok(r) && m.procs.nextPid <= r.procs.nextPid
    decreases |es|
  {
    if es == [] then m
    else
      StepKeeps(m, es[0]);
      Run(Step(m, es[0]), es[1..])
  }

  /** Process p gets the processor in no state of the run before the last. */
  ghost predicate Away(m: Machine, es: seq<Event>, p: nat)
    requires Ok(m) && RunOk(m, es)
    decreases |es|
  {
    es == [] || (m.procs.cur != p && (StepKeeps(m, es[0]); Away(Step(m, es[0]), es[1..], p)))
  }

  /** While a process is away nobody changes its context. */
  lemma {:induction false} AwayKeeps(m: Machine, es: seq<Event>, p: nat)
    requires Ok(m) && RunOk(m, es) && p < m.procs.nextPid && Away(m, es, p)
    ensures ContextOf(Run(m, es), p) == ContextOf(m, p)
    decreases |es|
  {
    hide ContextOf, Step;
    if es != [] {
      StepKeeps(m, es[0]);
      AwayKeeps(Step(m, es[0]), es[1..], p);
    }
  }

  lemma LiveContext(m: Machine)
    requires Ok(m)
    ensures 0 <= m.procs.cur < m.procs.nextPid && ContextOf(m, m.procs.cur) == Live(m)
  {
  }

  /** The stack pointer is where the stack starts. */
  lemma SameStack(a: Machine, b: Machine)
    requires OnStack(a) && OnStack(b) && a.procs.cur == b.procs.cur
    ensures Live(a).stack == Live(b).stack ==> a.regs.esp == b.regs.esp
  {
    assert |Live(a).stack| == Top(a.procs.cur) - a.regs.esp;
    assert |Live(b).stack| == Top(b.procs.cur) - b.regs.esp;
  }

  /**
    Transparency: the current process leaves, anything happens on other stacks, and when it is current again it has the
    same registers, the same stack, and goes on at the return address.
   */
  lemma ResumesAsLeft(m: Machine, e: Event, es: seq<Event>)
    requires Ok(m) && e.Leave? && Confined(m, e) && Ok(Step(m, e)) && RunOk(Step(m, e), es)
    requires Away(Step(m, e), es, m.procs.cur) && Run(Step(m, e), es).procs.cur == m.procs.cur
    ensures Live(Run(Step(m, e), es)) == Live(m).(eip := e.ret)
    ensures Run(Step(m, e), es).regs.esp == m.regs.esp
  {
    hide Step, Run, RunOk, Away, ContextOf, Live, S.TableOk;
    LiveContext(m);
    LeaveKeeps(m, e);
    AwayKeeps(Step(m, e), es, m.procs.cur);
    LiveContext(Run(Step(m, e), es));
    SameStack(m, Run(Step(m, e), es));
  }

  /** A new process is first resumed with four zeros in its registers, at its entry, on an empty stack. */
  lemma StartsFresh(m: Machine, e: Event, es: seq<Event>)
    requires Ok(m) && e.Spawn? && m.procs.nextPid < S.MAX && Ok(Step(m, e)) && RunOk(Step(m, e), es)
    requires Away(Step(m, e), es, m.procs.nextPid) && Run(Step(m, e), es).procs.cur == m.procs.nextPid
    ensures Live(Run(Step(m, e), es)) == Fresh(e.entry)
    ensures Run(Step(m, e), es).regs.esp == Top(m.procs.nextPid)
  {
    hide Step, Run, RunOk, Away, ContextOf, S.TableOk;
    SpawnKeeps(m, e);
    AwayKeeps(Step(m, e), es, m.procs.nextPid);
    LiveContext(Run(Step(m, e), es));
  }

  // ---------------------------------------------------------------- every yield returns

  function CountLeaves(es: seq<Event>): nat
    decreases |es|
  {
    if es == [] then 0 else (if es[0].Leave? then 1 else 0) + CountLeaves(es[1..])
  }

  /** p is current after the first k events, with context c. */
  ghost predicate BackAfter(m: Machine, es: seq<Event>, k: nat, p: nat, c: Context)
    requires Ok(m)
  {
    k <= |es| && RunOk(m, es[..k]) && Run(m, es[..k]).procs.cur == p && Live(Run(m, es[..k])) == c
  }

  lemma BackNow(m: Machine, es: seq<Event>)
    requires Ok(m)
    ensures BackAfter(m, es, 0, m.procs.cur, Live(m))
  {
    assert es[..0] == [];
  }

  lemma BackLater(m: Machine, es: seq<Event>, k: nat, p: nat, c: Context)
    requires Ok(m) && es != [] && Confined(m, es[0]) && Ok(Step(m, es[0]))
    requires BackAfter(Step(m, es[0]), es[1..], k, p, c)
    ensures BackAfter(m, es, k + 1, p, c)
  {
    hide Step, Live;
    assert es[..k + 1][0] == es[0] && es[..k + 1][1..] == es[1..][..k];
  }

  /** One step leaves a ready process ready and brings it closer, or makes it current. */
  lemma StepApproaches(m: Machine, e: Event, p: nat)
    requires Ok(m) && Confined(m, e) && p < m.procs.nextPid && p != m.procs.cur
    requires m.procs.table[p].status == S.Ready && e != Other(S.Event.Kill(p + 1))
    ensures var s, s' := m.procs, Step(m, e).procs;
            && 0 <= s'.cur < S.MAX && |s'.table| == S.MAX
            && (s'.cur == p || (s'.table[p].status == S.Ready
                                && S.Distance(s'.cur, p) <= S.Distance(s.cur, p) - (if e.Leave? then 1 else 0)))
  {
    hide Yield, NewStack, S.Switch;
    match e
    case Work(_, _) =>
    case Leave(x, _, _, _) =>
      LeaveKeeps(m, e);
      S.SwitchEvents(m.procs, x, p);
    case Spawn(b, _) => S.OthersWait(m.procs, S.Event.Create(b), p);
    case Other(x) => S.OthersWait(m.procs, x, p);
  }

  /** A ready process that is not killed is resumed, with its context, in any run with enough switches. */
  lemma {:induction false} ReadyResumes(m: Machine, es: seq<Event>, p: nat)
    requires Ok(m) && RunOk(m, es) && p < m.procs.nextPid && p != m.procs.cur
    requires m.procs.table[p].status == S.Ready && Other(S.Event.Kill(p + 1)) !in es
    requires CountLeaves(es) >= S.Distance(m.procs.cur, p)
    ensures exists k: nat :: BackAfter(m, es, k, p, ContextOf(m, p))
    decreases |es|
  {
    hide Step, ContextOf, BackAfter;
    var m1, rest := Step(m, es[0]), es[1..];
    StepKeeps(m, es[0]);
    StepApproaches(m, es[0], p);
    var k: nat;
    if m1.procs.cur == p {
      k := 0;
      BackNow(m1, rest);
      LiveContext(m1);
    } else {
      ReadyResumes(m1, rest, p);
      k :| BackAfter(m1, rest, k, p, ContextOf(m1, p));
    }
    BackLater(m, es, k, p, ContextOf(m, p));
  }

  /**
    Every yield returns: after process_yield by a running process, any run with sixteen further switches in which
    it is not killed reaches a state where it is current with the registers and stack it had, at its return address.
   */
  lemma YieldReturns(m: Machine, e: Event, es: seq<Event>)
    requires Ok(m) && m.procs.table[m.procs.cur].status == S.Running
    requires e.Leave? && e.e == S.Event.Yield && Confined(m, e) && Ok(Step(m, e)) && RunOk(Step(m, e), es)
    requires CountLeaves(es) >= 16 && Other(S.Event.Kill(m.procs.cur + 1)) !in es
    ensures exists k: nat :: BackAfter(Step(m, e), es, k, m.procs.cur, Live(m).(eip := e.ret))
  {
    hide Step, RunOk, BackAfter, CountLeaves;
    var m1, p := Step(m, e), m.procs.cur;
    LeaveKeeps(m, e);
    assert ContextOf(m1, p) == Live(m).(eip := e.ret);
    if m1.procs.cur == p {
      BackNow(m1, es);
    } else {
      YielderReady(m.procs);
      ReadyResumes(m1, es, p);
    }
  }

  lemma YielderReady(s: S.Sched)
    requires S.TableOk(s) && s.cur >= 0 && s.table[s.cur].status == S.Running && S.Switch(s).cur != s.cur
    ensures S.Switch(s).table[s.cur].status == S.Ready
  {
  }
}
