/**
  The process table and the round-robin scheduler (kernel/process.c).  A run is any sequence of
  yields, blocks, exits, creations, kills and wake-ups; two theorems cover all of them: what
  the table always looks like, and how long a ready process can be passed over.
 */
module Scheduler {
  import opened Bytes

  const MAX: nat := 16

  datatype Status = Unused | Ready | Running | Blocked | Zombie

  /** One table slot; pd is the physical address of the page directory the process owns, 0 for none. */
  datatype Proc = Proc(status: Status, pid: nat, pd: word, eip: word, esp: word)

  /** What a process is created with: its directory, and where it starts in user mode; all 0 for a kernel thread. */
  datatype Birth = Birth(pd: word, eip: word, esp: word)

  const KERNEL_THREAD: Birth := Birth(0, 0, 0)

  const UNUSED_PROC: Proc := Proc(Unused, 0, 0, 0, 0)

  /** cur is the slot of the current process, -1 before the first switch. */
  datatype Sched = Sched(table: seq<Proc>, cur: int, nextPid: nat)

  predicate Shape(s: Sched) {
    |s.table| == MAX && -1 <= s.cur < MAX
  }

  function SetStatus(s: Sched, i: nat, x: Status): Sched
    requires i < |s.table|
  {
    s.(table := s.table[i := s.table[i].(status := x)])
  }

  // ---------------------------------------------------------------- the calls

  /** First slot at or after i in use state x, or MAX. */
  function FirstWith(t: seq<Proc>, x: Status, i: nat): (k: nat)
    requires i <= |t|
    ensures i <= k <= |t|
    ensures k < |t| ==> t[k].status == x
    ensures forall j :: i <= j < k ==> t[j].status != x
    decreases |t| - i
  {
    if i == |t| || t[i].status == x then i else FirstWith(t, x, i + 1)
  }

  /** process_create and process_create_user: the slot taken, or -1 when the table is full. */
  function CreateProc(s: Sched, b: Birth): (r: (Sched, int))
    requires Shape(s)
  {
    var k := FirstWith(s.table, Unused, 0);
    if k == |s.table| then (s, -1)
    else (s.(table := s.table[k := Proc(Ready, s.nextPid + 1, b.pd, b.eip, b.esp)], nextPid := s.nextPid + 1), k as int)
  }

  predicate Killable(p: Proc, pid: nat) {
    p.pid == pid && p.status != Unused && p.status != Zombie
  }

  function FirstKillable(t: seq<Proc>, pid: nat, i: nat): (k: nat)
    requires i <= |t|
    ensures i <= k <= |t|
    ensures k < |t| ==> Killable(t[k], pid)
    ensures forall j :: i <= j < k ==> !Killable(t[j], pid)
    decreases |t| - i
  {
    if i == |t| || Killable(t[i], pid) then i else FirstKillable(t, pid, i + 1)
  }

  /** What exit and kill do to a slot; the directory is destroyed by the caller. */
  function Retire(s: Sched, i: nat): Sched
    requires i < |s.table|
  {
    s.(table := s.table[i := s.table[i].(status := Zombie, pd := 0)])
  }

  function KillProc(s: Sched, pid: nat): (r: (Sched, int))
    requires Shape(s)
  {
    var k := FirstKillable(s.table, pid, 0);
    if k == |s.table| then (s, -1) else (Retire(s, k), 0)
  }

  function WakeBlocked(s: Sched): (r: Sched)
    ensures |r.table| == |s.table| && r.cur == s.cur && r.nextPid == s.nextPid
    ensures forall i :: 0 <= i < |s.table| ==>
              r.table[i] == if s.table[i].status == Blocked then s.table[i].(status := Ready) else s.table[i]
  {
    s.(table := seq(|s.table|, i requires 0 <= i < |s.table| =>
      if s.table[i].status == Blocked then s.table[i].(status := Ready) else s.table[i]))
  }

  function WakeProc(s: Sched, i: nat): Sched
    requires i < |s.table|
  {
    if s.table[i].status == Blocked then SetStatus(s, i, Ready) else s
  }

  /** The slot i steps after c, round the table. */
  function Around(c: nat, i: nat): (k: nat)
    ensures k < MAX
  {
    (c + i) % MAX
  }

  /** The least number of steps, from i on, to a ready slot; MAX + 1 when there is none. */
  function Steps(t: seq<Proc>, c: nat, i: nat): (k: nat)
    requires |t| == MAX && c < MAX && 1 <= i <= MAX + 1
    ensures i <= k <= MAX + 1
    ensures k <= MAX ==> t[Around(c, k)].status == Ready
    ensures forall j :: i <= j < k ==> t[Around(c, j)].status != Ready
    decreases MAX + 1 - i
  {
    if i > MAX || t[Around(c, i)].status == Ready then i else Steps(t, c, i + 1)
  }

  /** The first slot that is ready or running, or 0: the first choice of all. */
  function FirstRunnable(t: seq<Proc>, i: nat): (k: nat)
    requires i <= |t| && |t| > 0
    ensures k < |t| && (k == 0 || t[k].status == Ready || t[k].status == Running)
    decreases |t| - i
  {
    if i == |t| then 0 else if t[i].status == Ready || t[i].status == Running then i else FirstRunnable(t, i + 1)
  }

  /** A running current process goes back to ready before the search. */
  function Demoted(s: Sched): Sched
    requires Shape(s)
  {
    if s.cur >= 0 && s.table[s.cur].status == Running then SetStatus(s, s.cur, Ready) else s
  }

  /** The slot sched_next picks. */
  function Pick(s: Sched): (k: nat)
    requires Shape(s)
    ensures k < MAX
  {
    if s.cur < 0 then FirstRunnable(s.table, 0)
    else
      var i := Steps(Demoted(s).table, s.cur, 1);
      if i <= MAX then Around(s.cur, i) else 0
  }

  /** sched_next and the assignment to current_process that follows it. */
  function Switch(s: Sched): Sched
    requires Shape(s)
  {
    SetStatus(Demoted(s), Pick(s), Running).(cur := Pick(s))
  }

  // ---------------------------------------------------------------- events and runs

  datatype Event = Yield | Block | Exit | Create(birth: Birth) | Kill(pid: nat) | WakeAll | Wake(slot: nat)

  predicate Switches(e: Event) {
    e.Yield? || e.Block? || e.Exit?
  }

  function Step(s: Sched, e: Event): (r: Sched)
    requires Shape(s)
    ensures Shape(r)
  {
    match e
    case Yield => Switch(s)
    case Block => Switch(if s.cur >= 0 then SetStatus(s, s.cur, Blocked) else s)
    case Exit => Switch(if s.cur >= 0 then Retire(s, s.cur) else s)
    case Create(b) => CreateProc(s, b).0
    case Kill(pid) => KillProc(s, pid).0
    case WakeAll => WakeBlocked(s)
    case Wake(slot) => if slot < MAX then WakeProc(s, slot) else s
  }

  function Run(s: Sched, es: seq<Event>): (r: Sched)
    requires Shape(s)
    ensures Shape(r)
    decreases |es|
  {
    if es == [] then s else Run(Step(s, es[0]), es[1..])
  }

  // ---------------------------------------------------------------- the table invariant

  /** Used slots are a prefix numbered from PID 1; only the current slot can be running. */
  predicate TableOk(s: Sched) {
    && Shape(s) && s.nextPid <= MAX
    && (forall i :: 0 <= i < MAX ==>
          if i < s.nextPid then s.table[i].status != Unused && s.table[i].pid == i + 1
          else s.table[i].status == Unused && s.table[i].pid == 0)
    && (forall i :: 0 <= i < MAX && s.table[i].status == Running ==> i == s.cur)
    && s.cur < s.nextPid
  }

  /** The idle process can be scheduled. */
  predicate IdleOk(s: Sched)
    requires Shape(s)
  {
    s.table[0].status == Ready || s.table[0].status == Running
  }

  /** Events that respect the idle process: it is never killed, and it neither blocks nor exits. */
  predicate SparesIdle(s: Sched, e: Event) {
    e != Kill(1) && !((e.Block? || e.Exit?) && s.cur == 0)
  }

  /** With a schedulable idle slot the search of sched_next always finds a ready process. */
  lemma NeverFallsBack(s: Sched)
    requires TableOk(s) && s.cur >= 0
    requires IdleOk(Demoted(s)) && (s.table[0].status == Running ==> s.cur == 0)
    ensures Steps(Demoted(s).table, s.cur, 1) <= MAX
    ensures Demoted(s).table[Pick(s)].status == Ready
  {
    var d := Demoted(s);
    var k := MAX - s.cur;
    assert Around(s.cur, k) == 0;
    assert d.table[0].status == Ready;
  }

  lemma SwitchKeeps(s: Sched)
    requires TableOk(s) && s.nextPid > 0
    requires s.cur >= 0 ==> IdleOk(Demoted(s))
    requires s.cur < 0 ==> IdleOk(s)
    ensures TableOk(Switch(s)) && IdleOk(Switch(s)) && Switch(s).cur >= 0
    ensures Switch(s).table[Switch(s).cur].status == Running
    ensures forall i :: 0 <= i < MAX && s.table[i].status == Zombie ==> Switch(s).table[i].status == Zombie
  {
    if s.cur >= 0 {
      NeverFallsBack(s);
    }
  }

  lemma CreateKeeps(s: Sched, b: Birth)
    requires TableOk(s)
    ensures TableOk(CreateProc(s, b).0)
    ensures CreateProc(s, b).1 == if s.nextPid < 16 then s.nextPid else -1
    ensures CreateProc(s, b).0.cur == s.cur
    ensures CreateProc(s, b).0.nextPid == if s.nextPid < 16 then s.nextPid + 1 else s.nextPid
  {
    var k := FirstWith(s.table, Unused, 0);
    assert s.nextPid < MAX ==> s.table[s.nextPid].status == Unused;
    assert k < MAX ==> k == s.nextPid;
  }

  /** A switch moves no directory and wakes no slot that owns one from the dead. */
  lemma SwitchMovesNothing(s: Sched)
    requires TableOk(s) && s.nextPid > 0
    ensures TableOk(Switch(s)) && Switch(s).nextPid == s.nextPid && Switch(s).cur >= 0
    ensures forall i :: 0 <= i < MAX ==> Switch(s).table[i].pd == s.table[i].pd
    ensures forall i :: 0 <= i < MAX && s.table[i].status != Unused && s.table[i].status != Zombie ==>
              Switch(s).table[i].status != Unused && Switch(s).table[i].status != Zombie
  {
    DemotedTable(s);
    PickUsed(s);
    hide Demoted, Pick;
  }

  lemma DemotedTable(s: Sched)
    requires TableOk(s)
    ensures var d := Demoted(s);
            && TableOk(d) && d.nextPid == s.nextPid && d.cur == s.cur
            && (forall i :: 0 <= i < MAX ==> d.table[i].status != Running && d.table[i].pd == s.table[i].pd)
            && (forall i :: 0 <= i < MAX && d.table[i].status != s.table[i].status ==> d.table[i].status == Ready)
            && (forall i :: 0 <= i < MAX && s.table[i].status == Zombie ==> d.table[i].status == Zombie)
  {
  }

  lemma PickUsed(s: Sched)
    requires TableOk(s) && s.nextPid > 0
    ensures Pick(s) < s.nextPid
  {
    DemotedTable(s);
    hide Demoted;
  }

  /** Every event, whatever it does to the idle process, keeps the table well formed. */
  lemma EventKeepsTable(s: Sched, e: Event)
    requires TableOk(s) && s.nextPid > 0
    ensures TableOk(Step(s, e)) && Step(s, e).nextPid >= s.nextPid
    ensures if Switches(e) then Step(s, e).cur >= 0 else Step(s, e).cur == s.cur
  {
    hide Switch, KillProc, CreateProc, WakeBlocked;
    match e
    case Yield => SwitchMovesNothing(s);
    case Block => SwitchMovesNothing(if s.cur >= 0 then SetStatus(s, s.cur, Blocked) else s);
    case Exit => SwitchMovesNothing(if s.cur >= 0 then Retire(s, s.cur) else s);
    case Create(b) => CreateKeeps(s, b);
    case Kill(pid) => KillHits(s, pid);
    case WakeAll =>
    case Wake(slot) =>
  }

  /** No event changes where a process started. */
  lemma StartsKept(s: Sched, e: Event)
    requires TableOk(s) && s.nextPid > 0
    ensures forall i :: 0 <= i < s.nextPid ==>
              Step(s, e).table[i].eip == s.table[i].eip && Step(s, e).table[i].esp == s.table[i].esp
  {
    hide KillProc, WakeBlocked, Pick;
    match e
    case Kill(pid) => KillHits(s, pid);
    case Create(b) => CreateKeeps(s, b);
    case _ =>
  }

  /** Only a process that calls process_block becomes blocked. */
  lemma BlocksOnlySelf(s: Sched, e: Event)
    requires TableOk(s) && s.nextPid > 0
    ensures forall i :: 0 <= i < MAX && Step(s, e).table[i].status == Blocked ==>
              s.table[i].status == Blocked || (e == Block && i == s.cur)
  {
    hide KillProc, WakeBlocked, Pick;
    match e
    case Kill(pid) => KillHits(s, pid);
    case _ =>
  }

  /** PID and slot determine each other, so a kill hits the one live process of that PID. */
  lemma KillHits(s: Sched, pid: nat)
    requires TableOk(s)
    ensures TableOk(KillProc(s, pid).0)
    ensures KillProc(s, pid).1 == 0 <==> 1 <= pid <= s.nextPid && s.table[pid - 1].status != Zombie
    ensures KillProc(s, pid).0 == if KillProc(s, pid).1 == 0 then Retire(s, pid - 1) else s
  {
    var k := FirstKillable(s.table, pid, 0);
    if 1 <= pid <= s.nextPid && s.table[pid - 1].status != Zombie {
      assert Killable(s.table[pid - 1], pid);
    }
  }

  /** After a kill that is answered with 0 the process is dead and owns nothing, and no other slot has changed. */
  lemma KillKills(s: Sched, pid: nat)
    requires TableOk(s)
    ensures var (r, answer) := KillProc(s, pid);
            && answer == (if 1 <= pid <= s.nextPid && s.table[pid - 1].status != Zombie then 0 else -1)
            && (answer == 0 ==>
                  && r.table[pid - 1].status == Zombie && r.table[pid - 1].pd == 0 && r.cur == s.cur
                  && forall i :: 0 <= i < MAX && i != pid - 1 ==> r.table[i] == s.table[i])
            && (answer == -1 ==> r == s)
  {
    KillHits(s, pid);
  }

  /** After process_exit the process is dead and owns nothing, and another one runs. */
  lemma ExitKills(s: Sched)
    requires TableOk(s) && s.nextPid > 0 && IdleOk(s) && s.cur > 0
    ensures var r := Step(s, Exit);
            r.table[s.cur].status == Zombie && r.table[s.cur].pd == 0 && r.cur != s.cur
  {
    var d := Retire(s, s.cur);
    assert d.table[s.cur].status == Zombie && d.table[s.cur].pd == 0;
    RetireKeeps(s, s.cur);
    SwitchKeeps(d);
    SwitchMovesNothing(d);
  }

  /** After process_block the process is blocked, and another one runs. */
  lemma BlockBlocks(s: Sched)
    requires TableOk(s) && s.nextPid > 0 && IdleOk(s) && s.cur > 0
    ensures Step(s, Block).table[s.cur].status == Blocked && Step(s, Block).cur != s.cur
  {
    var d := SetStatus(s, s.cur, Blocked);
    assert d.table[s.cur].status == Blocked;
    SwitchKeeps(d);
    BlockedStays(d);
  }

  /** process_wake makes a blocked process ready and changes nothing else. */
  lemma WakeReadies(s: Sched, i: nat)
    requires Shape(s) && i < MAX
    ensures var r := Step(s, Wake(i));
            && r.table[i].status == (if s.table[i].status == Blocked then Ready else s.table[i].status)
            && r.cur == s.cur && forall j :: 0 <= j < MAX && j != i ==> r.table[j] == s.table[j]
  {
  }

  lemma RetireKeeps(s: Sched, i: nat)
    requires TableOk(s) && i < s.nextPid
    ensures TableOk(Retire(s, i))
  {
  }

  /** Every event keeps the table well formed; sparing the idle process also keeps it schedulable and zombies dead. */
  lemma StepKeeps(s: Sched, e: Event)
    requires TableOk(s) && s.nextPid > 0 && IdleOk(s) && SparesIdle(s, e)
    ensures Keeps(s, Step(s, e))
  {
    hide Switch, KillProc, CreateProc, WakeBlocked, Pick;
    match e
    case Yield =>
      SwitchKeeps(s);
      SwitchPids(s);
    case Block => BlockKeeps(s);
    case Exit => ExitKeeps(s);
    case Create(b) => CreateSpares(s, b);
    case Kill(pid) => KillSpares(s, pid);
    case WakeAll =>
    case Wake(slot) =>
  }

  /** What every step promises. */
  ghost predicate Keeps(s: Sched, r: Sched)
    requires TableOk(s)
  {
    TableOk(r) && IdleOk(r) && r.nextPid > 0
  }

  /** Nothing that was a zombie is anything else. */
  ghost predicate StayDead(s: Sched, r: Sched)
    requires Shape(s) && Shape(r)
  {
    forall i :: 0 <= i < MAX && s.table[i].status == Zombie ==> r.table[i].status == Zombie
  }

  /** process_block by a process that was killed while it was current: it overwrites ZOMBIE with BLOCKED. */
  predicate DeadBlocks(s: Sched, e: Event)
    requires Shape(s)
  {
    e.Block? && s.cur >= 0 && s.table[s.cur].status == Zombie
  }

  /** ZOMBIE is permanent across an event exactly when the event is not a dead process blocking. */
  lemma ZombiePermanentIff(s: Sched, e: Event)
    requires TableOk(s) && s.nextPid > 0 && IdleOk(s) && SparesIdle(s, e)
    ensures StayDead(s, Step(s, e)) <==> !DeadBlocks(s, e)
  {
    hide Switch, Pick;
    match e
    case Yield => SwitchKeeps(s);
    case Block => BlockDeadIff(s);
    case Exit => SwitchKeeps(if s.cur >= 0 then Retire(s, s.cur) else s);
    case Create(b) => CreateKeeps(s, b);
    case Kill(pid) => KillHits(s, pid);
    case WakeAll =>
    case Wake(slot) =>
  }

  lemma BlockDeadIff(s: Sched)
    requires TableOk(s) && s.nextPid > 0 && IdleOk(s) && s.cur != 0
    ensures StayDead(s, Step(s, Block)) <==> !DeadBlocks(s, Block)
  {
    hide Switch, Pick;
    if s.cur >= 0 {
      SwitchKeeps(SetStatus(s, s.cur, Blocked));
      BlockedStays(SetStatus(s, s.cur, Blocked));
    } else {
      SwitchKeeps(s);
    }
  }

  lemma BlockedStays(s: Sched)
    requires TableOk(s) && s.nextPid > 0 && s.cur > 0 && IdleOk(s) && s.table[s.cur].status == Blocked
    ensures Switch(s).table[s.cur].status == Blocked
  {
    NeverFallsBack(s);
  }

  lemma BlockKeeps(s: Sched)
    requires TableOk(s) && s.nextPid > 0 && IdleOk(s) && s.cur != 0
    ensures Keeps(s, Step(s, Block))
  {
    hide Switch, Pick;
    SwitchKeeps(if s.cur >= 0 then SetStatus(s, s.cur, Blocked) else s);
    SwitchPids(if s.cur >= 0 then SetStatus(s, s.cur, Blocked) else s);
  }

  lemma ExitKeeps(s: Sched)
    requires TableOk(s) && s.nextPid > 0 && IdleOk(s) && s.cur != 0
    ensures Keeps(s, Step(s, Exit))
  {
    hide Switch, Pick;
    SwitchKeeps(if s.cur >= 0 then Retire(s, s.cur) else s);
    SwitchPids(if s.cur >= 0 then Retire(s, s.cur) else s);
  }

  lemma SwitchPids(s: Sched)
    requires Shape(s)
    ensures Switch(s).nextPid == s.nextPid
  {
  }

  lemma KillSpares(s: Sched, pid: nat)
    requires TableOk(s) && s.nextPid > 0 && IdleOk(s) && pid != 1
    ensures Keeps(s, KillProc(s, pid).0)
  {
    KillHits(s, pid);
  }

  lemma CreateSpares(s: Sched, b: Birth)
    requires TableOk(s) && s.nextPid > 0 && IdleOk(s)
    ensures Keeps(s, CreateProc(s, b).0)
  {
    CreateKeeps(s, b);
  }

  /** process_init: every slot unused, then the idle process in slot 0. */
  function Initial(): Sched {
    CreateProc(Sched(seq(MAX, i => UNUSED_PROC), -1, 0), KERNEL_THREAD).0
  }

  lemma InitialOk()
    ensures TableOk(Initial()) && IdleOk(Initial()) && Initial().nextPid == 1 && Initial().cur == -1
  {
    var z := Sched(seq(MAX, i => UNUSED_PROC), -1, 0);
    assert FirstWith(z.table, Unused, 0) == 0;
  }

  /** Each event of the run spares the idle process in the state it meets. */
  predicate Spares(s: Sched, es: seq<Event>)
    requires Shape(s)
    decreases |es|
  {
    es == [] || (SparesIdle(s, es[0]) && Spares(Step(s, es[0]), es[1..]))
  }

  /** Over every run from process_init that spares the idle process. */
  lemma {:induction false} RunKeeps(s: Sched, es: seq<Event>)
    requires TableOk(s) && s.nextPid > 0 && IdleOk(s) && Spares(s, es)
    ensures TableOk(Run(s, es)) && IdleOk(Run(s, es))
    decreases |es|
  {
    if es != [] {
      StepKeeps(s, es[0]);
      RunKeeps(Step(s, es[0]), es[1..]);
    }
  }

  /** The table of every run from process_init, and the dead of every run in which no dead process blocks. */
  lemma {:induction false} DeadStayDead(s: Sched, es: seq<Event>)
    requires TableOk(s) && s.nextPid > 0 && IdleOk(s) && Spares(s, es)
    requires forall k :: 0 <= k < |es| ==> !DeadBlocks(Run(s, es[..k]), es[k])
    ensures StayDead(s, Run(s, es))
    decreases |es|
  {
    if es != [] {
      var s1, rest := Step(s, es[0]), es[1..];
      assert es[..0] == [];
      StepKeeps(s, es[0]);
      ZombiePermanentIff(s, es[0]);
      forall k | 0 <= k < |rest|
        ensures !DeadBlocks(Run(s1, rest[..k]), rest[k])
      {
        assert es[..k + 1][0] == es[0] && es[..k + 1][1..] == rest[..k];
        assert !DeadBlocks(Run(s, es[..k + 1]), es[k + 1]);
      }
      DeadStayDead(s1, rest);
    }
  }

  /** One event leaves a dead process that is not current dead and not current. */
  lemma DeadWaits(s: Sched, e: Event, p: nat)
    requires TableOk(s) && s.nextPid > 0 && IdleOk(s) && SparesIdle(s, e) && !DeadBlocks(s, e)
    requires p < MAX && s.table[p].status == Zombie
    ensures Step(s, e).table[p].status == Zombie
    ensures Switches(e) || s.cur != p ==> Step(s, e).cur != p
  {
    hide Switch, Pick;
    ZombiePermanentIff(s, e);
    match e
    case Yield => SwitchKeeps(s);
    case Block => SwitchKeeps(if s.cur >= 0 then SetStatus(s, s.cur, Blocked) else s);
    case Exit => SwitchKeeps(if s.cur >= 0 then Retire(s, s.cur) else s);
    case Create(b) => CreateKeeps(s, b);
    case Kill(pid) => KillHits(s, pid);
    case WakeAll =>
    case Wake(slot) =>
  }

  /**
    A dead process never runs again: over every run that spares the idle process and in which no dead process
    blocks, it is not current after the next switch, and killing it is answered with -1.
   */
  lemma {:induction false} DeadNeverRuns(s: Sched, es: seq<Event>, p: nat)
    requires TableOk(s) && s.nextPid > 0 && IdleOk(s) && Spares(s, es) && p < MAX && s.table[p].status == Zombie
    requires forall k :: 0 <= k < |es| ==> !DeadBlocks(Run(s, es[..k]), es[k])
    ensures Run(s, es).table[p].status == Zombie
    ensures s.cur != p || CountSwitches(es) > 0 ==> Run(s, es).cur != p
    ensures KillProc(Run(s, es), p + 1).1 == -1
    decreases |es|
  {
    if es == [] {
      KillHits(s, p + 1);
    } else {
      var s1, rest := Step(s, es[0]), es[1..];
      assert es[..0] == [];
      StepKeeps(s, es[0]);
      DeadWaits(s, es[0], p);
      forall k | 0 <= k < |rest|
        ensures !DeadBlocks(Run(s1, rest[..k]), rest[k])
      {
        assert es[..k + 1][0] == es[0] && es[..k + 1][1..] == rest[..k];
        assert !DeadBlocks(Run(s, es[..k + 1]), es[k + 1]);
      }
      DeadNeverRuns(s1, rest, p);
    }
  }

  /** What a kill means for the rest of the run. */
  lemma KilledNeverRuns(s: Sched, pid: nat, es: seq<Event>)
    requires TableOk(s) && s.nextPid > 0 && IdleOk(s) && pid != 1 && KillProc(s, pid).1 == 0
    requires Spares(KillProc(s, pid).0, es)
    requires forall k :: 0 <= k < |es| ==> !DeadBlocks(Run(KillProc(s, pid).0, es[..k]), es[k])
    ensures var r := Run(KillProc(s, pid).0, es);
            && r.table[pid - 1].status == Zombie && KillProc(r, pid).1 == -1
            && (s.cur != pid - 1 || CountSwitches(es) > 0 ==> r.cur != pid - 1)
  {
    hide Run, Spares, DeadBlocks, KillProc;
    KillKills(s, pid);
    KillSpares(s, pid);
    DeadNeverRuns(KillProc(s, pid).0, es, pid - 1);
  }

  /** If the idle process was killed, a switch leaves it dead exactly when some process is ready. */
  lemma FallbackRevives(s: Sched)
    requires TableOk(s) && s.cur >= 0 && s.table[0].status == Zombie
    ensures Switch(s).table[0].status == Zombie <==> exists i :: 0 <= i < MAX && Demoted(s).table[i].status == Ready
  {
    var d := Demoted(s);
    var n := Steps(d.table, s.cur, 1);
    if i :| 0 <= i < MAX && d.table[i].status == Ready {
      AroundReaches(s.cur, i);
    }
  }

  // ---------------------------------------------------------------- bounded waiting

  /** Steps round the table from the current slot to slot p, between 1 and MAX. */
  function Distance(c: nat, p: nat): (d: nat)
    requires c < MAX && p < MAX
    ensures 1 <= d <= MAX && Around(c, d) == p
  {
    if p > c then p - c else p + MAX - c
  }

  lemma AroundReaches(c: nat, p: nat)
    requires c < MAX && p < MAX
    ensures exists d :: 1 <= d <= MAX && Around(c, d) == p
  {
    assert Around(c, Distance(c, p)) == p;
  }

  /** A switch that does not pick a ready process moves the current slot strictly closer to it. */
  lemma SwitchApproaches(s: Sched, p: nat)
    requires Shape(s) && s.cur >= 0 && p < MAX && p != s.cur && s.table[p].status == Ready
    ensures Switch(s).cur == p ||
            (Switch(s).table[p].status == Ready && Distance(Switch(s).cur, p) < Distance(s.cur, p))
    ensures Switch(s).cur == p ==> Switch(s).table[p].status == Running
  {
    var d, t := Distance(s.cur, p), Demoted(s).table;
    assert t[Around(s.cur, d)].status == Ready;
    var i := Steps(t, s.cur, 1);
    assert i <= d;
    Closer(s.cur, p, i);
  }

  lemma Closer(c: nat, p: nat, i: nat)
    requires c < MAX && p < MAX && 1 <= i <= Distance(c, p)
    ensures Around(c, i) == p <==> i == Distance(c, p)
    ensures i < Distance(c, p) ==> Distance(Around(c, i), p) == Distance(c, p) - i
  {
  }

  function CountSwitches(es: seq<Event>): nat
    decreases |es|
  {
    if es == [] then 0 else (if Switches(es[0]) then 1 else 0) + CountSwitches(es[1..])
  }

  /** Events other than switches leave the current slot, and a ready process they do not kill, alone. */
  lemma OthersWait(s: Sched, e: Event, p: nat)
    requires TableOk(s) && p < MAX && s.table[p].status == Ready && !Switches(e) && e != Kill(p + 1)
    ensures Step(s, e).cur == s.cur && Step(s, e).table[p].status == Ready
  {
    match e
    case Kill(pid) => KillHits(s, pid);
    case Create(b) => CreateKeeps(s, b);
    case WakeAll =>
    case Wake(slot) =>
  }

  /** A switching event treats a ready process that is not current like a plain switch. */
  lemma SwitchEvents(s: Sched, e: Event, p: nat)
    requires TableOk(s) && s.cur >= 0 && p < MAX && p != s.cur && s.table[p].status == Ready && Switches(e)
    ensures Step(s, e).cur == p ||
            (Step(s, e).cur >= 0 && Step(s, e).table[p].status == Ready &&
             Distance(Step(s, e).cur, p) < Distance(s.cur, p))
  {
    match e
    case Yield => SwitchApproaches(s, p);
    case Block => SwitchApproaches(SetStatus(s, s.cur, Blocked), p);
    case Exit => SwitchApproaches(Retire(s, s.cur), p);
  }

  /**
    Bounded waiting: a ready process that is not killed is current after some prefix of any run that contains
    as many switches as its distance, which is at most MAX_PROCESSES, whatever else happens in the run.
   */
  lemma {:induction false} BoundedWaiting(s: Sched, es: seq<Event>, p: nat)
    requires TableOk(s) && s.cur >= 0
    requires p < MAX && p != s.cur && s.table[p].status == Ready
    requires forall k :: 0 <= k < |es| ==> es[k] != Kill(p + 1)
    requires CountSwitches(es) >= Distance(s.cur, p)
    ensures exists k :: 0 <= k <= |es| && Run(s, es[..k]).cur == p
    decreases |es|
  {
    hide Step, Distance;
    var s1, rest := Step(s, es[0]), es[1..];
    EventKeepsTable(s, es[0]);
    if Switches(es[0]) {
      SwitchEvents(s, es[0], p);
    } else {
      OthersWait(s, es[0], p);
    }
    if s1.cur == p {
      assert Run(s, es[..1]).cur == p by {
        assert es[..1][0] == es[0] && es[..1][1..] == [];
      }
    } else {
      BoundedWaiting(s1, rest, p);
      var k :| 0 <= k <= |rest| && Run(s1, rest[..k]).cur == p;
      assert es[..k + 1][0] == es[0] && es[..k + 1][1..] == rest[..k];
      assert Run(s, es[..k + 1]).cur == p;
    }
  }
}
