/** kernel/process.c as imperative code: the process table changed in place by scanning loops. */
module Processes {
  import opened Bytes
  import opened Scheduler

  class ProcessTable {
    const table: array<Proc>
    var cur: int
    var nextPid: nat

    ghost predicate Valid()
      reads this
    {
      table.Length == MAX && -1 <= cur < MAX
    }

    ghost function View(): Sched
      reads this, table
    {
      Sched(table[..], cur, nextPid)
    }

    /** process_init */
    constructor ()
      ensures Valid() && View() == Initial() && fresh(table)
    {
      table := new Proc[MAX](i => UNUSED_PROC);
      cur, nextPid := -1, 0;
      new;
      assert table[..] == seq(MAX, i => UNUSED_PROC);
      var k := AddProcess(KERNEL_THREAD);
    }

    /** alloc_slot: the first unused slot, or -1. */
    method AllocSlot() returns (k: int)
      requires Valid()
      ensures k == if FirstWith(table[..], Unused, 0) == MAX then -1 else FirstWith(table[..], Unused, 0)
    {
      for i := 0 to MAX
        invariant FirstWith(table[..], Unused, 0) == FirstWith(table[..], Unused, i)
      {
        if table[i].status == Unused {
          return i;
        }
      }
      k := -1;
    }

    /** process_create and process_create_user, apart from the name and the initial stack. */
    method AddProcess(b: Birth) returns (k: int)
      requires Valid()
      modifies this, table
      ensures Valid() && (View(), k) == CreateProc(old(View()), b)
    {
      k := AllocSlot();
      if k < 0 {
        return;
      }
      nextPid := nextPid + 1;
      table[k] := Proc(Ready, nextPid, b.pd, b.eip, b.esp);
    }

    /** The table part of process_kill; the directory of the victim is handed back to be destroyed. */
    method KillProcess(pid: nat) returns (r: int, pd: word)
      requires Valid()
      modifies table
      ensures Valid() && (View(), r) == KillProc(old(View()), pid)
      ensures r == 0 || r == -1
      ensures pd == if r == 0 then old(table[FirstKillable(table[..], pid, 0)].pd) else 0
      ensures r == 0 ==>
        var i := FirstKillable(old(table[..]), pid, 0);
        i < MAX && table[i].status == Zombie && table[i].pd == 0 && table[i].pid == pid
    {
      for i := 0 to MAX
        invariant table[..] == old(table[..])
        invariant FirstKillable(table[..], pid, 0) == FirstKillable(table[..], pid, i)
      {
        if table[i].pid == pid && table[i].status != Unused && table[i].status != Zombie {
          pd := table[i].pd;
          table[i] := table[i].(status := Zombie, pd := 0);
          return 0, pd;
        }
      }
      r, pd := -1, 0;
    }

    /** process_wake */
    method WakeProcess(i: nat)
      requires Valid() && i < MAX
      modifies table
      ensures Valid() && View() == WakeProc(old(View()), i)
    {
      if table[i].status == Blocked {
        table[i] := table[i].(status := Ready);
      }
    }

    /** process_wake_all_blocked */
    method WakeAllBlocked()
      requires Valid()
      modifies table
      ensures Valid() && View() == WakeBlocked(old(View()))
    {
      for i := 0 to MAX
        invariant forall j :: 0 <= j < MAX ==>
          table[j] ==
          if j < i && old(table[j]).status == Blocked then old(table[j]).(status := Ready) else old(table[j])
      {
        if table[i].status == Blocked {
          table[i] := table[i].(status := Ready);
        }
      }
      assert View().table == WakeBlocked(old(View())).table;
    }

    /** sched_next, and the store to current_process that process_yield makes with its result. */
    method SchedNext() returns (k: nat)
      requires Valid()
      modifies this, table
      ensures Valid() && View() == Switch(old(View())) && k == cur
    {
      if cur < 0 {
        k := FirstChoice();
      } else {
        if table[cur].status == Running {
          table[cur] := table[cur].(status := Ready);
        }
        assert View() == Demoted(old(View()));
        k := NextReady();
      }
      table[k] := table[k].(status := Running);
      cur := k;
    }

    /** The bootstrap search. */
    method FirstChoice() returns (k: nat)
      requires Valid()
      ensures k == FirstRunnable(table[..], 0)
    {
      for i := 0 to MAX
        invariant FirstRunnable(table[..], 0) == FirstRunnable(table[..], i)
      {
        if table[i].status == Ready || table[i].status == Running {
          return i;
        }
      }
      k := 0;
    }

    /** The round-robin search from the slot after the current one. */
    method NextReady() returns (k: nat)
      requires Valid() && cur >= 0
      ensures k == if Steps(table[..], cur, 1) <= MAX then Around(cur, Steps(table[..], cur, 1)) else 0
    {
      for i := 1 to MAX + 1
        invariant Steps(table[..], cur, 1) == Steps(table[..], cur, i)
      {
        var idx := (cur + i) % MAX;
        if table[idx].status == Ready {
          return idx;
        }
      }
      k := 0;
    }

    /** process_block, up to the switch it ends in. */
    method BlockCurrent() returns (k: nat)
      requires Valid()
      modifies this, table
      ensures Valid() && View() == Step(old(View()), Block)
    {
      if cur >= 0 {
        table[cur] := table[cur].(status := Blocked);
        assert View() == SetStatus(old(View()), cur, Blocked);
      }
      k := SchedNext();
    }

    /** process_exit before its switch; the directory of the process is handed back to be destroyed. */
    method RetireCurrent() returns (pd: word)
      requires Valid()
      modifies table
      ensures Valid() && View() == if cur >= 0 then Retire(old(View()), cur) else old(View())
      ensures pd == if cur >= 0 then old(table[cur].pd) else 0
      ensures cur >= 0 ==> table[cur].status == Zombie && table[cur].pd == 0
    {
      pd := 0;
      if cur >= 0 {
        pd := table[cur].pd;
        table[cur] := table[cur].(status := Zombie, pd := 0);
      }
    }

    /** process_exit with the switch it ends in. */
    method ExitCurrent() returns (k: nat, pd: word)
      requires Valid()
      modifies this, table
      ensures Valid() && View() == Step(old(View()), Exit)
      ensures pd == if old(cur) >= 0 then old(table[cur].pd) else 0
    {
      pd := RetireCurrent();
      k := SchedNext();
    }
  }
}
