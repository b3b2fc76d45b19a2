/**
  kernel/process.asm as imperative code: pushes, pops and stack-pointer stores on one memory, with the scheduler's
  table beside it.
 */
module ProcessYield {
  import opened Bytes
  import opened ContextSwitch
  import opened Processes
  import S = Scheduler

  class Cpu {
    const mem: array<word>
    const procs: ProcessTable
    var ebx: word
    var esi: word
    var edi: word
    var ebp: word
    var esp: word
    var eip: word

    ghost predicate Valid()
      reads this, procs
    {
      procs.Valid() && mem.Length == SIZE
    }

    ghost function View(): Machine
      reads this, mem, procs, procs.table
    {
      Machine(mem[..], Regs(ebx, esi, edi, ebp, esp, eip), procs.View())
    }

    /** The processor and the process table; their contents at this point are given. */
    constructor (mem: array<word>, procs: ProcessTable, r: Regs)
      requires procs.Valid() && mem.Length == SIZE
      ensures this.mem == mem && this.procs == procs && Valid() && View() == Machine(mem[..], r, procs.View())
    {
      this.mem, this.procs := mem, procs;
      ebx, esi, edi, ebp, esp, eip := r.ebx, r.esi, r.edi, r.ebp, r.esp, r.eip;
    }

    method PushWord(w: word)
      requires Valid() && 0 < esp <= SIZE
      modifies this`esp, mem
      ensures Valid() && View() == Push(old(View()), w)
    {
      esp := esp - 1;
      mem[esp] := w;
    }

    method PopWord() returns (w: word)
      requires Valid() && esp < SIZE
      modifies this`esp
      ensures Valid() && esp == old(esp) + 1 && w == mem[old(esp)]
    {
      w := mem[esp];
      esp := esp + 1;
    }

    /** The stack traffic of a C function: junk ends up below the stack pointer. */
    method Scratch(junk: seq<word>)
      requires Valid() && |junk| <= esp <= SIZE
      modifies mem
      ensures Valid() && View() == CallC(old(View()), junk)
    {
      for k := 0 to |junk|
        invariant forall a :: 0 <= a < SIZE ==>
          mem[a] == if esp - |junk| <= a < esp - |junk| + k then junk[a - (esp - |junk|)] else old(mem[a])
      {
        mem[esp - |junk| + k] := junk[k];
      }
      assert mem[..] == CallC(old(View()), junk).mem;
    }

    /** build_initial_kstack and the store of its result in the new entry. */
    method BuildInitialStack(i: nat, entry: word)
      requires Valid() && i < S.MAX
      modifies mem
      ensures Valid() && View() == old(View()).(mem := NewStack(old(mem[..]), i, entry))
    {
      var stk := Top(i) - 1;
      mem[stk] := entry;
      stk := stk - 1;
      mem[stk] := 0;
      stk := stk - 1;
      mem[stk] := 0;
      stk := stk - 1;
      mem[stk] := 0;
      stk := stk - 1;
      mem[stk] := 0;
      mem[EspAt(i)] := stk;
    }

    /** process_create and process_create_user. */
    method CreateProcess(b: S.Birth, entry: word) returns (slot: int)
      requires Valid() && Ok(View())
      modifies this, mem, procs, procs.table
      ensures Valid() && View() == Step(old(View()), Spawn(b, entry))
    {
      slot := procs.AddProcess(b);
      if slot >= 0 {
        BuildInitialStack(slot, entry);
      }
    }

    /** The call of process_yield and its prologue. */
    method SaveContext(ret: word)
      requires Valid() && OnStack(View()) && Low(procs.cur) + 5 <= esp
      modifies this`esp, mem
      ensures Valid() && View() == Save(old(View()), ret)
    {
      PushWord(ret);
      PushWord(ebp);
      PushWord(edi);
      PushWord(esi);
      PushWord(ebx);
      mem[EspAt(procs.cur)] := esp;
    }

    /** The swap and the epilogue. */
    method RestoreContext()
      requires Valid() && procs.cur >= 0 && HasFrame(mem[..], procs.cur) && esi == EspAt(procs.cur)
      modifies this
      ensures Valid() && View() == Restore(old(View()))
    {
      esp := mem[esi];
      ebx := PopWord();
      esi := PopWord();
      edi := PopWord();
      ebp := PopWord();
      eip := PopWord();
    }

    /** process_yield up to the swap. */
    method ParkCurrent(ret: word, junk1: seq<word>, junk2: seq<word>)
      requires Valid() && OnStack(View()) && Room(View(), junk1, junk2)
      modifies this, mem, procs, procs.table
      ensures Valid() && View() == Park(old(View()), ret, junk1, junk2) && esi == EspAt(procs.cur) && esp < SIZE
    {
      hide S.Switch, Save, CallC;
      ghost var m := View();
      SaveMemory(m, ret);
      SaveContext(ret);
      Scratch(junk1);
      ghost var s := View();
      var next := procs.SchedNext();
      esi := EspAt(next);
      assert View() == s.(procs := S.Switch(s.procs), regs := s.regs.(esi := EspAt(next)));
      PushWord(esi);
      Scratch(junk2);
    }

    /** process_yield from a scheduled process. */
    method YieldNow(ret: word, junk1: seq<word>, junk2: seq<word>)
      requires Valid() && Ok(View()) && Room(View(), junk1, junk2)
      modifies this, mem, procs, procs.table
      ensures Valid() && View() == Yield(old(View()), ret, junk1, junk2)
    {
      hide Ok, Park, Yield, HasFrame, Restore;
      ghost var m := View();
      ParkReady(m, ret, junk1, junk2);
      ParkCurrent(ret, junk1, junk2);
      ghost var p := View();
      esp := esp + 1;
      SameRestore(p, View());
      RestoreContext();
    }
  }

  /** What the swap relies on. */
  lemma ParkReady(m: Machine, ret: word, junk1: seq<word>, junk2: seq<word>)
    requires Ok(m) && Room(m, junk1, junk2)
    ensures S.Shape(m.procs)
    ensures var p := Park(m, ret, junk1, junk2);
            && p.procs.cur >= 0 && HasFrame(p.mem, p.procs.cur) && Yield(m, ret, junk1, junk2) == Restore(p)
  {
    assert S.Shape(m.procs);
    hide Park, Suspended, Live, S.TableOk, S.Switch, Restore;
    ParkKeeps(m, ret, junk1, junk2);
  }

  /** The swap looks at no register. */
  lemma SameRestore(p: Machine, q: Machine)
    requires p.procs.cur >= 0 && HasFrame(p.mem, p.procs.cur) && q == p.(regs := q.regs)
    ensures Restore(q) == Restore(p)
  {
  }
}
