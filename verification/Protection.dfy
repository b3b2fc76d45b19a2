/**
  The processor's own reading of the page tables (section 4.3 of the Intel SDM volume 3A, 4 KB pages, CR0.WP clear), on
  the bytes of physical memory.  What ring 3 can reach through the directory of a process is its own leaves and nothing
  else: not the first 8 MB, not a table, not a free frame, not a frame of another process.
 */
module Protection {
  import opened Bytes
  import opened Frames
  import opened PageTables
  import opened AddressSpace
  import opened Paging
  import opened IdentityMap
  import opened ElfImage
  import opened Exec
  import opened FrameBudget
  import opened FrameLoss
  import opened KernelReach
  import opened ProgramRuns
  import opened Isolation
  import S = Scheduler

  /** Four bytes of a frame, the least significant first. */
  function Load(fr: Frame, at: nat): word
    requires at + 4 <= 4096
  {
    (fr[at] as int) + 0x100 * (fr[at + 1] as int) + 0x1_0000 * (fr[at + 2] as int) + 0x100_0000 * (fr[at + 3] as int)
  }

  /** Bit 0: present.  Ring 3 needs bit 2, and bit 1 to write. */
  predicate Allows(w: word, user: bool, write: bool) {
    w % 2 == 1 && (user ==> (w / 4) % 2 == 1) && (user && write ==> (w / 2) % 2 == 1)
  }

  /** The physical address an access goes to, or none for a page fault. */
  function Walk(mem: seq<Frame>, pd: nat, addr: word, user: bool, write: bool): Option<nat>
    requires |mem| == TOTAL && pd < TOTAL
  {
    var pde := Load(mem[pd], 4 * (addr / 0x40_0000));
    if !Allows(pde, user, write) || pde / 0x1000 >= TOTAL then None
    else
      var pte := Load(mem[pde / 0x1000], 4 * ((addr / 0x1000) % 0x400));
      if Allows(pte, user, write) then Some(0x1000 * (pte / 0x1000) + addr % 0x1000) else None
  }

  lemma LoadIsWord(fr: Frame, i: nat)
    requires i < 1024
    ensures Load(fr, 4 * i) == Word(fr, i)
  {
    var s := fr[4 * i..4 * i + 4];
    assert s[0] == fr[4 * i] && s[1] == fr[4 * i + 1] && s[2] == fr[4 * i + 2] && s[3] == fr[4 * i + 3];
  }

  /** Where an address lies in the two levels. */
  lemma Levels(addr: word)
    ensures addr / 0x1000 < PAGES && addr / 0x40_0000 < 1024
    ensures (addr / 0x1000) / 1024 == addr / 0x40_0000
    ensures addr < 0x80_0000 <==> addr / 0x1000 < 2048
    ensures addr / 0x40_0000 < 2 <==> addr < 0x80_0000
  {
  }

  lemma FlagBits(f: nat, user: bool, write: bool)
    requires f < PAGES
    ensures Allows(Entry(f, USER_FLAGS), user, write) && Entry(f, USER_FLAGS) / 0x1000 == f
    ensures Allows(Entry(f, KERNEL_FLAGS), user, write) <==> !user
    ensures Entry(f, KERNEL_FLAGS) / 0x1000 == f
  {
    Bits(2048 * f + 3, true);
    Bits(2048 * f + 1, true);
  }

  /** The three lowest bits of 2x + p. */
  lemma Bits(x: nat, p: bool)
    ensures var w := 2 * x + if p then 1 else 0;
            (w % 2 == 1 <==> p) && w / 2 == x && w / 4 == x / 2
  {
  }

  /** Above 8 MB ring 3 reads and writes exactly the pages that are mapped, where the kernel's own lookup finds them. */
  lemma UserWalk(s: Sys, pd: nat, addr: word, write: bool)
    requires Inv(s) && Is(s, pd, Dir) && addr >= 0x80_0000
    ensures addr / 0x1000 < PAGES
    ensures Walk(s.mem, pd, addr, true, write) ==
            match Pte(s, pd, addr / 0x1000)
            case None => None
            case Some(w) => Some(0x1000 * FrameNo(w) + addr % 0x1000)
  {
    hide Word, Load, RoleOk, Allows, Entry;
    Levels(addr);
    var i, j := addr / 0x40_0000, (addr / 0x1000) % 1024;
    LoadIsWord(s.mem[pd], i);
    EntryLeads(s, pd, i);
    var w := Word(s.mem[pd], i);
    if Present(w) {
      TableEntry(s, pd, i);
      FlagBits(FrameNo(w), true, write);
      var t := FrameNo(w);
      LoadIsWord(s.mem[t], j);
      if Present(Word(s.mem[t], j)) {
        PteLeads(s, pd, addr / 0x1000);
        FlagBits(FrameNo(Word(s.mem[t], j)), true, write);
      } else {
        assert !Allows(Word(s.mem[t], j), true, write) by { Absent(Word(s.mem[t], j), true, write); }
      }
    } else {
      Absent(w, true, write);
    }
  }

  lemma Absent(w: word, user: bool, write: bool)
    requires !Present(w)
    ensures !Allows(w, user, write)
  {
  }

  /** A present entry above the kernel's two is an open table entry of this directory. */
  lemma TableEntry(s: Sys, pd: nat, i: nat)
    requires Inv(s) && Is(s, pd, Dir) && 2 <= i < 1024 && Present(Word(s.mem[pd], i))
    ensures var w := Word(s.mem[pd], i);
            FrameNo(w) < TOTAL && w == Entry(FrameNo(w), USER_FLAGS)
  {
    hide Word;
    EntryLeads(s, pd, i);
    assert RoleOk(s, pd);
    assert SlotOk(s, Word(s.mem[pd], i), Table(pd, i));
  }

  /** The first 8 MB are closed to ring 3 in every directory, whatever paging_map_page was told: the first level is. */
  lemma KernelClosed(s: Sys, pd: nat, addr: word, write: bool)
    requires Inv(s) && Is(s, pd, Dir) && addr < 0x80_0000
    ensures Walk(s.mem, pd, addr, true, write) == None
  {
    hide Word, Load, Allows, Entry;
    Levels(addr);
    LoadIsWord(s.mem[pd], addr / 0x40_0000);
    assert RoleOk(s, pd);
    FlagBits(s.k.pt0, true, write);
    FlagBits(s.k.pt1, true, write);
  }

  /** While the identity map holds, the kernel's own accesses below 8 MB go where they say, in every directory. */
  lemma KernelWalk(s: Sys, pd: nat, addr: word, write: bool)
    requires Inv(s) && Is(s, pd, Dir) && addr < 0x80_0000 && Identity(s)
    ensures Walk(s.mem, pd, addr, false, write) == Some(addr)
  {
    hide Word, Load, Allows, Entry, Pte, Identity, RoleOk;
    Levels(addr);
    var i, j := addr / 0x40_0000, (addr / 0x1000) % 1024;
    LoadIsWord(s.mem[pd], i);
    EntryLeads(s, pd, i);
    KernelSlots(s, pd, addr / 0x1000);
    var t := FrameNo(Word(s.mem[pd], i));
    LoadIsWord(s.mem[t], j);
    FlagBits(s.k.pt0, false, write);
    FlagBits(s.k.pt1, false, write);
    FlagBits(addr / 0x1000, false, write);
  }

  lemma KernelSlots(s: Sys, pd: nat, p: nat)
    requires Inv(s) && Is(s, pd, Dir) && p < 2048 && Identity(s)
    ensures var w := Word(s.mem[pd], p / 1024);
            && w == Entry(if p < 1024 then s.k.pt0 else s.k.pt1, KERNEL_FLAGS)
            && FrameNo(w) < TOTAL && Word(s.mem[FrameNo(w)], p % 1024) == Entry(p, KERNEL_FLAGS)
  {
    hide Word;
    assert RoleOk(s, pd);
    KernelEntry(s.k.pt0);
    KernelEntry(s.k.pt1);
    assert Pte(s, s.k.pd, p) == Some(Entry(p, KERNEL_FLAGS));
  }

  /** Whatever ring 3 can reach is a leaf of that very directory. */
  lemma OwnLeavesOnly(s: Sys, pd: nat, addr: word, write: bool)
    requires Inv(s) && Is(s, pd, Dir) && Walk(s.mem, pd, addr, true, write).Some?
    ensures var f := Walk(s.mem, pd, addr, true, write).value / 0x1000;
            && f in s.owner && s.owner[f].Leaf? && PdOf(s, f) == Some(pd) && f !in s.free
            && LOW <= f < TOTAL
  {
    hide Walk, Word, RoleOk;
    Levels(addr);
    if addr < 0x80_0000 {
      KernelClosed(s, pd, addr, write);
    } else {
      UserWalk(s, pd, addr, write);
      PteLeads(s, pd, addr / 0x1000);
    }
  }

  /** A byte stored by ring 3: physical memory after it; a faulting store changes nothing. */
  function Store(s: Sys, pd: nat, addr: word, b: byte): Sys
    requires |s.mem| == TOTAL && pd < TOTAL
  {
    match Walk(s.mem, pd, addr, true, true)
    case None => s
    case Some(a) =>
      if a / 0x1000 >= TOTAL then s
      else s.(mem := s.mem[a / 0x1000 := s.mem[a / 0x1000][a % 0x1000 := b]])
  }

  /** A page with one byte replaced, when there is a page. */
  function WithByte(o: Option<Frame>, at: nat, b: byte): Option<Frame>
    requires at < 4096
  {
    match o
    case None => None
    case Some(fr) =>
      var changed: Frame := fr[at := b];
      Some(changed)
  }

  /**
    Whatever a program stores, wherever it points: the page tables stay as they are, and of all user pages of all
    directories only its own page changes, in that one byte.
   */
  lemma StoreIsolates(s: Sys, pd: nat, addr: word, b: byte, e: nat, q: nat)
    requires Inv(s) && Is(s, pd, Dir) && Is(s, e, Dir) && 2048 <= q < PAGES
    ensures var r := Store(s, pd, addr, b);
            && Inv(r) && r.owner == s.owner && r.free == s.free && Pte(r, e, q) == Pte(s, e, q)
            && PageAt(r, e, q) ==
               if e == pd && q == addr / 0x1000 then WithByte(PageAt(s, e, q), addr % 0x1000, b) else PageAt(s, e, q)
  {
    hide Walk, Word, RoleOk, Pte;
    Levels(addr);
    if addr < 0x80_0000 {
      KernelClosed(s, pd, addr, true);
    } else {
      UserWalk(s, pd, addr, true);
      if Pte(s, pd, addr / 0x1000).Some? {
        PteLeads(s, pd, addr / 0x1000);
        var f := FrameNo(Pte(s, pd, addr / 0x1000).value);
        OwnLeavesOnly(s, pd, addr, true);
        var fr := s.mem[f][addr % 0x1000 := b];
        FillKeeps(s, f, fr);
        FillShows(s, pd, addr / 0x1000, fr, e, q);
        assert Store(s, pd, addr, b) == Fill(s, f, fr);
      }
    }
  }

  lemma ProcessDir(k: Kern, i: nat)
    requires Good(k) && i < S.MAX && k.procs.table[i].pd != 0
    ensures Inv(k.mem) && Is(k.mem, IndexOf(k.procs.table[i].pd), Dir) && IndexOf(k.procs.table[i].pd) < TOTAL
    ensures |k.mem.mem| == TOTAL && |k.procs.table| == S.MAX
  {
    hide RoleOk, Reaches;
  }

  /**
    Protection over every run: what the program of a process can reach from ring 3 is above 8 MB, in use, and out of
    reach of the program of every other process.
   */
  lemma ProtectedOverRuns(k: Kern, es: seq<Event>, i: nat, j: nat, a: word, b: word, write: bool)
    requires Good(k) && RunOk(k, es) && i < S.MAX && j < S.MAX && i != j
    requires Run(k, es).procs.table[i].pd != 0 && Run(k, es).procs.table[j].pd != 0
    ensures var m := Run(k, es);
            var p, q := IndexOf(m.procs.table[i].pd), IndexOf(m.procs.table[j].pd);
            && |m.mem.mem| == TOTAL && p < TOTAL && q < TOTAL
            && var x, y := Walk(m.mem.mem, p, a, true, write), Walk(m.mem.mem, q, b, true, write);
            && (x.Some? ==> a >= 0x80_0000 && x.value / 0x1000 !in m.mem.free)
            && (x.Some? && y.Some? ==> x.value / 0x1000 != y.value / 0x1000)
  {
    hide Run, RunOk, RoleOk, Walk, Reaches;
    var m := Run(k, es);
    ProcessDir(m, i);
    ProcessDir(m, j);
    var p, q := IndexOf(m.procs.table[i].pd), IndexOf(m.procs.table[j].pd);
    assert p != q;
    var x, y := Walk(m.mem.mem, p, a, true, write), Walk(m.mem.mem, q, b, true, write);
    if x.Some? {
      OwnLeavesOnly(m.mem, p, a, write);
      if a < 0x80_0000 {
        KernelClosed(m.mem, p, a, write);
      }
      if y.Some? {
        OwnLeavesOnly(m.mem, q, b, write);
      }
    }
  }

  // ---------------------------------------------------------------- what a started program can reach

  /** The page has an address in one of the load segments, or in the 16 KB below 0x1020000. */
  ghost predicate Belongs(d: seq<byte>, p: nat)
    requires UserImage(d) && HeaderOk(d)
  {
    0x101C <= p < 0x1020 || exists j :: 0 <= j < |Segments(d)| && Loaded(Segments(d)[j]) && Covers(Segments(d)[j], p)
  }

  lemma StackIs(p: nat)
    ensures p in PagesFrom(STACK_BASE, STACK_PAGES) <==> 0x101C <= p < 0x1020
  {
    hide PageNo;
    if p in PagesFrom(STACK_BASE, STACK_PAGES) {
      var k :| 0 <= k < STACK_PAGES && PagesFrom(STACK_BASE, STACK_PAGES)[k] == p;
      StackPage(k);
    }
    if 0x101C <= p < 0x1020 {
      StackPages(4096 * p);
    }
  }

  lemma ImagePagesAre(d: seq<byte>, p: nat)
    requires UserImage(d) && Startable(d)
    ensures p in ImagePages(d) <==> Belongs(d, p)
  {
    hide SegList, Segments, PagesFrom, HeaderOk, InSeg, Covers, STACK_BASE, STACK_PAGES;
    var gs := Segments(d);
    StackIs(p);
    SegListIn(d, gs, p);
    forall j | 0 <= j < |gs| && Loaded(gs[j])
      ensures InSeg(gs[j], p) <==> Covers(gs[j], p)
    {
      InSegExact(gs[j], p);
    }
  }

  lemma PreparedIs(s: Sys, d: seq<byte>, p: nat)
    requires Inv(s) && UserImage(d) && Prepare(s, d).Ready? && 2048 <= p < PAGES
    ensures var l := Prepare(s, d);
            && |l.mem.mem| == TOTAL && l.pd < TOTAL && Startable(d)
            && (PageAt(l.mem, l.pd, p).Some? <==> Belongs(d, p))
  {
    hide Prepare, ImagePages, Startable, Took, OnlyGrew, Pte, Belongs, Need, Spend, Tables;
    NothingFreeNone(s, d);
    PrepareIs(s, d);
    PrepareGrew(s, d);
    var l := Prepare(s, d);
    SpendIs(Fresh(|s.free|), ImagePages(d));
    assert l.mapped == ImagePages(d);
    StartsWhole(d, |s.free|);
    ImagePagesAre(d, p);
    GrownBounds(s, l.mem, l.pd);
    SomePage(s, l.mem, l.pd, p);
  }

  lemma StartsWhole(d: seq<byte>, n: nat)
    requires UserImage(d) && Starts(d, n)
    ensures Startable(d)
  {
  }

  lemma SomePage(s: Sys, s': Sys, pd: nat, p: nat)
    requires OnlyGrew(s, s', pd) && |s'.mem| == TOTAL && pd < TOTAL && 2048 <= p < PAGES
    ensures PageAt(s', pd, p).Some? <==> Pte(s', pd, p).Some?
  {
    hide RoleOk, Word, Pte;
    if Pte(s', pd, p).Some? {
      PteLeads(s', pd, p);
    }
  }

  lemma SeesWalks(k: Kern, i: nat, a: word, write: bool)
    requires Good(k) && i < S.MAX && k.procs.table[i].pd != 0 && a >= 0x80_0000
    ensures IndexOf(k.procs.table[i].pd) < TOTAL && |k.mem.mem| == TOTAL && a / 0x1000 < PAGES && Owned(k)
    ensures Walk(k.mem.mem, IndexOf(k.procs.table[i].pd), a, true, write).Some? <==> Sees(k, i, a / 0x1000).Some?
  {
    hide RoleOk, Walk, Pte, Reaches, Word;
    ProcessDir(k, i);
    Levels(a);
    var pd := IndexOf(k.procs.table[i].pd);
    UserWalk(k.mem, pd, a, write);
    if Pte(k.mem, pd, a / 0x1000).Some? {
      PteLeads(k.mem, pd, a / 0x1000);
    }
  }

  lemma NoneBelow(d: seq<byte>, p: nat)
    requires UserImage(d) && HeaderOk(d)
    ensures Belongs(d, p) ==> p >= 2048
  {
    hide Segments, HeaderOk;
  }

  /**
    From its start on, and after any run in which it keeps its directory, a program reaches from ring 3, to read as
    to write, exactly the pages of its load segments and of its stack.
   */
  lemma ProgramReachesExactly(k: Kern, d: seq<byte>, es: seq<Event>, a: word, write: bool)
    requires Good(k) && UserImage(d) && Within(k.mem, d) && Starts(d, |k.mem.free|)
    requires k.procs.nextPid < S.MAX && Good(ExecImage(k, d)) && RunOk(ExecImage(k, d), es)
    requires Run(ExecImage(k, d), es).procs.table[k.procs.nextPid].pd != 0
    ensures var r := Run(ExecImage(k, d), es);
            var pd := IndexOf(r.procs.table[k.procs.nextPid].pd);
            && |r.mem.mem| == TOTAL && pd < TOTAL && HeaderOk(d)
            && (Walk(r.mem.mem, pd, a, true, write).Some? <==> Belongs(d, a / 0x1000))
  {
    hide Owned, Inv, ExecImage, Prepare, Run, RunOk, HeaderOk, Segments, Reaches, Within;
    hide Walk, Belongs, ImagePages, Need;
    var r, i := Run(ExecImage(k, d), es), k.procs.nextPid;
    StartableNow(k, d);
    ProcessDir(r, i);
    Levels(a);
    if a < 0x80_0000 {
      KernelClosed(r.mem, IndexOf(r.procs.table[i].pd), a, write);
      assert !Belongs(d, a / 0x1000) by {
        NoneBelow(d, a / 0x1000);
      }
    } else {
      SeesAfter(k, d, es, a / 0x1000);
      SeesWalks(r, i, a, write);
    }
  }

  lemma StartableNow(k: Kern, d: seq<byte>)
    requires Good(k) && UserImage(d) && Starts(d, |k.mem.free|)
    ensures HeaderOk(d) && Inv(k.mem) && Prepare(k.mem, d).Ready? && Owned(k)
  {
    hide Owned, Prepare, HeaderOk, Reaches, SegList, ImagePages, Need;
    OwnedInv(k);
    StartsReady(k.mem, d);
  }

  lemma SeesAfter(k: Kern, d: seq<byte>, es: seq<Event>, p: nat)
    requires Good(k) && UserImage(d) && Prepare(k.mem, d).Ready? && 2048 <= p < PAGES && HeaderOk(d)
    requires k.procs.nextPid < S.MAX && Good(ExecImage(k, d)) && RunOk(ExecImage(k, d), es)
    requires Run(ExecImage(k, d), es).procs.table[k.procs.nextPid].pd != 0
    ensures var r := Run(ExecImage(k, d), es);
            Owned(r) && (Sees(r, k.procs.nextPid, p).Some? <==> Belongs(d, p))
  {
    hide Owned, Inv, ExecImage, Prepare, Run, RunOk, Sees, HeaderOk, Segments, Reaches, Belongs, PageAt;
    OwnedInv(k);
    StartedSees(k, d, p);
    PreparedIs(k.mem, d, p);
    RunIsolates(ExecImage(k, d), es, k.procs.nextPid, p);
  }
}
