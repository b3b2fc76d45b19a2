/**
  kernel/paging.c as imperative code over physical memory and the frame allocator.  Directory and table
  words are read and written in place; every call is proved to do what AddressSpace says.
 */
module Paging {
  import opened Bytes
  import opened Frames
  import opened PageTables
  import opened AddressSpace
  import P = Pmm

  /** The pages touched by a call with that base and count, in 32-bit arithmetic. */
  function PagesFrom(base: word, n: nat): (ps: seq<nat>)
    ensures |ps| == n && forall k :: 0 <= k < n ==> ps[k] < PAGES
  {
    seq(n, k requires 0 <= k < n => PageNo(base, k))
  }

  function PageNo(base: word, k: nat): (p: nat)
    ensures p < PAGES
  {
    ((base + 4096 * k) % WORD_LIMIT) / 4096
  }

  /** The frame a physical address lies in. */
  function IndexOf(addr: word): nat {
    addr / PAGE
  }

  /** The frame address in an entry: its flag bits masked off. */
  function FrameAddr(w: word): word {
    w - w % 4096
  }

  lemma FrameAddrIs(w: word)
    ensures IndexOf(FrameAddr(w)) == FrameNo(w)
  {
  }

  /** A frame address with the present, writable and user bits set. */
  function UserEntry(addr: word): word
    requires addr % 4096 == 0
  {
    addr + USER_FLAGS
  }

  lemma UserEntryIs(addr: word)
    requires addr == PAGE * IndexOf(addr)
    ensures addr % 4096 == 0 && IndexOf(addr) < PAGES && UserEntry(addr) == Entry(IndexOf(addr), USER_FLAGS)
  {
  }

  // ---------------------------------------------------------------- what destruction has freed so far

  ghost predicate Before(s: Sys, f: nat, pd: nat, i: nat, j: nat)
    requires f in s.owner
  {
    match s.owner[f]
    case Dir => false
    case Lost => false
    case Table(pd', i') => pd' == pd && i' < i
    case Leaf(t, j') =>
      t in s.owner && s.owner[t].Table? && s.owner[t].pd == pd && (s.owner[t].i < i || (s.owner[t].i == i && j' < j))
  }

  ghost function Released(s: Sys, pd: nat, i: nat, j: nat): set<nat> {
    set f | f in s.owner && Before(s, f, pd, i, j)
  }

  lemma ReleasedNone(s: Sys, pd: nat)
    requires Inv(s)
    ensures Released(s, pd, 2, 0) == {}
  {
    hide Word;
    forall f | f in s.owner
      ensures !Before(s, f, pd, 2, 0)
    {
      assert RoleOk(s, f);
      if s.owner[f].Leaf? {
        assert RoleOk(s, s.owner[f].t);
      }
    }
  }

  lemma ReleasedSkip(s: Sys, pd: nat, i: nat)
    requires Inv(s) && Is(s, pd, Dir) && 2 <= i < 1024 && !Present(Word(s.mem[pd], i))
    ensures Released(s, pd, i + 1, 0) == Released(s, pd, i, 0)
  {
    hide Word, DirOk;
    forall f | f in s.owner
      ensures Before(s, f, pd, i + 1, 0) <==> Before(s, f, pd, i, 0)
    {
      assert RoleOk(s, f);
      if s.owner[f].Leaf? {
        assert RoleOk(s, s.owner[f].t);
      }
      EntryIsPresent(f);
      EntryIsPresent(if s.owner[f].Leaf? then s.owner[f].t else f);
    }
  }

  lemma ReleasedLeaf(s: Sys, pd: nat, i: nat, t: nat, j: nat)
    requires Inv(s) && Is(s, t, Table(pd, i)) && j < 1024
    ensures Released(s, pd, i, j + 1) ==
            Released(s, pd, i, j) + if Displaced(s, t, j).Some? then {Displaced(s, t, j).value} else {}
  {
    hide Word, RoleOk;
    SlotOccupant(s, t, j);
    forall f | f in s.owner
      ensures Before(s, f, pd, i, j + 1) <==> Before(s, f, pd, i, j) || Displaced(s, t, j) == Some(f)
    {
      OneTable(s, pd, i, t);
    }
  }

  /** Freeing the frame in slot j, if there is one, releases one slot more. */
  lemma SlotRelease(s: Sys, pd: nat, i: nat, t: nat, j: nat)
    requires Inv(s) && Is(s, t, Table(pd, i)) && j < 1024
    ensures |s.mem| == TOTAL && t < TOTAL
    ensures var w := Word(s.mem[t], j);
            if Present(w) then FrameNo(w) < TOTAL && Released(s, pd, i, j + 1) == Released(s, pd, i, j) + {FrameNo(w)}
            else Released(s, pd, i, j + 1) == Released(s, pd, i, j)
  {
    hide RoleOk, Word, Released, FrameNo;
    ReleasedLeaf(s, pd, i, t, j);
    SlotOccupant(s, t, j);
  }

  /** A directory entry has one table. */
  lemma OneTable(s: Sys, pd: nat, i: nat, t: nat)
    requires Inv(s) && Is(s, t, Table(pd, i))
    ensures forall u :: u in s.owner && s.owner[u] == Table(pd, i) ==> u == t
  {
    hide Word, DirOk;
    forall u | u in s.owner && s.owner[u] == Table(pd, i)
      ensures u == t
    {
      assert RoleOk(s, u) && RoleOk(s, t);
    }
  }

  lemma ReleasedTable(s: Sys, pd: nat, i: nat, t: nat)
    requires Inv(s) && Is(s, t, Table(pd, i))
    ensures Released(s, pd, i + 1, 0) == Released(s, pd, i, 1024) + {t}
  {
    hide Word, DirOk, TableOk;
    OneTable(s, pd, i, t);
    forall f | f in s.owner
      ensures Before(s, f, pd, i + 1, 0) <==> Before(s, f, pd, i, 1024) || f == t
    {
      assert RoleOk(s, f);
    }
  }

  lemma ReleasedAll(s: Sys, pd: nat)
    requires Inv(s) && Is(s, pd, Dir)
    ensures Released(s, pd, 1024, 0) + {pd} == OwnedBy(s, pd)
  {
    hide Word;
    forall f | f in s.owner
      ensures Before(s, f, pd, 1024, 0) || f == pd <==> PdOf(s, f) == Some(pd)
    {
      assert RoleOk(s, f);
      if s.owner[f].Leaf? {
        assert RoleOk(s, s.owner[f].t);
      }
    }
  }

  // ---------------------------------------------------------------- the kernel's identity map

  /** The table of the t-th 4 MB: page i of it maps to itself. */
  method IdentityTable(t: nat) returns (fr: Frame)
    requires t < 2
    ensures forall i :: 0 <= i < 1024 ==> Word(fr, i) == Entry(1024 * t + i, KERNEL_FLAGS)
  {
    hide Word, SetWord;
    fr := ZERO_FRAME;
    for i := 0 to 1024
      invariant forall j :: 0 <= j < i ==> Word(fr, j) == Entry(1024 * t + j, KERNEL_FLAGS)
    {
      PokedWords(fr, i, Entry(1024 * t + i, KERNEL_FLAGS));
      fr := SetWord(fr, i, Entry(1024 * t + i, KERNEL_FLAGS));
    }
  }

  /** paging_init: the kernel directory and its two tables, in place. */
  method KernelMemory(k: Kernel, ram: seq<Frame>) returns (m: seq<Frame>)
    requires |ram| == TOTAL && k.pd < LOW && k.pt0 < LOW && k.pt1 < LOW
    requires k.pd != k.pt0 && k.pd != k.pt1 && k.pt0 != k.pt1
    ensures KernelOk(Sys(m, {}, map[], k))
    ensures forall i :: 0 <= i < 1024 ==> Word(m[k.pt0], i) == Entry(i, KERNEL_FLAGS)
    ensures forall i :: 0 <= i < 1024 ==> Word(m[k.pt1], i) == Entry(1024 + i, KERNEL_FLAGS)
  {
    hide Word, SetWord;
    var low := IdentityTable(0);
    var high := IdentityTable(1);
    var dir := SetWord(ZERO_FRAME, 0, Entry(k.pt0, KERNEL_FLAGS));
    dir := SetWord(dir, 1, Entry(k.pt1, KERNEL_FLAGS));
    KernelDirWords(k);
    m := ram[k.pt0 := low][k.pt1 := high][k.pd := dir];
  }

  lemma KernelDirWords(k: Kernel)
    requires k.pt0 < LOW && k.pt1 < LOW
    ensures var a := SetWord(ZERO_FRAME, 0, Entry(k.pt0, KERNEL_FLAGS));
            var b := SetWord(a, 1, Entry(k.pt1, KERNEL_FLAGS));
            && Word(b, 0) == Entry(k.pt0, KERNEL_FLAGS) && Word(b, 1) == Entry(k.pt1, KERNEL_FLAGS)
            && forall i :: 2 <= i < 1024 ==> Word(b, i) == 0
  {
    hide Word, SetWord;
    var a := SetWord(ZERO_FRAME, 0, Entry(k.pt0, KERNEL_FLAGS));
    PokedWords(ZERO_FRAME, 0, Entry(k.pt0, KERNEL_FLAGS));
    PokedWords(a, 1, Entry(k.pt1, KERNEL_FLAGS));
    forall i | 2 <= i < 1024
      ensures Word(ZERO_FRAME, i) == 0
    {
      ZeroWords(i);
    }
  }

  lemma KernelEntry(f: nat)
    requires f < 2048
    ensures Present(Entry(f, KERNEL_FLAGS)) && FrameNo(Entry(f, KERNEL_FLAGS)) == f
  {
  }

  /** The kernel directory maps the first 8 MB to themselves. */
  lemma IdentityPtes(s: Sys)
    requires KernelOk(s)
    requires forall i :: 0 <= i < 1024 ==> Word(s.mem[s.k.pt0], i) == Entry(i, KERNEL_FLAGS)
    requires forall i :: 0 <= i < 1024 ==> Word(s.mem[s.k.pt1], i) == Entry(1024 + i, KERNEL_FLAGS)
    ensures forall q :: 0 <= q < 2048 ==> Pte(s, s.k.pd, q) == Some(Entry(q, KERNEL_FLAGS))
  {
    hide Word;
    forall q | 0 <= q < 2048
      ensures Pte(s, s.k.pd, q) == Some(Entry(q, KERNEL_FLAGS))
    {
      KernelEntry(if q < 1024 then s.k.pt0 else s.k.pt1);
      KernelEntry(q);
    }
  }

  // ---------------------------------------------------------------- the code

  class Paging {
    const pmm: P.Pmm
    const k: Kernel
    var mem: seq<Frame>
    ghost var owner: map<nat, Role>

    ghost function View(): Sys
      requires pmm.Valid()
      reads this, pmm.bitmap
    {
      Sys(mem, pmm.FreeSet(), owner, k)
    }

    ghost predicate Valid()
      reads this, pmm, pmm.bitmap
    {
      pmm.Valid() && Inv(View()) && pmm.free == |pmm.FreeSet()|
    }

    /** Boot: no directory exists yet; paging_init builds the kernel's own tables. */
    constructor (p: P.Pmm, kernel: Kernel, ram: seq<Frame>)
      requires p.Valid() && |ram| == TOTAL
      requires p.free == |p.FreeSet()| && forall f :: f in p.FreeSet() ==> LOW <= f < TOTAL
      requires kernel.pd < LOW && kernel.pt0 < LOW && kernel.pt1 < LOW
      requires kernel.pd != kernel.pt0 && kernel.pd != kernel.pt1 && kernel.pt0 != kernel.pt1
      ensures Valid() && pmm == p && k == kernel && owner == map[]
      ensures forall q :: 0 <= q < 2048 ==> Pte(View(), k.pd, q) == Some(Entry(q, KERNEL_FLAGS))
    {
      hide Word, SetWord;
      pmm, k, owner := p, kernel, map[];
      var m := KernelMemory(kernel, ram);
      mem := m;
      new;
      IdentityPtes(View());
    }

    /** pmm_alloc_frame as a caller sees it. */
    method TakeFrame() returns (addr: word)
      requires Valid()
      modifies pmm, pmm.bitmap
      ensures pmm.free == |pmm.FreeSet()|
      ensures old(pmm.FreeSet()) == {} ==> addr == 0 && pmm.FreeSet() == {}
      ensures old(pmm.FreeSet()) != {} ==>
        && addr != 0 && IndexOf(addr) == Least(old(pmm.FreeSet())) && addr == PAGE * IndexOf(addr)
        && pmm.FreeSet() == old(pmm.FreeSet()) - {IndexOf(addr)}
    {
      hide RoleOk;
      addr := pmm.AllocFrame();
    }

    /** paging_create_pd */
    method CreatePd() returns (pd: word)
      requires Valid()
      modifies this, pmm, pmm.bitmap
      ensures Valid()
      ensures old(View()).free == {} ==> pd == 0 && View() == old(View())
      ensures old(View()).free != {} ==>
        && pd != 0 && pd == PAGE * IndexOf(pd) && IndexOf(pd) == Least(old(View()).free)
        && View() == NewDir(old(View()), IndexOf(pd))
    {
      hide RoleOk, Word, SetWord, IndexOf, Least;
      ghost var s := View();
      pd := TakeFrame();
      if pd == 0 {
        return;
      }
      var f := IndexOf(pd);
      mem := mem[f := ZERO_FRAME];
      mem := mem[f := SetWord(mem[f], 0, Word(mem[k.pd], 0))];
      mem := mem[f := SetWord(mem[f], 1, Word(mem[k.pd], 1))];
      owner := owner[f := Dir];
      assert View() == NewDir(s, f);
      NewDirKeeps(s, f);
    }
  
    /** The page-table half of one turn of paging_alloc_user_pages. */
    method EnsureTable(pd: word, p: nat) returns (ok: bool)
      requires Valid() && Is(View(), IndexOf(pd), Dir) && p < PAGES
      modifies this, pmm, pmm.bitmap
      ensures Valid() && (View(), ok) == AddTable(old(View()), IndexOf(pd), p)
    {
      hide RoleOk, Word, SetWord, Least, IndexOf, NewTable, Present;
      ghost var s := View();
      AddTableReady(s, IndexOf(pd), p);
      var d, i := IndexOf(pd), p / 1024;
      if !Present(Word(mem[d], i)) {
        var pt := TakeFrame();
        if pt == 0 {
          return false;
        }
        TableTakenTwice(s, d, i, IndexOf(pt));
        StoreTable(d, i, pt);
      }
      ok := true;
    }

    /** A zeroed frame becomes the table of directory entry i. */
    method StoreTable(d: nat, i: nat, pt: word)
      requires pmm.Valid() && |mem| == TOTAL && d < TOTAL && i < 1024
      requires pt == PAGE * IndexOf(pt) && IndexOf(pt) < TOTAL && IndexOf(pt) !in pmm.FreeSet()
      modifies this
      ensures View() == NewTable(old(View()), d, i, IndexOf(pt))
    {
      hide Word, SetWord, IndexOf;
      ghost var f := IndexOf(pt);
      assert pmm.FreeSet() - {f} == pmm.FreeSet();
      mem := mem[IndexOf(pt) := ZERO_FRAME];
      UserEntryIs(pt);
      mem := mem[d := SetWord(mem[d], i, UserEntry(pt))];
      owner := owner[f := Table(d, i)];
    }

    /** The frame half: a fresh frame in the page's slot, whatever the slot held. */
    method PlaceLeaf(pd: word, p: nat) returns (ok: bool)
      requires Valid() && Is(View(), IndexOf(pd), Dir) && p < PAGES
      requires Present(Word(mem[IndexOf(pd)], p / 1024))
      modifies this, pmm, pmm.bitmap
      ensures Valid() && (View(), ok) == AddLeaf(old(View()), IndexOf(pd), p)
    {
      hide RoleOk, Word, SetWord, Least, IndexOf, FrameNo, UserEntry, Entry, NewLeaf, NewShared, Present;
      ghost var s := View();
      AddLeafExtends(s, IndexOf(pd), p);
      EntryLeads(s, IndexOf(pd), p / 1024);
      var frame := TakeFrame();
      if frame == 0 {
        return false;
      }
      var t := FrameNo(Word(mem[IndexOf(pd)], p / 1024));
      TakenTwice(s, t, p % 1024, IndexOf(frame));
      StoreLeaf(t, p % 1024, frame, p / 1024 < KERNEL_ENTRIES);
      ok := true;
    }

    /** pt[pti] = frame | flags; the ghost roles say who owns the frame now. */
    method StoreLeaf(t: nat, j: nat, frame: word, ghost shared: bool)
      requires pmm.Valid() && |mem| == TOTAL && t < TOTAL && j < 1024
      requires frame == PAGE * IndexOf(frame) && IndexOf(frame) < TOTAL && IndexOf(frame) !in pmm.FreeSet()
      modifies this
      ensures View() == if shared then NewShared(old(View()), t, j, IndexOf(frame))
                        else NewLeaf(old(View()), t, j, IndexOf(frame))
    {
      hide Word, SetWord, IndexOf, FrameNo, UserEntry, Entry;
      ghost var w, f := Word(mem[t], j), IndexOf(frame);
      UserEntryIs(frame);
      mem := mem[t := SetWord(mem[t], j, UserEntry(frame))];
      if shared {
        owner := owner[f := Lost];
      } else {
        owner := (if Present(w) then owner[FrameNo(w) := Lost] else owner)[f := Leaf(t, j)];
      }
      assert pmm.FreeSet() - {f} == pmm.FreeSet();
    }

    /** paging_alloc_user_pages: 0 when every page got a frame, -1 at the first that did not. */
    method AllocUserPages(pd: word, base: word, n: nat) returns (r: int)
      requires Valid() && Is(View(), IndexOf(pd), Dir)
      modifies this, pmm, pmm.bitmap
      ensures Valid() && Is(View(), IndexOf(pd), Dir)
      ensures View() == MapPages(old(View()), IndexOf(pd), PagesFrom(base, n)).0
      ensures r == if MapPages(old(View()), IndexOf(pd), PagesFrom(base, n)).1 == n then 0 else -1
    {
      hide RoleOk, Word, SetWord, AddTable, AddLeaf;
      ghost var s, d, ps := View(), IndexOf(pd), PagesFrom(base, n);
      for i := 0 to n
        invariant Valid() && Is(View(), d, Dir)
        invariant MapPages(s, d, ps).0 == MapPages(View(), d, ps[i..]).0
        invariant MapPages(s, d, ps).1 == i + MapPages(View(), d, ps[i..]).1
      {
        ghost var s1 := View();
        var virt := (base + 4096 * i) % WORD_LIMIT;
        assert ps[i..][0] == IndexOf(virt) && ps[i..][1..] == ps[i + 1..];
        MapPageEffect(s1, d, IndexOf(virt));
        AddTableReady(s1, d, IndexOf(virt));
        var ok := EnsureTable(pd, IndexOf(virt));
        if !ok {
          return -1;
        }
        ok := PlaceLeaf(pd, IndexOf(virt));
        if !ok {
          return -1;
        }
      }
      r := 0;
    }

    /** pmm_free_frame on a frame that is in use. */
    method GiveFrame(addr: word)
      requires pmm.Valid() && pmm.free == |pmm.FreeSet()| && IndexOf(addr) < TOTAL
      modifies pmm, pmm.bitmap
      ensures pmm.free == |pmm.FreeSet()| && pmm.FreeSet() == old(pmm.FreeSet()) + {IndexOf(addr)}
    {
      pmm.FreeFrame(addr);
      if IndexOf(addr) in old(pmm.FreeSet()) {
        assert old(pmm.FreeSet()) + {IndexOf(addr)} == old(pmm.FreeSet());
      }
    }

    /** The free set and its counter while a directory is being destroyed; s is the state before. */
    ghost predicate Freeing(s: Sys, done: set<nat>)
      reads this, pmm, pmm.bitmap
    {
      pmm.Valid() && mem == s.mem && owner == s.owner && pmm.free == |pmm.FreeSet()| && pmm.FreeSet() == s.free + done
    }

    /** Frees the frame in slot j of a page table, if there is one. */
    method FreeSlot(ghost s: Sys, ghost pd: nat, ghost i: nat, t: nat, j: nat)
      requires Inv(s) && Is(s, t, Table(pd, i)) && j < 1024 && Freeing(s, Released(s, pd, i, j))
      modifies pmm, pmm.bitmap
      ensures Freeing(s, Released(s, pd, i, j + 1))
    {
      hide Inv, Word, Released, IndexOf, FrameNo, FrameAddr, Present, Displaced;
      SlotRelease(s, pd, i, t, j);
      var w := Word(mem[t], j);
      FrameAddrIs(w);
      if Present(w) {
        GiveFrame(FrameAddr(w));
      }
    }

    /** Frees the frames of one page table, then the table. */
    method FreeTable(ghost s: Sys, ghost pd: nat, ghost i: nat, pt: word)
      requires Inv(s) && Is(s, IndexOf(pt), Table(pd, i)) && Freeing(s, Released(s, pd, i, 0))
      modifies pmm, pmm.bitmap
      ensures Freeing(s, Released(s, pd, i + 1, 0))
    {
      hide RoleOk, Word, Released, Least, IndexOf;
      for j := 0 to 1024
        invariant Freeing(s, Released(s, pd, i, j))
      {
        FreeSlot(s, pd, i, IndexOf(pt), j);
      }
      ReleasedTable(s, pd, i, IndexOf(pt));
      GiveFrame(pt);
    }

    /** Frees what one directory entry leads to. */
    method FreeEntry(ghost s: Sys, d: nat, i: nat)
      requires Inv(s) && Is(s, d, Dir) && 2 <= i < 1024 && Freeing(s, Released(s, d, i, 0))
      modifies pmm, pmm.bitmap
      ensures Freeing(s, Released(s, d, i + 1, 0))
    {
      hide RoleOk, Word, Released, IndexOf, FrameNo, FrameAddr;
      EntryLeads(s, d, i);
      var w := Word(mem[d], i);
      FrameAddrIs(w);
      if Present(w) {
        FreeTable(s, d, i, FrameAddr(w));
      } else {
        ReleasedSkip(s, d, i);
      }
    }

    /** paging_destroy_pd: everything entries 2 to 1023 reach, then the directory. */
    method DestroyPd(pd: word)
      requires Valid() && Is(View(), IndexOf(pd), Dir)
      modifies this, pmm, pmm.bitmap
      ensures Valid() && View() == Destroy(old(View()), IndexOf(pd))
    {
      hide Inv, Destroy, Released, IndexOf, OwnedBy;
      ghost var s := View();
      var d := IndexOf(pd);
      DirIsTracked(s, d);
      FreeEntries(s, d);
      DestroyIs(s, d, pmm.FreeSet());
      GiveFrame(pd);
      owner := owner - OwnedBy(s, d);
    }

    /** The loop over the user entries of a directory. */
    method FreeEntries(ghost s: Sys, d: nat)
      requires Inv(s) && Is(s, d, Dir) && Freeing(s, {})
      modifies pmm, pmm.bitmap
      ensures Freeing(s, Released(s, d, 1024, 0))
    {
      hide RoleOk, Word, Released, Freeing;
      ReleasedNone(s, d);
      for i := 2 to 1024
        invariant Freeing(s, Released(s, d, i, 0))
      {
        FreeEntry(s, d, i);
      }
    }

    /** paging_map_page: rewrites one entry of the kernel's own tables, or does nothing at or above 8 MB. */
    method MapKernelPage(virt: word, phys: word, flags: word)
      requires Valid()
      modifies this
      ensures Valid() && View() == MapKernel(old(View()), virt, phys, flags)
    {
      hide Inv, Word, SetWord, Present, FrameNo;
      ghost var s := View();
      MapKernelKeeps(s, virt, phys, flags);
      KernelTable(s, virt);
      var pdi, pti := virt / 0x40_0000, (virt / 4096) % 1024;
      var e := Word(mem[k.pd], pdi);
      if !Present(e) {
        return;
      }
      var t := FrameNo(e);
      mem := mem[t := SetWord(mem[t], pti, KernelPte(phys, flags))];
    }
  }

  /** Marking a frame used that is already out of the free set changes nothing more. */
  lemma TakenTwice(s: Sys, t: nat, j: nat, f: nat)
    requires |s.mem| == TOTAL && t < TOTAL && j < 1024 && f < TOTAL
    ensures NewLeaf(s.(free := s.free - {f}), t, j, f) == NewLeaf(s, t, j, f)
    ensures NewShared(s.(free := s.free - {f}), t, j, f) == NewShared(s, t, j, f)
  {
    assert (s.free - {f}) - {f} == s.free - {f};
  }

  lemma TableTakenTwice(s: Sys, pd: nat, i: nat, f: nat)
    requires |s.mem| == TOTAL && pd < TOTAL && i < 1024 && f < TOTAL
    ensures NewTable(s.(free := s.free - {f}), pd, i, f) == NewTable(s, pd, i, f)
  {
    assert (s.free - {f}) - {f} == s.free - {f};
  }

  lemma DirIsTracked(s: Sys, d: nat)
    requires Inv(s) && Is(s, d, Dir)
    ensures d < TOTAL && s.free == s.free + {}
  {
  }

  /** Once the entries are released, giving back the directory itself completes the destruction. */
  lemma DestroyIs(s: Sys, d: nat, free: set<nat>)
    requires Inv(s) && Is(s, d, Dir) && free == s.free + Released(s, d, 1024, 0)
    ensures Inv(Destroy(s, d))
    ensures Destroy(s, d) == s.(free := free + {d}, owner := s.owner - OwnedBy(s, d))
  {
    hide RoleOk, Word, Released;
    ReleasedAll(s, d);
    DestroyKeeps(s, d);
    assert free + {d} == s.free + OwnedBy(s, d);
  }

  /** The entry paging_map_page stores: the frame, the present bit, and flag bits 1 to 11. */
  function KernelPte(phys: word, flags: word): (w: word)
    ensures Present(w) && FrameNo(w) == phys / 4096 && (w % 4096) / 2 == (flags % 4096) / 2
  {
    var low := flags % 4096;
    phys - phys % 4096 + 1 + (low - low % 2)
  }

  /** Memory after paging_map_page. */
  ghost function MapKernel(s: Sys, virt: word, phys: word, flags: word): Sys
    requires KernelOk(s)
  {
    var t, j := if virt < 0x40_0000 then s.k.pt0 else s.k.pt1, (virt / 4096) % 1024;
    if virt >= 0x80_0000 then s else s.(mem := s.mem[t := SetWord(s.mem[t], j, KernelPte(phys, flags))])
  }

  /** The kernel directory has a table for the first 8 MB and for nothing else. */
  lemma KernelTable(s: Sys, virt: word)
    requires Inv(s)
    ensures KernelOk(s) && virt / 0x40_0000 < 1024
    ensures Present(Word(s.mem[s.k.pd], virt / 0x40_0000)) <==> virt < 0x80_0000
    ensures virt < 0x80_0000 ==>
              FrameNo(Word(s.mem[s.k.pd], virt / 0x40_0000)) == if virt < 0x40_0000 then s.k.pt0 else s.k.pt1
  {
    hide RoleOk, Word;
    KernelEntry(s.k.pt0);
    KernelEntry(s.k.pt1);
  }

  /** paging_map_page changes one translation below 8 MB of the kernel directory, and no ownership. */
  lemma MapKernelKeeps(s: Sys, virt: word, phys: word, flags: word)
    requires Inv(s)
    ensures var r := MapKernel(s, virt, phys, flags);
            && Inv(r) && r.owner == s.owner && r.free == s.free
            && (forall q :: 0 <= q < 2048 ==>
                  Pte(r, s.k.pd, q) == if q == virt / 4096 then Some(KernelPte(phys, flags)) else Pte(s, s.k.pd, q))
  {
    hide RoleOk, Word, SetWord;
    if virt < 0x80_0000 {
      var r := MapKernel(s, virt, phys, flags);
      SharedChange(s, r, if virt < 0x40_0000 then s.k.pt0 else s.k.pt1, (virt / 4096) % 1024, KernelPte(phys, flags));
      KernelPtes(s, r, virt / 4096, KernelPte(phys, flags));
    }
  }

  lemma KernelPtes(s: Sys, s': Sys, p: nat, w: word)
    requires KernelOk(s) && KernelOk(s') && s'.k == s.k && p < 2048 && Present(w)
    requires var t := if p < 1024 then s.k.pt0 else s.k.pt1;
             s'.mem == s.mem[t := SetWord(s.mem[t], p % 1024, w)]
    ensures forall q :: 0 <= q < 2048 ==> Pte(s', s.k.pd, q) == if q == p then Some(w) else Pte(s, s.k.pd, q)
  {
    hide Word, SetWord;
    KernelEntry(s.k.pt0);
    KernelEntry(s.k.pt1);
    PokedWords(s.mem[if p < 1024 then s.k.pt0 else s.k.pt1], p % 1024, w);
    forall q | 0 <= q < 2048
      ensures Pte(s', s.k.pd, q) == if q == p then Some(w) else Pte(s, s.k.pd, q)
    {
      assert q / 1024 == 0 || q / 1024 == 1;
      assert q != p ==> q / 1024 != p / 1024 || q % 1024 != p % 1024;
    }
  }
}
