/**
  The kernel reaches every frame, its own code and its tables through the identity map of the first 8 MB, which all
  directories share.  Mapping a page below 8 MB into any directory overwrites that map for everybody.
 */
module IdentityMap {
  import opened Bytes
  import opened Frames
  import opened PageTables
  import opened AddressSpace
  import opened FrameBudget
  import opened Paging

  /** Every page below 8 MB translates to itself, for the kernel only. */
  ghost predicate Identity(s: Sys)
    requires |s.mem| == TOTAL && s.k.pd < TOTAL
  {
    forall q :: 0 <= q < 2048 ==> Pte(s, s.k.pd, q) == Some(Entry(q, KERNEL_FLAGS))
  }

  predicate UserFlagged(w: word) {
    w % 4096 == USER_FLAGS
  }

  lemma EntryFlags(f: nat)
    requires f < PAGES
    ensures Present(Entry(f, USER_FLAGS)) && UserFlagged(Entry(f, USER_FLAGS)) && !UserFlagged(Entry(f, KERNEL_FLAGS))
  {
  }

  lemma KernelFrames(s: Sys, f: nat)
    requires Inv(s) && (f in s.owner || f in s.free)
    ensures f != s.k.pd && f != s.k.pt0 && f != s.k.pt1
  {
    hide RoleOk;
  }

  /** The kernel's translations depend on its directory and its two tables alone. */
  lemma SameKernelPtes(s: Sys, s': Sys, q: nat)
    requires KernelOk(s) && |s'.mem| == TOTAL && s'.k == s.k && q < 2048
    requires s'.mem[s.k.pd] == s.mem[s.k.pd] && s'.mem[s.k.pt0] == s.mem[s.k.pt0] && s'.mem[s.k.pt1] == s.mem[s.k.pt1]
    ensures Pte(s', s.k.pd, q) == Pte(s, s.k.pd, q)
  {
    hide Word;
    KernelEntry(s.k.pt0);
    KernelEntry(s.k.pt1);
    assert q / 1024 == 0 || q / 1024 == 1;
  }

  lemma AddTableLow(s: Sys, pd: nat, p: nat, q: nat)
    requires Inv(s) && Is(s, pd, Dir) && p < PAGES && q < 2048
    ensures var s1 := AddTable(s, pd, p).0;
            s1.k == s.k && |s1.mem| == TOTAL && s.k.pd < TOTAL && Pte(s1, s.k.pd, q) == Pte(s, s.k.pd, q)
  {
    hide Word, SetWord, RoleOk, Pte, Least;
    AddTableReady(s, pd, p);
    KernelFrames(s, pd);
    if s.free != {} {
      KernelFrames(s, Least(s.free));
    }
    SameKernelPtes(s, AddTable(s, pd, p).0, q);
  }

  lemma AddLeafLow(s: Sys, pd: nat, p: nat, q: nat)
    requires Inv(s) && Is(s, pd, Dir) && p < PAGES && q < 2048 && Present(Word(s.mem[pd], p / 1024))
    ensures var (s', ok) := AddLeaf(s, pd, p);
            && s'.k == s.k && |s'.mem| == TOTAL && s.k.pd < TOTAL
            && (if ok && q == p then Pte(s', s.k.pd, q).Some? && UserFlagged(Pte(s', s.k.pd, q).value)
                else Pte(s', s.k.pd, q) == Pte(s, s.k.pd, q))
  {
    hide Word, SetWord, RoleOk, Pte, Least;
    EntryLeads(s, pd, p / 1024);
    if s.free != {} {
      var s', t, f := AddLeaf(s, pd, p).0, FrameNo(Word(s.mem[pd], p / 1024)), Least(s.free);
      EntryFlags(f);
      if p < 2048 {
        SharedChange(s, s', t, p % 1024, Entry(f, USER_FLAGS));
        KernelPtes(s, s', p, Entry(f, USER_FLAGS));
      } else {
        KernelFrames(s, t);
        SameKernelPtes(s, s', q);
      }
    }
  }

  /** One mapping changes the kernel's translation of a low page exactly if it maps that page. */
  lemma MapPageLow(s: Sys, pd: nat, p: nat, q: nat)
    requires Inv(s) && Is(s, pd, Dir) && p < PAGES && q < 2048
    ensures var (s', ok) := MapPage(s, pd, p);
            && s'.k == s.k && |s'.mem| == TOTAL && s.k.pd < TOTAL
            && (if ok && q == p then Pte(s', s.k.pd, q).Some? && UserFlagged(Pte(s', s.k.pd, q).value)
                else Pte(s', s.k.pd, q) == Pte(s, s.k.pd, q))
  {
    hide Word, RoleOk, Pte, AddTable, AddLeaf;
    AddTableReady(s, pd, p);
    AddTableLow(s, pd, p, q);
    var (s1, ok) := AddTable(s, pd, p);
    if ok {
      AddLeafLow(s1, pd, p, q);
    }
  }

  lemma {:induction false} MapPagesLow(s: Sys, pd: nat, ps: seq<nat>, q: nat)
    requires Inv(s) && Is(s, pd, Dir) && q < 2048 && forall k :: 0 <= k < |ps| ==> ps[k] < PAGES
    ensures var (s', n) := MapPages(s, pd, ps);
            && s'.k == s.k && |s'.mem| == TOTAL && s.k.pd < TOTAL
            && (if q in ps[..n] then Pte(s', s.k.pd, q).Some? && UserFlagged(Pte(s', s.k.pd, q).value)
                else Pte(s', s.k.pd, q) == Pte(s, s.k.pd, q))
    decreases |ps|
  {
    hide Word, RoleOk, Pte, MapPage, UserFlagged;
    if ps != [] {
      MapPageEffect(s, pd, ps[0]);
      MapPageLow(s, pd, ps[0], q);
      var (s1, ok) := MapPage(s, pd, ps[0]);
      if ok {
        MapPagesLow(s1, pd, ps[1..], q);
        var n := MapPages(s1, pd, ps[1..]).1;
        assert ps[..n + 1] == [ps[0]] + ps[1..][..n];
      }
    }
  }

  /**
    paging_alloc_user_pages keeps the kernel's identity map if and only if no page that the free frames suffice for lies
    below 8 MB.
   */
  lemma IdentityKeptIff(s: Sys, pd: nat, ps: seq<nat>)
    requires Inv(s) && Is(s, pd, Dir) && Identity(s) && forall k :: 0 <= k < |ps| ==> ps[k] < PAGES
    ensures var s' := MapPages(s, pd, ps).0;
            && |s'.mem| == TOTAL && s'.k == s.k && |s.mem| == TOTAL && pd < TOTAL
            && (Identity(s') <==> forall k :: 0 <= k < Spend(BudgetOf(s, pd), ps).1 ==> ps[k] >= 2048)
  {
    hide Inv, MapPages, Pte, Spend, Took, Tables, UserFlagged, Identity;
    DirInMemory(s, pd);
    MapPagesCost(s, pd, ps);
    MapPagesLow(s, pd, ps, 0);
    var n := MapPages(s, pd, ps).1;
    if k :| 0 <= k < n && ps[k] < 2048 {
      IdentityBroken(s, pd, ps, k);
    } else {
      IdentityStays(s, pd, ps);
    }
  }

  lemma IdentityBroken(s: Sys, pd: nat, ps: seq<nat>, k: nat)
    requires Inv(s) && Is(s, pd, Dir) && forall j :: 0 <= j < |ps| ==> ps[j] < PAGES
    requires k < MapPages(s, pd, ps).1 && ps[k] < 2048
    ensures var s' := MapPages(s, pd, ps).0;
            |s'.mem| == TOTAL && s'.k.pd < TOTAL && !Identity(s')
  {
    hide Inv, MapPages, Pte, UserFlagged;
    assert ps[k] in ps[..MapPages(s, pd, ps).1];
    MapPagesLow(s, pd, ps, ps[k]);
    EntryFlags(ps[k]);
  }

  lemma IdentityStays(s: Sys, pd: nat, ps: seq<nat>)
    requires Inv(s) && Is(s, pd, Dir) && Identity(s) && forall j :: 0 <= j < |ps| ==> ps[j] < PAGES
    requires forall k :: 0 <= k < MapPages(s, pd, ps).1 ==> ps[k] >= 2048
    ensures var s' := MapPages(s, pd, ps).0;
            |s'.mem| == TOTAL && s'.k.pd < TOTAL && Identity(s')
  {
    hide Inv, MapPages, Pte, UserFlagged;
    MapPagesLow(s, pd, ps, 0);
    forall q | 0 <= q < 2048
      ensures Pte(MapPages(s, pd, ps).0, s.k.pd, q) == Some(Entry(q, KERNEL_FLAGS))
    {
      MapPagesLow(s, pd, ps, q);
    }
  }
}
