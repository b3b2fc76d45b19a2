/**
  The kernel touches directories, tables and leaves at their physical addresses, through its own map of the first 8 MB.
  So every claim about what it writes rests on that map leading to the frames it works on.  This module says when it
  does: which paging_map_page calls keep it so, and which program starts stay inside it.
 */
module KernelReach {
  import opened Bytes
  import opened Frames
  import opened PageTables
  import opened AddressSpace
  import opened FrameBudget
  import opened Paging
  import opened ElfImage
  import opened Exec
  import opened FrameLoss
  import opened IdentityMap

  /**
    An access of the kernel at the address of frame f is an access to frame f.  An entry that is present suffices: the
    kernel never sets CR0.WP (kernel/paging.c:41-45), so a missing write bit does not stop it.
   */
  ghost predicate Reach(s: Sys, f: nat)
    requires |s.mem| == TOTAL && s.k.pd < TOTAL
  {
    f < 2048 && Pte(s, s.k.pd, f).Some? && FrameNo(Pte(s, s.k.pd, f).value) == f
  }

  /** The kernel reaches its own memory, the first megabyte, and every frame that has a role. */
  ghost predicate Reaches(s: Sys)
    requires |s.mem| == TOTAL && s.k.pd < TOTAL
  {
    (forall f: nat :: f < LOW ==> Reach(s, f)) && (forall f :: f in s.owner ==> Reach(s, f))
  }

  /** What reaching means for a read. */
  lemma ReachReads(s: Sys, f: nat)
    requires |s.mem| == TOTAL && s.k.pd < TOTAL && Reach(s, f) && f < TOTAL
    ensures PageAt(s, s.k.pd, f) == Some(s.mem[f])
  {
    hide Pte;
  }

  /** After paging_init the kernel reaches every frame below 8 MB, and so all it uses. */
  lemma BootReaches(s: Sys)
    requires KernelOk(s) && Identity(s) && s.owner == map[]
    ensures Reaches(s) && forall f: nat :: f < 2048 ==> Reach(s, f)
  {
    hide Pte;
    forall f: nat | f < 2048
      ensures Reach(s, f)
    {
      assert FrameNo(Entry(f, KERNEL_FLAGS)) == f;
    }
  }

  // ---------------------------------------------------------------- paging_map_page

  /** The page is at or above 8 MB, or nothing the kernel uses lies there, or it keeps its frame. */
  ghost predicate MapSpares(s: Sys, virt: word, phys: word) {
    || virt >= 0x80_0000
    || (virt / 4096 >= LOW && virt / 4096 !in s.owner)
    || phys / 4096 == virt / 4096
  }

  /** paging_map_page keeps everything reached if and only if it spares what is in use. */
  lemma MapLowReachesIff(s: Sys, virt: word, phys: word, flags: word)
    requires Inv(s) && Reaches(s)
    ensures var r := MapKernel(s, virt, phys, flags);
            && |r.mem| == TOTAL && r.k.pd < TOTAL
            && (Reaches(r) <==> MapSpares(s, virt, phys))
  {
    hide RoleOk, Pte, KernelPte, FrameNo;
    var r, p := MapKernel(s, virt, phys, flags), virt / 4096;
    MapKernelKeeps(s, virt, phys, flags);
    forall f: nat | f < 2048
      ensures Reach(r, f) <==> if f == p then phys / 4096 == p else Reach(s, f)
    {
    }
    if virt < 0x80_0000 && (p < LOW || p in s.owner) && phys / 4096 != p {
      assert !Reach(r, p);
    }
  }

  // ---------------------------------------------------------------- program starts

  /** Everything that starting the file takes with these free frames is reached; nothing is taken when none is free. */
  ghost predicate Within(s: Sys, d: seq<byte>)
    requires Inv(s) && UserImage(d)
  {
    forall f :: f in Grants(s.free, Takes(d, |s.free|)) ==> Reach(s, f)
  }

  /**
    While the kernel's map leads to the free frames below 8 MB, a start stays within it if and only if enough of
    them are free.
   */
  lemma WithinIff(s: Sys, d: seq<byte>)
    requires Inv(s) && UserImage(d) && forall f :: f in s.free && f < 2048 ==> Reach(s, f)
    ensures Within(s, d) <==> |LowPart(s.free)| >= Takes(d, |s.free|)
  {
    hide RoleOk, Pte, Takes, Grants;
    GrantsStayLow(s.free, Takes(d, |s.free|));
  }

  /** Frames outside the kernel's three decide nothing about its map. */
  lemma OtherFrame(s: Sys, s': Sys, f: nat, fr: Frame, q: nat)
    requires Inv(s) && (f in s.owner || f in s.free) && f < TOTAL && s'.mem == s.mem[f := fr] && s'.k == s.k && q < 2048
    ensures s.k.pd < TOTAL && Pte(s', s.k.pd, q) == Pte(s, s.k.pd, q)
  {
    hide Pte, RoleOk;
    KernelFrames(s, f);
    SameKernelPtes(s, s', q);
  }

  lemma {:induction false} FillPagesLow(s: Sys, pd: nat, d: seq<byte>, g: Seg, ps: seq<nat>, q: nat)
    requires Inv(s) && Is(s, pd, Dir) && FileInside(d, g) && q < 2048
    requires forall k :: 0 <= k < |ps| ==> 2048 <= ps[k] < PAGES
    ensures var s' := FillPages(s, pd, d, g, ps).0;
            s'.k == s.k && |s'.mem| == TOTAL && s.k.pd < TOTAL && Pte(s', s.k.pd, q) == Pte(s, s.k.pd, q)
    decreases |ps|
  {
    hide Word, RoleOk, Pte, PageImage;
    if ps != [] && Pte(s, pd, ps[0]).Some? {
      var w, fr := Pte(s, pd, ps[0]).value, PageImage(d, g, ps[0]);
      PteLeads(s, pd, ps[0]);
      FillKeeps(s, FrameNo(w), fr);
      var s1 := Fill(s, FrameNo(w), fr);
      OtherFrame(s, s1, FrameNo(w), fr, q);
      FillPagesLow(s1, pd, d, g, ps[1..], q);
    }
  }

  lemma LoadSegLow(s: Sys, pd: nat, d: seq<byte>, g: Seg, q: nat)
    requires Inv(s) && Is(s, pd, Dir) && (Loaded(g) ==> UserSeg(g)) && q < 2048
    ensures var s' := LoadSeg(s, pd, d, g).0;
            s'.k == s.k && |s'.mem| == TOTAL && s.k.pd < TOTAL && Pte(s', s.k.pd, q) == Pte(s, s.k.pd, q)
  {
    hide RoleOk, Pte, MapPages, FillPages, SegPages, UserFlagged;
    if Loaded(g) && FileInside(d, g) {
      var ps := SegPages(g);
      SegPagesUser(g);
      MapPagesKeeps(s, pd, ps);
      MapPagesLow(s, pd, ps, q);
      var (s1, n) := MapPages(s, pd, ps);
      if n == |ps| {
        FillPagesLow(s1, pd, d, g, ps, q);
      }
    }
  }

  lemma {:induction false} LoadSegsLow(s: Sys, pd: nat, d: seq<byte>, gs: seq<Seg>, q: nat)
    requires Inv(s) && Is(s, pd, Dir) && (forall k :: 0 <= k < |gs| && Loaded(gs[k]) ==> UserSeg(gs[k])) && q < 2048
    ensures var s' := LoadSegs(s, pd, d, gs).0;
            s'.k == s.k && |s'.mem| == TOTAL && s.k.pd < TOTAL && Pte(s', s.k.pd, q) == Pte(s, s.k.pd, q)
    decreases |gs|
  {
    hide RoleOk, Pte, LoadSeg;
    if gs != [] {
      LoadSegLow(s, pd, d, gs[0], q);
      var (s1, ok) := LoadSeg(s, pd, d, gs[0]);
      if ok {
        LoadSegsLow(s1, pd, d, gs[1..], q);
      }
    }
  }

  lemma PopulateLow(s1: Sys, pd: nat, d: seq<byte>, q: nat)
    requires Inv(s1) && Is(s1, pd, Dir) && UserImage(d) && q < 2048
    ensures var l := Populate(s1, pd, d);
            && !l.NoMemory? && l.mem.k == s1.k && |l.mem.mem| == TOTAL && s1.k.pd < TOTAL
            && Pte(l.mem, s1.k.pd, q) == Pte(s1, s1.k.pd, q)
  {
    hide RoleOk, Pte, LoadSegs, MapPages, SegsMapped, HeaderOk, Segments, UserFlagged, PagesFrom;
    if HeaderOk(d) {
      LoadSegsLow(s1, pd, d, Segments(d), q);
    }
    var (s2, entry) := LoadUser(s1, pd, d);
    if entry != 0 {
      var stack := PagesFrom(STACK_BASE, STACK_PAGES);
      StackClean();
      MapPagesLow(s2, pd, stack, q);
    }
  }

  /** No start of a user image changes the kernel's map. */
  lemma PrepareLow(s: Sys, d: seq<byte>, q: nat)
    requires Inv(s) && UserImage(d) && s.free != {} && q < 2048
    ensures var l := Prepare(s, d);
            && !l.NoMemory? && l.mem.k == s.k && |l.mem.mem| == TOTAL && s.k.pd < TOTAL
            && Pte(l.mem, s.k.pd, q) == Pte(s, s.k.pd, q)
  {
    hide RoleOk, Pte, Populate, Least, SetWord;
    var pd := Least(s.free);
    NewDirIsReady(s, pd);
    OtherFrame(s, NewDir(s, pd), pd, NewDir(s, pd).mem[pd], q);
    PopulateLow(NewDir(s, pd), pd, d, q);
  }

  /** A start gives roles to exactly the frames it takes. */
  lemma PrepareOwners(s: Sys, d: seq<byte>)
    requires Inv(s) && UserImage(d) && s.free != {}
    ensures var l := Prepare(s, d);
            && !l.NoMemory? && Inv(l.mem)
            && forall f: nat :: f in l.mem.owner <==> f in s.owner || f in Grants(s.free, Takes(d, |s.free|))
  {
    hide Prepare, RoleOk, Takes, Grants, Least, Clean;
    var l := Prepare(s, d);
    LoadTakesLeast(s, d);
    PrepareGrew(s, d);
    TakenFree(s, d);
    assert Pool(l.mem) == Pool(s);
    forall f: nat
      ensures f in l.mem.owner <==> f in s.owner || f in s.free - l.mem.free
    {
      assert f in Pool(l.mem) <==> f in Pool(s);
    }
  }

  lemma TakenFree(s: Sys, d: seq<byte>)
    requires Inv(s) && UserImage(d) && s.free != {}
    ensures var l := Prepare(s, d);
            !l.NoMemory? && l.mem.free <= s.free
  {
    hide Prepare, Inv, ImagePages, Startable, Takes;
    PrepareIs(s, d);
  }

  /** The frames a start works on are reached afterwards if and only if the start stays within the kernel's map. */
  lemma PrepareReachesIff(s: Sys, d: seq<byte>)
    requires Inv(s) && Reaches(s) && UserImage(d) && s.free != {}
    ensures var l := Prepare(s, d);
            && !l.NoMemory? && |l.mem.mem| == TOTAL && l.mem.k.pd < TOTAL
            && (Reaches(l.mem) <==> Within(s, d))
  {
    hide Prepare, RoleOk, Pte, Takes, Grants;
    var l := Prepare(s, d);
    PrepareOwners(s, d);
    PrepareLow(s, d, 0);
    forall f: nat
      ensures Reach(l.mem, f) <==> Reach(s, f)
    {
      if f < 2048 {
        PrepareLow(s, d, f);
      }
    }
  }

  /** Destruction takes roles away and writes nothing. */
  lemma DestroyReaches(s: Sys, pd: nat)
    requires Inv(s) && Reaches(s)
    ensures |Destroy(s, pd).mem| == TOTAL && Destroy(s, pd).k.pd < TOTAL && Reaches(Destroy(s, pd))
  {
    hide RoleOk;
    assert Destroy(s, pd).mem == s.mem && Destroy(s, pd).k == s.k;
    assert forall f: nat :: Reach(Destroy(s, pd), f) <==> Reach(s, f);
  }

  lemma KernelInMemory(s: Sys)
    requires Inv(s)
    ensures |s.mem| == TOTAL && s.k.pd < TOTAL
  {
  }

  /** cmd_exec within the kernel's map keeps everything reached. */
  lemma ExecReaches(k: Kern, d: seq<byte>)
    requires Owned(k) && Reaches(k.mem) && UserImage(d) && Within(k.mem, d)
    ensures var m := ExecImage(k, d).mem;
            |m.mem| == TOTAL && m.k.pd < TOTAL && Reaches(m)
  {
    hide Owned, Inv, Prepare, ExecImage, Reaches, Within, Destroy;
    OwnedMemory(k);
    KernelInMemory(k.mem);
    ExecMemory(k, d);
    if k.mem.free != {} {
      var l := Prepare(k.mem, d);
      PrepareReachesIff(k.mem, d);
      PrepareOwners(k.mem, d);
      DestroyReaches(l.mem, l.pd);
    }
  }

  /**
    One paging_map_page call on a page that nothing uses is enough to lead the next start astray: if it sends the
    page of the least free frame f to frame g, the directory of the next program would be written into g.
   */
  lemma RedirectedStart(s: Sys, g: nat, flags: word, d: seq<byte>)
    requires Inv(s) && Reaches(s) && UserImage(d) && s.free != {} && g < PAGES
    requires Least(s.free) < 2048 && g != Least(s.free)
    ensures var f := Least(s.free);
            var r := MapKernel(s, 4096 * f, 4096 * g, flags);
            && MapSpares(s, 4096 * f, 4096 * g) && Inv(r) && Reaches(r) && !Within(r, d)
            && Pte(r, s.k.pd, f).Some? && FrameNo(Pte(r, s.k.pd, f).value) == g
  {
    hide RoleOk, Pte, Least, KernelPte, FrameNo, Need;
    var f := Least(s.free);
    var r := MapKernel(s, 4096 * f, 4096 * g, flags);
    MapKernelKeeps(s, 4096 * f, 4096 * g, flags);
    MapLowReachesIff(s, 4096 * f, 4096 * g, flags);
    FirstGrant(s.free, Takes(d, |s.free|));
  }

  /** The least free frame is the first to go. */
  lemma {:induction false} FirstGrant(free: set<nat>, k: nat)
    requires free != {} && 0 < k <= |free|
    ensures Least(free) in Grants(free, k)
  {
    if Least(free) !in Grants(free, k) {
      var g :| g in Grants(free, k);
      GrantsAreLeast(free, k, g, Least(free));
    }
  }
}
