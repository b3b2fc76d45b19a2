/**
  What a program start takes and what it may lose, decided by the file and the number of free frames before the
  call. An image is clean when its segments share no page with each other or with the stack; starting clean
  images, whether they succeed or fail midway, loses no frame over any run.
 */
module FrameLoss {
  import opened Bytes
  import opened Frames
  import opened PageTables
  import opened AddressSpace
  import opened FrameBudget
  import opened Paging
  import opened ElfImage
  import opened Exec
  import S = Scheduler

  // ---------------------------------------------------------------- loading spends a budget

  /** Copying into mapped pages always succeeds and takes no frame. */
  lemma {:induction false} FillPagesFree(s: Sys, pd: nat, d: seq<byte>, g: Seg, ps: seq<nat>)
    requires Inv(s) && Is(s, pd, Dir) && FileInside(d, g)
    requires forall k :: 0 <= k < |ps| ==> 2048 <= ps[k] < PAGES && Pte(s, pd, ps[k]).Some?
    ensures var (s', ok) := FillPages(s, pd, d, g, ps);
            ok && s'.free == s.free && |s'.mem| == |s.mem| == TOTAL && pd < TOTAL && s'.mem[pd] == s.mem[pd]
    decreases |ps|
  {
    hide Word, RoleOk, Pte, PageImage;
    if ps != [] {
      var w, fr := Pte(s, pd, ps[0]).value, PageImage(d, g, ps[0]);
      PteLeads(s, pd, ps[0]);
      FillKeeps(s, FrameNo(w), fr);
      var s1 := Fill(s, FrameNo(w), fr);
      forall k | 0 <= k < |ps| - 1
        ensures Pte(s1, pd, ps[1..][k]).Some?
      {
        FillShows(s, pd, ps[0], fr, pd, ps[k + 1]);
      }
      FillPagesFree(s1, pd, d, g, ps[1..]);
    }
  }

  lemma ChargedSame(b: Budget, ps: seq<nat>, free: set<nat>, s: Sys, s': Sys, pd: nat, n: nat)
    requires Charged(b, ps, free, s, pd, n) && |s'.mem| == TOTAL && s'.free == s.free && s'.mem[pd] == s.mem[pd]
    ensures Charged(b, ps, free, s', pd, n)
  {
    hide Word, Took, Spend;
    assert Tables(s', pd) == Tables(s, pd);
  }

  /** One segment inside the file: loading it spends the budget on its pages and fails exactly if that runs out. */
  lemma LoadSegCost(s: Sys, pd: nat, d: seq<byte>, g: Seg)
    requires Inv(s) && Is(s, pd, Dir) && Loaded(g) && UserSeg(g) && FileInside(d, g)
    ensures var (s', ok) := LoadSeg(s, pd, d, g);
            var n := Spend(BudgetOf(s, pd), SegPages(g)).1;
            && Charged(BudgetOf(s, pd), SegPages(g), s.free, s', pd, n)
            && (ok <==> n == |SegPages(g)|) && SegMapped(s, pd, d, g) == SegPages(g)[..n]
  {
    DirInMemory(s, pd);
    hide Inv, RoleOk, MapPages, FillPages, SegPages, BudgetOf, Spend, Took;
    var ps := SegPages(g);
    SegPagesUser(g);
    MapPagesKeeps(s, pd, ps);
    MapPagesCost(s, pd, ps);
    var (s1, n) := MapPages(s, pd, ps);
    if n == |ps| {
      forall k | 0 <= k < |ps|
        ensures Pte(s1, pd, ps[k]).Some?
      {
        MapPagesKeepMapped(s, pd, ps, ps[k]);
      }
      FillPagesFree(s1, pd, d, g, ps);
      ChargedSame(BudgetOf(s, pd), ps, s.free, s1, FillPages(s1, pd, d, g, ps).0, pd, n);
    }
  }

  /**
    The pages of the loaded segments in order, up to the first segment that reaches past the file; and whether
    none does.
   */
  function SegList(d: seq<byte>, gs: seq<Seg>): (r: (seq<nat>, bool))
    requires forall k :: 0 <= k < |gs| && Loaded(gs[k]) ==> UserSeg(gs[k])
    decreases |gs|
  {
    if gs == [] then ([], true)
    else if !Loaded(gs[0]) then SegList(d, gs[1..])
    else if !FileInside(d, gs[0]) then ([], false)
    else (SegPages(gs[0]) + SegList(d, gs[1..]).0, SegList(d, gs[1..]).1)
  }

  /** A load that set out to map ps: how far it got, what it took, and whether it went through. */
  ghost predicate LoadCharged(b: Budget, ps: seq<nat>, whole: bool, free: set<nat>, s': Sys, ok: bool, pd: nat,
                              mapped: seq<nat>)
  {
    var n := Spend(b, ps).1;
    Charged(b, ps, free, s', pd, n) && (ok <==> whole && n == |ps|) && mapped == ps[..n]
  }

  lemma ThenLoads(b: Budget, x: seq<nat>, y: seq<nat>, whole: bool, f0: set<nat>, s1: Sys, s2: Sys, ok: bool, pd: nat,
                  m: seq<nat>)
    requires b.frames == |f0| && Charged(b, x, f0, s1, pd, |x|)
    requires LoadCharged(BudgetOf(s1, pd), y, whole, s1.free, s2, ok, pd, m)
    ensures LoadCharged(b, x + y, whole, f0, s2, ok, pd, x + m)
  {
    hide Spend, Took, Tables;
    SpendConcat(b, x, y);
    TookTwice(f0, s1.free, s2.free, |f0| - |s1.free|, |s1.free| - |s2.free|);
    assert (x + y)[..|x| + |m|] == x + y[..|m|];
  }

  lemma StopsEarly(b: Budget, x: seq<nat>, y: seq<nat>, whole: bool, free: set<nat>, s: Sys, pd: nat, n: nat)
    requires Charged(b, x, free, s, pd, n) && n < |x|
    ensures LoadCharged(b, x + y, whole, free, s, false, pd, x[..n] + [])
  {
    hide Spend, Took, Tables;
    SpendConcat(b, x, y);
    assert (x + y)[..n] == x[..n] + [];
  }

  /** Loading any list of segments spends the budget on the page list. */
  lemma {:induction false} LoadSegsCost(s: Sys, pd: nat, d: seq<byte>, gs: seq<Seg>)
    requires Inv(s) && Is(s, pd, Dir) && forall k :: 0 <= k < |gs| && Loaded(gs[k]) ==> UserSeg(gs[k])
    ensures var (s', ok) := LoadSegs(s, pd, d, gs);
            var (ps, whole) := SegList(d, gs);
            LoadCharged(BudgetOf(s, pd), ps, whole, s.free, s', ok, pd, SegsMapped(s, pd, d, gs))
    decreases |gs|
  {
    DirInMemory(s, pd);
    hide Inv, RoleOk, LoadSeg, SegMapped, SegPages, BudgetOf, Charged, Spend, FileInside, UserSeg, LoadCharged;
    if gs == [] {
      ChargedNothing(s, pd, true);
    } else if !Loaded(gs[0]) {
      SkippedSeg(s, pd, d, gs[0]);
      LoadSegsCost(s, pd, d, gs[1..]);
      assert [] + SegsMapped(s, pd, d, gs[1..]) == SegsMapped(s, pd, d, gs[1..]);
    } else if !FileInside(d, gs[0]) {
      ShortSeg(s, pd, d, gs[0]);
      ChargedNothing(s, pd, false);
    } else {
      var (s1, ok) := LoadSeg(s, pd, d, gs[0]);
      if ok {
        LoadSegsCost(s1, pd, d, gs[1..]);
      }
      FirstSegCost(s, pd, d, gs);
    }
  }

  /** From the rest of the list to the list. */
  lemma FirstSegCost(s: Sys, pd: nat, d: seq<byte>, gs: seq<Seg>)
    requires Inv(s) && Is(s, pd, Dir) && forall k :: 0 <= k < |gs| && Loaded(gs[k]) ==> UserSeg(gs[k])
    requires gs != [] && Loaded(gs[0]) && FileInside(d, gs[0])
    requires var (s1, ok) := LoadSeg(s, pd, d, gs[0]);
             var (y, whole) := SegList(d, gs[1..]);
             ok ==> |s1.mem| == TOTAL && pd < TOTAL &&
                    LoadCharged(BudgetOf(s1, pd), y, whole, s1.free, LoadSegs(s1, pd, d, gs[1..]).0,
                                LoadSegs(s1, pd, d, gs[1..]).1, pd, SegsMapped(s1, pd, d, gs[1..]))
    ensures var (s', ok) := LoadSegs(s, pd, d, gs);
            var (ps, whole) := SegList(d, gs);
            && |s.mem| == TOTAL && pd < TOTAL
            && LoadCharged(BudgetOf(s, pd), ps, whole, s.free, s', ok, pd, SegsMapped(s, pd, d, gs))
  {
    DirInMemory(s, pd);
    hide Inv, LoadSeg, SegMapped, SegPages, BudgetOf, Charged, Spend, FileInside, UserSeg, LoadCharged;
    LoadSegCost(s, pd, d, gs[0]);
    var (s1, ok) := LoadSeg(s, pd, d, gs[0]);
    var x := SegPages(gs[0]);
    var (y, whole) := SegList(d, gs[1..]);
    if ok {
      ChargedBudget(s, pd, x, s1);
      ThenLoads(BudgetOf(s, pd), x, y, whole, s.free, s1, LoadSegs(s1, pd, d, gs[1..]).0,
                LoadSegs(s1, pd, d, gs[1..]).1, pd, SegsMapped(s1, pd, d, gs[1..]));
      assert x[..|x|] == x;
    } else {
      StopsEarly(BudgetOf(s, pd), x, y, whole, s.free, s1, pd, Spend(BudgetOf(s, pd), x).1);
    }
  }

  lemma ChargedBudget(s: Sys, pd: nat, x: seq<nat>, s1: Sys)
    requires |s.mem| == TOTAL && pd < TOTAL && Charged(BudgetOf(s, pd), x, s.free, s1, pd, |x|)
    ensures |s1.mem| == TOTAL && BudgetOf(s1, pd) == Spend(BudgetOf(s, pd), x).0
    ensures BudgetOf(s, pd).frames == |s.free|
  {
  }

  lemma ChargedNothing(s: Sys, pd: nat, ok: bool)
    requires |s.mem| == TOTAL && pd < TOTAL
    ensures LoadCharged(BudgetOf(s, pd), [], ok, s.free, s, ok, pd, [])
  {
    ChargedNone(s, pd);
  }

  lemma SkippedSeg(s: Sys, pd: nat, d: seq<byte>, g: Seg)
    requires Inv(s) && Is(s, pd, Dir) && !Loaded(g)
    ensures LoadSeg(s, pd, d, g) == (s, true) && SegMapped(s, pd, d, g) == []
  {
  }

  lemma ShortSeg(s: Sys, pd: nat, d: seq<byte>, g: Seg)
    requires Inv(s) && Is(s, pd, Dir) && Loaded(g) && UserSeg(g) && !FileInside(d, g)
    ensures LoadSeg(s, pd, d, g) == (s, false) && SegMapped(s, pd, d, g) == []
  {
  }

  // ---------------------------------------------------------------- a whole program

  /** The file can become a process: its header is in order, its segments are in the file, its entry is not 0. */
  ghost predicate Startable(d: seq<byte>)
    requires UserImage(d)
  {
    HeaderOk(d) && SegList(d, Segments(d)).1 && U32(d, 24) != 0
  }

  /** The pages cmd_exec sets out to map for a file, in order. */
  ghost function ImagePages(d: seq<byte>): seq<nat>
    requires UserImage(d)
  {
    if !HeaderOk(d) then []
    else SegList(d, Segments(d)).0 + if Startable(d) then PagesFrom(STACK_BASE, STACK_PAGES) else []
  }

  /** How many of its pages get mapped when n frames are free. */
  ghost function Reached(d: seq<byte>, n: nat): (r: nat)
    requires UserImage(d) && n > 0
    ensures r <= |ImagePages(d)|
  {
    Spend(Fresh(n), ImagePages(d)).1
  }

  /**
    How many frames the call takes when n are free: one for the directory and what the pages need, or all there
    are.
   */
  ghost function Takes(d: seq<byte>, n: nat): (t: nat)
    requires UserImage(d)
    ensures t <= n
  {
    var need := 1 + Need({0, 1}, ImagePages(d));
    if need <= n then need else n
  }

  /** With n free frames the file can be started. */
  ghost predicate Starts(d: seq<byte>, n: nat)
    requires UserImage(d)
  {
    Startable(d) && 1 + Need({0, 1}, ImagePages(d)) <= n
  }

  lemma WholeLoad(b: Budget, ps: seq<nat>, whole: bool, free: set<nat>, s: Sys, ok: bool, pd: nat, m: seq<nat>)
    requires LoadCharged(b, ps, whole, free, s, ok, pd, m)
    ensures LoadCharged(b, ps, false, free, s, false, pd, m)
    ensures ok ==> whole && m == ps && Charged(b, ps, free, s, pd, |ps|)
    ensures !ok && whole ==> |m| < |ps| && m == ps[..|m|] && Charged(b, ps, free, s, pd, |m|)
  {
    hide Spend, Charged;
  }

  lemma StackCharged(s: Sys, pd: nat)
    requires Inv(s) && Is(s, pd, Dir)
    ensures var ps := PagesFrom(STACK_BASE, STACK_PAGES);
            var (s', n) := MapPages(s, pd, ps);
            && |s.mem| == TOTAL && pd < TOTAL
            && LoadCharged(BudgetOf(s, pd), ps, true, s.free, s', n == STACK_PAGES, pd, ps[..n])
  {
    DirInMemory(s, pd);
    hide Inv, MapPages, Spend, Took, Tables;
    MapPagesCost(s, pd, PagesFrom(STACK_BASE, STACK_PAGES));
  }

  /** Filling a directory spends its budget on the pages of the image. */
  lemma PopulateCost(s1: Sys, pd: nat, d: seq<byte>)
    requires Inv(s1) && Is(s1, pd, Dir) && UserImage(d)
    ensures var l := Populate(s1, pd, d);
            && |s1.mem| == TOTAL && pd < TOTAL && !l.NoMemory? && l.pd == pd
            && LoadCharged(BudgetOf(s1, pd), ImagePages(d), Startable(d), s1.free, l.mem, l.Ready?, pd, l.mapped)
  {
    hide Inv, LoadSegs, MapPages, SegsMapped, LoadCharged, Charged, Tables, SegList, HeaderOk, Segments, Spend;
    DirInMemory(s1, pd);
    var b := BudgetOf(s1, pd);
    if !HeaderOk(d) {
      ChargedNothing(s1, pd, false);
    } else {
      LoadSegsCost(s1, pd, d, Segments(d));
      var (s2, ok) := LoadSegs(s1, pd, d, Segments(d));
      var (ps, whole) := SegList(d, Segments(d));
      var a := SegsMapped(s1, pd, d, Segments(d));
      WholeLoad(b, ps, whole, s1.free, s2, ok, pd, a);
      assert ps + [] == ps;
      if Startable(d) {
        var stack := PagesFrom(STACK_BASE, STACK_PAGES);
        if ok {
          StackCharged(s2, pd);
          var (s3, n) := MapPages(s2, pd, stack);
          ThenLoads(b, ps, stack, true, s1.free, s2, s3, n == STACK_PAGES, pd, stack[..n]);
          assert n == STACK_PAGES ==> stack[..n] == stack;
        } else {
          StopsEarly(b, ps, stack, true, s1.free, s2, pd, |a|);
          assert a + [] == a;
        }
      }
    }
  }

  /** Preparing a program spends the budget of a new directory on the pages of the image. */
  lemma PrepareCost(s: Sys, d: seq<byte>)
    requires Inv(s) && UserImage(d) && s.free != {}
    ensures var l := Prepare(s, d);
            && !l.NoMemory? && |s.free| > 0
            && LoadCharged(Fresh(|s.free|), ImagePages(d), Startable(d), s.free - {Least(s.free)},
                           l.mem, l.Ready?, l.pd, l.mapped)
  {
    hide Inv, NewDir, Populate, LoadCharged, BudgetOf, Least, ImagePages, Startable;
    var pd := Least(s.free);
    NewDirIsReady(s, pd);
    NewDirBudget(s, pd);
    PopulateCost(NewDir(s, pd), pd, d);
  }

  /**
    How far cmd_exec gets with a file is decided by the file and the number of free frames: the pages it maps,
    whether the program becomes ready, and how many frames it takes, which are the least ones.
   */
  lemma PrepareIs(s: Sys, d: seq<byte>)
    requires Inv(s) && UserImage(d) && s.free != {}
    ensures var l := Prepare(s, d);
            && !l.NoMemory? && |s.free| > 0
            && l.mapped == ImagePages(d)[..Reached(d, |s.free|)]
            && (l.Ready? <==> Starts(d, |s.free|))
            && Took(s.free, l.mem.free, Takes(d, |s.free|))
  {
    hide Inv, Prepare, ImagePages, Startable, Least, Took, Spend, Need, Tables;
    var l := Prepare(s, d);
    PrepareCost(s, d);
    var n := |s.free|;
    SpendIs(Fresh(n), ImagePages(d));
    TookOne(s.free);
    TookSize(s.free, s.free - {Least(s.free)}, 1);
    TookTwice(s.free, s.free - {Least(s.free)}, l.mem.free, 1, n - 1 - |l.mem.free|);
  }

  /**
    The frames cmd_exec takes are those the allocator hands out first; all are inside the identity map exactly if
    that many below 8 MB were free.
   */
  lemma LoadTakesLeast(s: Sys, d: seq<byte>)
    requires Inv(s) && UserImage(d) && s.free != {}
    ensures var l, n := Prepare(s, d), Takes(d, |s.free|);
            && !l.NoMemory? && n <= |s.free|
            && s.free - l.mem.free == Grants(s.free, n)
            && (AllMapped(s.free - l.mem.free) <==> |LowPart(s.free)| >= n)
  {
    hide Inv, Prepare, Took, Takes;
    var l := Prepare(s, d);
    PrepareIs(s, d);
    TookSize(s.free, l.mem.free, Takes(d, |s.free|));
    TookGrants(s.free, l.mem.free, Takes(d, |s.free|));
    TookLowIff(s.free, l.mem.free, Takes(d, |s.free|));
  }

  // ---------------------------------------------------------------- clean images

  /** Segments that share no page with each other or with the stack. */
  ghost predicate CleanImage(d: seq<byte>)
    requires UserImage(d)
  {
    HeaderOk(d) ==>
      PageDisjoint(Segments(d)) &&
      forall k, p :: 0 <= k < |Segments(d)| && Loaded(Segments(d)[k]) && p in PagesFrom(STACK_BASE, STACK_PAGES) ==>
        !InSeg(Segments(d)[k], p)
  }

  lemma CleanPlus(a: seq<nat>, b: seq<nat>)
    ensures Clean(a + b) <==> Clean(a) && Clean(b) && forall p :: p in a ==> p !in b
  {
    CleanConcat({}, a, b);
    assert {} + ToSet(a) == ToSet(a);
    assert forall p :: p in a <==> p in ToSet(a);
    assert forall k :: 0 <= k < |b| ==> b[k] in b;
  }

  lemma CleanPrefix(ps: seq<nat>, n: nat)
    requires Clean(ps) && n <= |ps|
    ensures Clean(ps[..n])
  {
    assert ps == ps[..n] + ps[n..];
    CleanPlus(ps[..n], ps[n..]);
  }

  lemma SegPagesClean(g: Seg)
    requires UserSeg(g)
    ensures Clean(SegPages(g))
  {
    hide PageCount, PagesFrom;
    SegPagesUser(g);
    forall j, k | 0 <= j < k < |SegPages(g)|
      ensures SegPages(g)[j] != SegPages(g)[k]
    {
      SegPagesAre(g, j);
      SegPagesAre(g, k);
    }
  }

  lemma StackClean()
    ensures Clean(PagesFrom(STACK_BASE, STACK_PAGES))
  {
    hide PageNo;
    forall k | 0 <= k < STACK_PAGES
      ensures PageNo(STACK_BASE, k) == STACK_BASE / 4096 + k
    {
      StackPage(k);
    }
  }

  lemma StackPage(k: nat)
    requires k < STACK_PAGES
    ensures PageNo(STACK_BASE, k) == STACK_BASE / 4096 + k
  {
  }

  /** The listed pages are pages of loaded segments; if no segment stopped the list, all of them. */
  lemma {:induction false} SegListIn(d: seq<byte>, gs: seq<Seg>, p: nat)
    requires forall k :: 0 <= k < |gs| && Loaded(gs[k]) ==> UserSeg(gs[k])
    ensures p in SegList(d, gs).0 ==> exists k :: 0 <= k < |gs| && Loaded(gs[k]) && InSeg(gs[k], p)
    ensures SegList(d, gs).1 ==> forall k :: 0 <= k < |gs| && Loaded(gs[k]) && InSeg(gs[k], p) ==> p in SegList(d, gs).0
    decreases |gs|
  {
    hide InSeg, SegPages, UserSeg, FileInside;
    if gs != [] {
      var rest := gs[1..];
      assert forall k :: 0 <= k < |rest| ==> rest[k] == gs[k + 1];
      SegListIn(d, rest, p);
      if Loaded(gs[0]) {
        InSegIff(gs[0], p);
      }
    }
  }

  /**
    Page-disjoint segments list no page twice; and a full list without repetition comes from page-disjoint
    segments.
   */
  lemma {:induction false} SegListClean(d: seq<byte>, gs: seq<Seg>)
    requires forall k :: 0 <= k < |gs| && Loaded(gs[k]) ==> UserSeg(gs[k])
    ensures PageDisjoint(gs) ==> Clean(SegList(d, gs).0)
    ensures SegList(d, gs).1 && Clean(SegList(d, gs).0) ==> PageDisjoint(gs)
    decreases |gs|
  {
    hide InSeg, SegPages, UserSeg, FileInside, Clean;
    if gs == [] {
      CleanNone();
    } else {
      var rest := gs[1..];
      assert forall k :: 0 <= k < |rest| ==> rest[k] == gs[k + 1];
      SegListClean(d, rest);
      DisjointHead(gs);
      if !Loaded(gs[0]) {
      } else if !FileInside(d, gs[0]) {
        CleanNone();
      } else {
        var x, y := SegPages(gs[0]), SegList(d, rest).0;
        SegPagesClean(gs[0]);
        CleanPlus(x, y);
        forall p
          ensures p in x <==> InSeg(gs[0], p)
          ensures p in y ==> exists k :: 0 <= k < |rest| && Loaded(rest[k]) && InSeg(rest[k], p)
          ensures SegList(d, rest).1 ==> forall k :: 0 <= k < |rest| && Loaded(rest[k]) && InSeg(rest[k], p) ==> p in y
        {
          if p >= 0 {
            InSegIff(gs[0], p);
            SegListIn(d, rest, p);
          }
        }
      }
    }
  }

  lemma CleanNone()
    ensures Clean([])
  {
  }

  /** Disjointness of a list, from its head and its rest. */
  lemma DisjointHead(gs: seq<Seg>)
    requires gs != [] && forall k :: 0 <= k < |gs| && Loaded(gs[k]) ==> UserSeg(gs[k])
    ensures var rest := gs[1..];
            PageDisjoint(gs) <==>
              && PageDisjoint(rest)
              && forall k, p :: 0 <= k < |rest| && Loaded(gs[0]) && Loaded(rest[k]) && InSeg(gs[0], p) ==>
                   !InSeg(rest[k], p)
  {
    hide InSeg, UserSeg;
    var rest := gs[1..];
    assert forall k :: 0 <= k < |rest| ==> rest[k] == gs[k + 1];
    assert forall k :: 0 < k < |gs| ==> gs[k] == rest[k - 1];
  }

  /** Clean images ask for no page twice; and a file that can be started and asks for no page twice is clean. */
  lemma CleanImagePages(d: seq<byte>)
    requires UserImage(d)
    ensures CleanImage(d) ==> Clean(ImagePages(d))
    ensures Startable(d) && Clean(ImagePages(d)) ==> CleanImage(d)
  {
    hide HeaderOk, Segments, InSeg, UserSeg, SegList, PagesFrom, PageDisjoint, Clean;
    if !HeaderOk(d) {
      CleanNone();
    } else {
      var gs, stack := Segments(d), PagesFrom(STACK_BASE, STACK_PAGES);
      var ps := SegList(d, gs).0;
      SegListClean(d, gs);
      StackClean();
      CleanPlus(ps, stack);
      assert ps + [] == ps;
      forall p: nat
        ensures p in ps ==> exists k :: 0 <= k < |gs| && Loaded(gs[k]) && InSeg(gs[k], p)
        ensures SegList(d, gs).1 ==> forall k :: 0 <= k < |gs| && Loaded(gs[k]) && InSeg(gs[k], p) ==> p in ps
      {
        SegListIn(d, gs, p);
      }
    }
  }

  // ---------------------------------------------------------------- loss

  /** With n free frames cmd_exec maps no page of this file twice: a condition on the file and the number alone. */
  ghost predicate Harmless(d: seq<byte>, n: nat)
    requires UserImage(d)
  {
    n == 0 || Clean(ImagePages(d)[..Reached(d, n)])
  }

  /** A clean image is harmless whatever is free; with frames enough to start it, only a clean image is. */
  lemma HarmlessWhen(d: seq<byte>, n: nat)
    requires UserImage(d)
    ensures CleanImage(d) ==> Harmless(d, n)
    ensures Starts(d, n) ==> (Harmless(d, n) <==> CleanImage(d))
  {
    hide ImagePages, CleanImage, Startable, Clean, Need;
    CleanImagePages(d);
    var ps := ImagePages(d);
    if CleanImage(d) && n > 0 {
      CleanPrefix(ps, Reached(d, n));
    }
    if n > 0 {
      SpendIs(Fresh(n), ps);
      assert ps[..|ps|] == ps;
    }
  }

  lemma GrewLost(s: Sys, s': Sys, pd: nat)
    requires OnlyGrew(s, s', pd)
    ensures LostFrames(s) <= LostFrames(s')
  {
    hide RoleOk;
  }

  /** Preparing a program loses no frame if and only if it is harmless. */
  lemma PrepareLoss(s: Sys, d: seq<byte>)
    requires Inv(s) && UserImage(d) && s.free != {}
    ensures var l := Prepare(s, d);
            && !l.NoMemory? && OnlyGrew(s, l.mem, l.pd) && LostFrames(Destroy(l.mem, l.pd)) == LostFrames(l.mem)
            && LostFrames(s) <= LostFrames(l.mem)
            && (LostFrames(l.mem) == LostFrames(s) <==> Harmless(d, |s.free|))
  {
    hide Inv, Prepare, OnlyGrew, LostFrames, Clean, ImagePages, Reached, Destroy, Took, Least, Startable;
    var l := Prepare(s, d);
    PrepareIs(s, d);
    PrepareGrew(s, d);
    GrewLost(s, l.mem, l.pd);
    GrewInv(s, l.mem, l.pd);
    DestroyKeeps(l.mem, l.pd);
  }

  /** The memory cmd_exec leaves: the old one, the prepared one, or the prepared one without the directory. */
  lemma ExecMemory(k: Kern, d: seq<byte>)
    requires Owned(k) && UserImage(d)
    ensures var l, m := Prepare(k.mem, d), ExecImage(k, d).mem;
            && (l.NoMemory? <==> k.mem.free == {})
            && (if l.NoMemory? then ExecImage(k, d) == k else m == l.mem || m == Destroy(l.mem, l.pd))
            && (!l.NoMemory? && ExecImage(k, d).procs == k.procs ==> m == Destroy(l.mem, l.pd))
  {
    OwnedMemory(k);
    hide Inv, Owned, Populate, NewDir, Destroy;
    var l := Prepare(k.mem, d);
    if !l.NoMemory? {
      if l.Ready? {
        CreateChanges(k.procs, Program(l.pd, l.entry));
      }
    }
  }

  /** A program start loses no frame if and only if it is harmless. */
  lemma ExecLossIff(k: Kern, d: seq<byte>)
    requires Owned(k) && UserImage(d)
    ensures LostFrames(k.mem) <= LostFrames(ExecImage(k, d).mem)
    ensures LostFrames(ExecImage(k, d).mem) == LostFrames(k.mem) <==> Harmless(d, |k.mem.free|)
  {
    hide Inv, Owned, Prepare, ExecImage, OnlyGrew, LostFrames, Destroy, Clean, Reached, ImagePages;
    OwnedMemory(k);
    ExecMemory(k, d);
    if k.mem.free != {} {
      PrepareLoss(k.mem, d);
    }
  }

  lemma OwnedMemory(k: Kern)
    requires Owned(k)
    ensures Inv(k.mem) && S.TableOk(k.procs)
  {
  }

  /**
    An exec that creates no process gives back every frame if and only if it is harmless: no page it reaches with the
    frames that are free is mapped twice.
   */
  lemma FailedExecRestores(k: Kern, d: seq<byte>)
    requires Owned(k) && UserImage(d) && ExecImage(k, d).procs == k.procs
    ensures ExecImage(k, d).mem.free <= k.mem.free
    ensures ExecImage(k, d).mem.free == k.mem.free <==> Harmless(d, |k.mem.free|)
  {
    hide Inv, Owned, Prepare, ExecImage, OnlyGrew, LostFrames, Destroy, Clean, Reached, ImagePages;
    OwnedMemory(k);
    ExecMemory(k, d);
    if k.mem.free != {} {
      var l := Prepare(k.mem, d);
      PrepareLoss(k.mem, d);
      FreeIsRest(k.mem, l.mem, l.pd);
    }
  }

  ghost predicate HarmlessStep(k: Kern, e: Event)
    requires Typed(e)
  {
    e.Exec? ==> Harmless(e.image, |k.mem.free|)
  }

  lemma KillLoss(k: Kern, pid: nat)
    requires Owned(k) && k.procs.nextPid > 0
    ensures LostFrames(Step(k, Kill(pid)).mem) == LostFrames(k.mem)
  {
    hide Owned, Bury, LostFrames;
    var i := KillSlot(k, pid);
    if i < S.MAX {
      BuryKeeps(k, i);
    }
  }

  lemma ExitLoss(k: Kern)
    requires Owned(k) && k.procs.nextPid > 0
    ensures LostFrames(Step(k, Exit).mem) == LostFrames(k.mem)
  {
    hide Owned, Bury, LostFrames;
    CurUsed(k);
    if k.procs.cur >= 0 {
      BuryKeeps(k, k.procs.cur);
    }
  }

  lemma MapLowLoss(k: Kern, virt: word, phys: word, flags: word)
    requires Owned(k) && k.procs.nextPid > 0
    ensures LostFrames(Step(k, MapLow(virt, phys, flags)).mem) == LostFrames(k.mem)
  {
    hide Owned, Inv, MapKernel, LostFrames;
    OwnedMemory(k);
    MapKernelKeeps(k.mem, virt, phys, flags);
    SameLost(k.mem, MapKernel(k.mem, virt, phys, flags));
  }

  /** One event loses no frame if and only if it is not the start of a harmful image. */
  lemma StepLossIff(k: Kern, e: Event)
    requires Owned(k) && k.procs.nextPid > 0 && Typed(e)
    ensures LostFrames(k.mem) <= LostFrames(Step(k, e).mem)
    ensures LostFrames(Step(k, e).mem) == LostFrames(k.mem) <==> HarmlessStep(k, e)
  {
    hide Owned, Step, LostFrames, Harmless;
    match e
    case Exec(d) => StartLoss(k, d);
    case Kill(pid) => KillLoss(k, pid);
    case Exit => ExitLoss(k);
    case MapLow(virt, phys, flags) => MapLowLoss(k, virt, phys, flags);
    case Proc(p) => ProcLoss(k, p);
  }

  lemma StartLoss(k: Kern, d: seq<byte>)
    requires Owned(k) && k.procs.nextPid > 0 && UserImage(d)
    ensures LostFrames(k.mem) <= LostFrames(Step(k, Exec(d)).mem)
    ensures LostFrames(Step(k, Exec(d)).mem) == LostFrames(k.mem) <==> Harmless(d, |k.mem.free|)
  {
    hide Owned, ExecImage, LostFrames, Harmless;
    ExecLossIff(k, d);
  }

  lemma ProcLoss(k: Kern, p: S.Event)
    requires Owned(k) && Typed(Proc(p))
    ensures Step(k, Proc(p)).mem == k.mem
  {
    hide Owned, S.Step;
  }

  ghost function KillSlot(k: Kern, pid: nat): (i: nat)
    requires Owned(k)
    ensures |k.procs.table| == S.MAX && i == S.FirstKillable(k.procs.table, pid, 0)
    ensures i < S.MAX ==> i < k.procs.nextPid
  {
    S.FirstKillable(k.procs.table, pid, 0)
  }

  lemma CurUsed(k: Kern)
    requires Owned(k)
    ensures |k.procs.table| == S.MAX && k.procs.cur < k.procs.nextPid <= S.MAX
  {
  }

  lemma SameLost(s: Sys, s': Sys)
    requires s.owner == s'.owner
    ensures LostFrames(s') == LostFrames(s)
  {
  }
}
