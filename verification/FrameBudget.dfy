/**
  How many frames a list of mappings takes, and which.  A page costs one frame, and one more when its directory has no
  table for it yet; frames are handed out from the least free one up.  So what a load takes, how far it gets and whether
  it stays inside the identity map are decided by the file and the free frames before the call.
 */
module FrameBudget {
  import opened Bytes
  import opened Frames
  import opened PageTables
  import opened AddressSpace

  /** The directory entries in use and the frames left. */
  datatype Budget = Budget(tables: set<nat>, frames: nat)

  function Cost(tables: set<nat>, p: nat): (c: nat)
    ensures 1 <= c <= 2
  {
    if p / 1024 in tables then 1 else 2
  }

  /** The budget after mapping a list of pages, and how many of them got mapped. */
  function Spend(b: Budget, ps: seq<nat>): (r: (Budget, nat))
    ensures r.1 <= |ps| && r.0.frames <= b.frames && (r.1 < |ps| ==> r.0.frames == 0)
    decreases |ps|
  {
    if ps == [] then (b, 0)
    else
      var c := Cost(b.tables, ps[0]);
      if c > b.frames then (Budget(b.tables, 0), 0)
      else
        var (b', n) := Spend(Budget(b.tables + {ps[0] / 1024}, b.frames - c), ps[1..]);
        (b', n + 1)
  }

  /** Frames needed to map a whole list. */
  function Need(tables: set<nat>, ps: seq<nat>): nat
    decreases |ps|
  {
    if ps == [] then 0 else Cost(tables, ps[0]) + Need(tables + {ps[0] / 1024}, ps[1..])
  }

  /** The list is mapped in full exactly if the frames it needs are there; otherwise all frames are used up. */
  lemma {:induction false} SpendIs(b: Budget, ps: seq<nat>)
    ensures Spend(b, ps).1 == |ps| <==> Need(b.tables, ps) <= b.frames
    ensures b.frames - Spend(b, ps).0.frames == if Need(b.tables, ps) <= b.frames then Need(b.tables, ps) else b.frames
    decreases |ps|
  {
    if ps != [] && Cost(b.tables, ps[0]) <= b.frames {
      SpendIs(Budget(b.tables + {ps[0] / 1024}, b.frames - Cost(b.tables, ps[0])), ps[1..]);
    }
  }

  lemma {:induction false} SpendConcat(b: Budget, x: seq<nat>, y: seq<nat>)
    ensures Spend(b, x + y) ==
            var (b1, n) := Spend(b, x);
            if n < |x| then (b1, n) else (Spend(b1, y).0, |x| + Spend(b1, y).1)
    decreases |x|
  {
    if x == [] {
      assert x + y == y;
    } else {
      assert (x + y)[0] == x[0] && (x + y)[1..] == x[1..] + y;
      if Cost(b.tables, x[0]) <= b.frames {
        SpendConcat(Budget(b.tables + {x[0] / 1024}, b.frames - Cost(b.tables, x[0])), x[1..], y);
      }
    }
  }

  // ---------------------------------------------------------------- least frames

  /** From free, k frames were taken, each of them below every frame that is left. */
  ghost predicate Took(free: set<nat>, free': set<nat>, k: nat) {
    && free' <= free && |free'| + k == |free|
    && forall f, g :: f in free && f !in free' && g in free' ==> f < g
  }

  lemma RestSize(free: set<nat>, g: set<nat>)
    requires g <= free
    ensures |free - g| == |free| - |g|
  {
    assert free == g + (free - g);
  }

  lemma TookOne(free: set<nat>)
    requires free != {}
    ensures Took(free, free - {Least(free)}, 1)
  {
    RestSize(free, {Least(free)});
  }

  lemma TookTwice(f0: set<nat>, f1: set<nat>, f2: set<nat>, a: nat, b: nat)
    requires Took(f0, f1, a) && Took(f1, f2, b)
    ensures Took(f0, f2, a + b)
  {
  }

  /** Two sets of least frames of the same size are the same. */
  lemma LeastUnique(free: set<nat>, a: set<nat>, b: set<nat>)
    requires a <= free && b <= free && |a| == |b|
    requires forall f, g :: f in a && g in free && g !in a ==> f <= g
    requires forall f, g :: f in b && g in free && g !in b ==> f <= g
    ensures a == b
  {
    if x :| x in a && x !in b {
      Outside(a, b, x);
    }
    if x :| x in b && x !in a {
      Outside(b, a, x);
    }
  }

  lemma Outside(a: set<nat>, b: set<nat>, x: nat)
    requires |a| == |b| && x in a && x !in b
    ensures exists y :: y in b && y !in a
  {
    if b <= a {
      Subset(b, a - {x});
      RestSize(a, {x});
    }
  }

  /** What was taken is what that many allocations hand out. */
  lemma TookGrants(free: set<nat>, free': set<nat>, k: nat)
    requires Took(free, free', k)
    ensures free - free' == Grants(free, k)
  {
    var a, b := free - free', Grants(free, k);
    RestSize(free, free');
    forall f, g | f in b && g in free && g !in b
      ensures f <= g
    {
      GrantsAreLeast(free, k, f, g);
    }
    LeastUnique(free, a, b);
  }

  /** The frames taken all lie inside the identity map exactly if that many frames below 8 MB were free. */
  lemma TookLowIff(free: set<nat>, free': set<nat>, k: nat)
    requires Took(free, free', k)
    ensures AllMapped(free - free') <==> |LowPart(free)| >= k
  {
    TookGrants(free, free', k);
    GrantsStayLow(free, k);
  }

  // ---------------------------------------------------------------- one mapping

  /** The directory entries in use. */
  ghost function Tables(s: Sys, pd: nat): (ts: set<nat>)
    requires |s.mem| == TOTAL && pd < TOTAL
  {
    set i | 0 <= i < 1024 && Present(Word(s.mem[pd], i))
  }

  ghost function BudgetOf(s: Sys, pd: nat): Budget
    requires |s.mem| == TOTAL && pd < TOTAL
  {
    Budget(Tables(s, pd), |s.free|)
  }

  lemma TablesAfter(s: Sys, s': Sys, pd: nat, i: nat, w: word)
    requires |s.mem| == |s'.mem| == TOTAL && pd < TOTAL && i < 1024 && Present(w)
    requires s'.mem[pd] == SetWord(s.mem[pd], i, w)
    ensures Tables(s', pd) == Tables(s, pd) + {i}
  {
    hide Word, SetWord;
    PokedWords(s.mem[pd], i, w);
  }

  lemma AddTableCost(s: Sys, pd: nat, p: nat)
    requires Inv(s) && Is(s, pd, Dir) && p < PAGES
    ensures var (s1, ok) := AddTable(s, pd, p);
            var new' := p / 1024 !in Tables(s, pd);
            && |s1.mem| == TOTAL && (ok <==> !new' || s.free != {})
            && (ok ==> Took(s.free, s1.free, if new' then 1 else 0) && Tables(s1, pd) == Tables(s, pd) + {p / 1024})
            && (!ok ==> s1 == s)
  {
    hide Word, SetWord, RoleOk, Least, Tables;
    TablesHas(s, pd, p / 1024);
    AddTableReady(s, pd, p);
    if !Present(Word(s.mem[pd], p / 1024)) {
      if s.free != {} {
        TookOne(s.free);
        var t := Least(s.free);
        EntryIsPresent(t);
        TablesAfter(s, NewTable(s, pd, p / 1024, t), pd, p / 1024, Entry(t, USER_FLAGS));
      }
    } else {
      assert Tables(s, pd) + {p / 1024} == Tables(s, pd);
    }
  }

  lemma TablesHas(s: Sys, pd: nat, i: nat)
    requires |s.mem| == TOTAL && pd < TOTAL && i < 1024
    ensures i in Tables(s, pd) <==> Present(Word(s.mem[pd], i))
  {
  }

  lemma AddLeafCost(s: Sys, pd: nat, p: nat)
    requires Inv(s) && Is(s, pd, Dir) && p < PAGES && Present(Word(s.mem[pd], p / 1024))
    ensures var (s', ok) := AddLeaf(s, pd, p);
            && |s'.mem| == TOTAL && (ok <==> s.free != {})
            && (ok ==> Took(s.free, s'.free, 1) && Tables(s', pd) == Tables(s, pd)) && (!ok ==> s' == s)
  {
    hide Word, SetWord, Least;
    EntryLeads(s, pd, p / 1024);
    if s.free != {} {
      TookOne(s.free);
      var s' := AddLeaf(s, pd, p).0;
      assert s'.mem[pd] == s.mem[pd];
    }
  }

  /** One turn of paging_alloc_user_pages: it succeeds exactly if its cost is there, and takes the least frames. */
  lemma MapPageCost(s: Sys, pd: nat, p: nat)
    requires Inv(s) && Is(s, pd, Dir) && p < PAGES
    ensures var (s', ok) := MapPage(s, pd, p);
            var c := Cost(Tables(s, pd), p);
            && |s'.mem| == TOTAL && (ok <==> c <= |s.free|)
            && (ok ==> Took(s.free, s'.free, c) && Tables(s', pd) == Tables(s, pd) + {p / 1024})
            && (!ok ==> s'.free == {})
  {
    hide Word, RoleOk, AddTable, AddLeaf, Tables, Least;
    AddTableReady(s, pd, p);
    AddTableCost(s, pd, p);
    var (s1, ok) := AddTable(s, pd, p);
    if ok {
      var c := if p / 1024 in Tables(s, pd) then 0 else 1;
      AddLeafCost(s1, pd, p);
      if s1.free != {} {
        TookTwice(s.free, s1.free, AddLeaf(s1, pd, p).0.free, c, 1);
      }
    }
  }

  /** The result of paging_alloc_user_pages is that of spending the budget, on the least frames. */
  ghost predicate Charged(b: Budget, ps: seq<nat>, free: set<nat>, s': Sys, pd: nat, n: nat) {
    && |s'.mem| == TOTAL && pd < TOTAL && n == Spend(b, ps).1 && |s'.free| == Spend(b, ps).0.frames <= |free|
    && Took(free, s'.free, |free| - |s'.free|) && (n == |ps| ==> BudgetOf(s', pd) == Spend(b, ps).0)
  }

  lemma ChargedStep(b: Budget, ps: seq<nat>, f0: set<nat>, f1: set<nat>, s': Sys, pd: nat, n: nat)
    requires ps != [] && b.frames == |f0| && Cost(b.tables, ps[0]) <= |f0| && Took(f0, f1, Cost(b.tables, ps[0]))
    requires Charged(Budget(b.tables + {ps[0] / 1024}, |f1|), ps[1..], f1, s', pd, n)
    ensures Charged(b, ps, f0, s', pd, n + 1)
  {
    hide Took, Tables;
    var c := Cost(b.tables, ps[0]);
    TookSize(f0, f1, c);
    TookTwice(f0, f1, s'.free, c, |f1| - |s'.free|);
  }

  /** paging_alloc_user_pages maps as many pages as the free frames allow, and takes the least of them. */
  lemma {:induction false} MapPagesCost(s: Sys, pd: nat, ps: seq<nat>)
    requires Inv(s) && Is(s, pd, Dir) && forall k :: 0 <= k < |ps| ==> ps[k] < PAGES
    ensures Charged(BudgetOf(s, pd), ps, s.free, MapPages(s, pd, ps).0, pd, MapPages(s, pd, ps).1)
    decreases |ps|
  {
    hide Inv, MapPage, Tables, Took, Extends, Charged, Spend, Bad, LostFrames;
    DirInMemory(s, pd);
    if ps == [] {
      ChargedNone(s, pd);
    } else {
      MapPageEffect(s, pd, ps[0]);
      MapPageCost(s, pd, ps[0]);
      var (s1, ok) := MapPage(s, pd, ps[0]);
      ExtendsInv(s, s1);
      if ok {
        MapPagesCost(s1, pd, ps[1..]);
        var (s2, n) := MapPages(s1, pd, ps[1..]);
        ChargedStep(BudgetOf(s, pd), ps, s.free, s1.free, s2, pd, n);
      } else {
        ChargedStop(BudgetOf(s, pd), ps, s.free, s1, pd);
      }
    }
  }

  lemma ChargedNone(s: Sys, pd: nat)
    requires |s.mem| == TOTAL && pd < TOTAL
    ensures Charged(BudgetOf(s, pd), [], s.free, s, pd, 0)
  {
    TookEnds(s.free);
  }

  lemma ChargedStop(b: Budget, ps: seq<nat>, free: set<nat>, s': Sys, pd: nat)
    requires ps != [] && b.frames == |free| && Cost(b.tables, ps[0]) > |free|
    requires |s'.mem| == TOTAL && pd < TOTAL && s'.free == {}
    ensures Charged(b, ps, free, s', pd, 0)
  {
    TookEnds(free);
  }

  lemma ExtendsInv(s: Sys, s': Sys)
    requires Inv(s) && Extends(s, s')
    ensures Inv(s')
  {
  }

  lemma TookEnds(free: set<nat>)
    ensures Took(free, free, 0) && Took(free, {}, |free|)
  {
  }

  lemma TookSize(free: set<nat>, free': set<nat>, k: nat)
    requires Took(free, free', k)
    ensures |free'| == |free| - k
  {
  }

  lemma DirInMemory(s: Sys, pd: nat)
    requires Inv(s) && Is(s, pd, Dir)
    ensures |s.mem| == TOTAL && pd < TOTAL
  {
  }


  // ---------------------------------------------------------------- a whole directory

  /** What a new directory starts with when n frames are free: the two kernel entries and one frame less. */
  function Fresh(n: nat): Budget
    requires n > 0
  {
    Budget({0, 1}, n - 1)
  }

  lemma KernelPresent(f: nat)
    requires f < LOW
    ensures Present(Entry(f, KERNEL_FLAGS))
  {
  }

  lemma NewDirBudget(s: Sys, f: nat)
    requires Inv(s) && f in s.free
    ensures KernelOk(s) && f < TOTAL && |NewDir(s, f).mem| == TOTAL
    ensures |s.free| > 0 && BudgetOf(NewDir(s, f), f) == Fresh(|s.free|) && NewDir(s, f).free == s.free - {f}
  {
    hide SetWord, Word, RoleOk;
    FreshDirWords(s, f);
    RestSize(s.free, {f});
    KernelPresent(s.k.pt0);
    KernelPresent(s.k.pt1);
    assert forall i :: 2 <= i < 1024 ==> !Present(Word(NewDir(s, f).mem[f], i));
    assert Tables(NewDir(s, f), f) == {0, 1};
  }

  /**
    Create a directory, map any list of pages into it (perhaps running out of frames midway), destroy it: the free
    set is what it was exactly when the pages that the free frames suffice for are distinct and at or above 8 MB.
   */
  lemma DestroyRestores(s: Sys, ps: seq<nat>)
    requires Inv(s) && s.free != {} && forall k :: 0 <= k < |ps| ==> ps[k] < PAGES
    ensures var pd := Least(s.free);
            && Inv(NewDir(s, pd)) && Is(NewDir(s, pd), pd, Dir)
            && var s' := Destroy(MapPages(NewDir(s, pd), pd, ps).0, pd);
               && Inv(s') && s'.free <= s.free && |s.free| > 0
               && (s'.free == s.free <==> Clean(ps[..Spend(Fresh(|s.free|), ps).1]))
  {
    hide Word, RoleOk, MapPages, Pte, NewDir, Destroy, Least, Clean, LostFrames, Spend, Took, Tables;
    var pd := Least(s.free);
    NewDirIsReady(s, pd);
    var s1 := NewDir(s, pd);
    NewDirBudget(s, pd);
    MapPagesCost(s1, pd, ps);
    MapPagesLoss(s, s1, pd, ps, {});
    var (s', n) := MapPages(s1, pd, ps);
    DestroyKeeps(s', pd);
    FreeIsRest(s, s', pd);
  }
}
