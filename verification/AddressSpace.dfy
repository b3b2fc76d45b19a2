/**
  Mapping pages one by one into a directory, and what that means for translation, for the contents of
  frames already mapped, and for the frames that can be recovered by destroying the directory
  (kernel/paging.c:88-169).
 */
module AddressSpace {
  import opened Bytes
  import opened Frames
  import opened PageTables

  /** The table that a directory entry which is present leads to. */
  lemma EntryLeads(s: Sys, pd: nat, i: nat)
    requires Inv(s) && Is(s, pd, Dir) && i < 1024
    ensures Present(Word(s.mem[pd], i)) <==> Word(s.mem[pd], i) != 0
    ensures i < 2 ==> Present(Word(s.mem[pd], i))
    ensures i == 0 ==> FrameNo(Word(s.mem[pd], i)) == s.k.pt0
    ensures i == 1 ==> FrameNo(Word(s.mem[pd], i)) == s.k.pt1
    ensures i >= 2 && Present(Word(s.mem[pd], i)) ==> Is(s, FrameNo(Word(s.mem[pd], i)), Table(pd, i))
  {
    hide Word;
    assert RoleOk(s, pd);
    if i >= 2 {
      assert SlotOk(s, Word(s.mem[pd], i), Table(pd, i));
    }
  }

  /** The second half of one turn of paging_alloc_user_pages: a frame for the page itself. */
  ghost function AddLeaf(s: Sys, pd: nat, p: nat): (r: (Sys, bool))
    requires Inv(s) && Is(s, pd, Dir) && p < PAGES && Present(Word(s.mem[pd], p / 1024))
  {
    if s.free == {} then (s, false)
    else
      EntryLeads(s, pd, p / 1024);
      var t := FrameNo(Word(s.mem[pd], p / 1024));
      if p / 1024 < KERNEL_ENTRIES then (NewShared(s, t, p % 1024, Least(s.free)), true)
      else (NewLeaf(s, t, p % 1024, Least(s.free)), true)
  }

  lemma NewTableReady(s: Sys, pd: nat, i: nat, t: nat)
    requires Inv(s) && Is(s, pd, Dir) && 2 <= i < 1024 && Word(s.mem[pd], i) == 0 && t in s.free
    ensures Inv(NewTable(s, pd, i, t)) && Is(NewTable(s, pd, i, t), pd, Dir)
    ensures Word(NewTable(s, pd, i, t).mem[pd], i) == Entry(t, USER_FLAGS)
  {
    hide Word, SetWord, RoleOk;
    NewTableKeeps(s, pd, i, t);
    PokedWords(s.mem[pd], i, Entry(t, USER_FLAGS));
  }

  /** The first half: a page table, if the directory has none for this page. */
  ghost function AddTable(s: Sys, pd: nat, p: nat): (r: (Sys, bool))
    requires Inv(s) && Is(s, pd, Dir) && p < PAGES
  {
    if Present(Word(s.mem[pd], p / 1024)) then (s, true)
    else if s.free == {} then (s, false)
    else (NewTable(s, pd, p / 1024, Least(s.free)), true)
  }

  lemma AddTableReady(s: Sys, pd: nat, p: nat)
    requires Inv(s) && Is(s, pd, Dir) && p < PAGES
    ensures var (s', ok) := AddTable(s, pd, p);
            Inv(s') && Is(s', pd, Dir) && (ok ==> Present(Word(s'.mem[pd], p / 1024)))
  {
    hide Word, SetWord, RoleOk;
    EntryLeads(s, pd, p / 1024);
    if !Present(Word(s.mem[pd], p / 1024)) && s.free != {} {
      NewTableReady(s, pd, p / 1024, Least(s.free));
    }
  }

  /** One turn of paging_alloc_user_pages; p is the page number. */
  ghost function MapPage(s: Sys, pd: nat, p: nat): (r: (Sys, bool))
    requires Inv(s) && Is(s, pd, Dir) && p < PAGES
  {
    AddTableReady(s, pd, p);
    var (s1, ok) := AddTable(s, pd, p);
    if ok then AddLeaf(s1, pd, p) else (s1, false)
  }

  /** What a step leaves alone: other directories' roles, the pool, and the contents of every leaf. */
  ghost predicate Extends(s: Sys, s': Sys)
    requires Inv(s)
  {
    && Inv(s') && Pool(s') == Pool(s) && s'.k == s.k
    && (forall g :: g in s.owner ==> g in s'.owner && (s'.owner[g] == s.owner[g] || s.owner[g].Leaf?))
    && (forall g :: g in s'.owner && s'.owner[g] == Dir ==> Is(s, g, Dir))
    && (forall g :: g in s.owner && s.owner[g].Leaf? ==> s'.mem[g] == s.mem[g])
  }

  lemma AddTableExtends(s: Sys, pd: nat, p: nat)
    requires Inv(s) && Is(s, pd, Dir) && p < PAGES
    ensures Extends(s, AddTable(s, pd, p).0) && LostFrames(AddTable(s, pd, p).0) == LostFrames(s)
    ensures forall g :: g in s.owner ==> Is(AddTable(s, pd, p).0, g, s.owner[g])
    ensures AddTable(s, pd, p).1 <==> Present(Word(s.mem[pd], p / 1024)) || s.free != {}
  {
    hide Word, RoleOk, SetWord;
    EntryLeads(s, pd, p / 1024);
    if !Present(Word(s.mem[pd], p / 1024)) && s.free != {} {
      NewTableKeeps(s, pd, p / 1024, Least(s.free));
    }
  }

  lemma AddLeafExtends(s: Sys, pd: nat, p: nat)
    requires Inv(s) && Is(s, pd, Dir) && p < PAGES && Present(Word(s.mem[pd], p / 1024))
    ensures Extends(s, AddLeaf(s, pd, p).0)
    ensures if s.free == {} then AddLeaf(s, pd, p) == (s, false) else AddLeaf(s, pd, p).1
  {
    hide Word, RoleOk, SetWord;
    EntryLeads(s, pd, p / 1024);
    if s.free != {} {
      var t, f := FrameNo(Word(s.mem[pd], p / 1024)), Least(s.free);
      if p / 1024 < KERNEL_ENTRIES {
        NewSharedKeeps(s, t, p % 1024, f);
      } else {
        NewLeafKeeps(s, t, p % 1024, f);
        SlotOccupant(s, t, p % 1024);
      }
    }
  }

  // ---------------------------------------------------------------- translation of user pages

  /** What a user page shows: the frame its entry names, when there is one. */
  function PageAt(s: Sys, pd: nat, p: nat): Option<Frame>
    requires |s.mem| == TOTAL && pd < TOTAL && p < PAGES
  {
    match Pte(s, pd, p)
    case None => None
    case Some(w) => if FrameNo(w) < TOTAL then Some(s.mem[FrameNo(w)]) else None
  }

  /** A user page that is mapped is mapped to the leaf of its own slot. */
  lemma PteLeads(s: Sys, pd: nat, p: nat)
    requires Inv(s) && Is(s, pd, Dir) && 2048 <= p < PAGES && Pte(s, pd, p).Some?
    ensures var w := Pte(s, pd, p).value;
            && TableOf(s, pd, p / 1024).Some? && w == Entry(FrameNo(w), USER_FLAGS)
            && Is(s, TableOf(s, pd, p / 1024).value, Table(pd, p / 1024))
            && Is(s, FrameNo(w), Leaf(TableOf(s, pd, p / 1024).value, p % 1024))
  {
    hide Word, DirOk;
    EntryLeads(s, pd, p / 1024);
    var t := TableOf(s, pd, p / 1024).value;
    SlotOccupant(s, t, p % 1024);
    assert RoleOk(s, FrameNo(Pte(s, pd, p).value));
  }

  /** Adding a page table shows nothing new. */
  lemma AddTablePte(s: Sys, pd: nat, p: nat, e: nat, q: nat)
    requires Inv(s) && Is(s, pd, Dir) && p < PAGES && Is(s, e, Dir) && 2048 <= q < PAGES
    ensures |AddTable(s, pd, p).0.mem| == TOTAL && Pte(AddTable(s, pd, p).0, e, q) == Pte(s, e, q)
  {
    hide Word, SetWord, RoleOk;
    EntryLeads(s, pd, p / 1024);
    EntryLeads(s, e, q / 1024);
    if !Present(Word(s.mem[pd], p / 1024)) && s.free != {} {
      var t := Least(s.free);
      PokedWords(s.mem[pd], p / 1024, Entry(t, USER_FLAGS));
      ZeroWords(q % 1024);
    }
  }

  /** Adding a leaf shows one new page and nothing else. */
  lemma AddLeafPte(s: Sys, pd: nat, p: nat, e: nat, q: nat)
    requires Inv(s) && Is(s, pd, Dir) && p < PAGES && Present(Word(s.mem[pd], p / 1024))
    requires Is(s, e, Dir) && 2048 <= q < PAGES && s.free != {}
    ensures var s' := AddLeaf(s, pd, p).0;
            && |s'.mem| == TOTAL
            && Pte(s', e, q) == if e == pd && q == p then Some(Entry(Least(s.free), USER_FLAGS)) else Pte(s, e, q)
  {
    hide Word, SetWord, RoleOk;
    EntryLeads(s, pd, p / 1024);
    EntryLeads(s, e, q / 1024);
    var t := FrameNo(Word(s.mem[pd], p / 1024));
    PokedWords(s.mem[t], p % 1024, Entry(Least(s.free), USER_FLAGS));
    EntryIsPresent(Least(s.free));
  }

  /** A mapping that costs a frame for good: into the shared kernel tables, or over a page already mapped. */
  ghost predicate Bad(s: Sys, pd: nat, p: nat)
    requires |s.mem| == TOTAL && pd < TOTAL && p < PAGES
  {
    p < 2048 || Pte(s, pd, p).Some?
  }

  lemma AddLeafLoss(s: Sys, pd: nat, p: nat)
    requires Inv(s) && Is(s, pd, Dir) && p < PAGES && Present(Word(s.mem[pd], p / 1024)) && s.free != {}
    ensures Bad(s, pd, p) ==> LostFrames(s) < LostFrames(AddLeaf(s, pd, p).0)
    ensures !Bad(s, pd, p) ==> LostFrames(s) == LostFrames(AddLeaf(s, pd, p).0)
  {
    hide Word, SetWord, RoleOk;
    EntryLeads(s, pd, p / 1024);
    var t, f := FrameNo(Word(s.mem[pd], p / 1024)), Least(s.free);
    if p / 1024 < KERNEL_ENTRIES {
      NewSharedKeeps(s, t, p % 1024, f);
    } else {
      NewLeafKeeps(s, t, p % 1024, f);
      SlotOccupant(s, t, p % 1024);
    }
  }

  lemma ExtendsTrans(a: Sys, b: Sys, c: Sys)
    requires Inv(a) && Extends(a, b) && (forall g :: g in a.owner ==> Is(b, g, a.owner[g])) && Extends(b, c)
    ensures Extends(a, c)
  {
    hide RoleOk;
  }

  /** One mapping step: it fails only for want of frames, and loses a frame exactly when it is bad. */
  lemma MapPageEffect(s: Sys, pd: nat, p: nat)
    requires Inv(s) && Is(s, pd, Dir) && p < PAGES
    ensures var (s', ok) := MapPage(s, pd, p);
            && Extends(s, s') && Is(s', pd, Dir)
            && (ok && Bad(s, pd, p) ==> LostFrames(s) < LostFrames(s'))
            && (!(ok && Bad(s, pd, p)) ==> LostFrames(s') == LostFrames(s))
            && (!ok ==> s'.free == {})
  {
    hide Word, SetWord, RoleOk, Pte, AddTable, AddLeaf;
    var (s1, ok) := AddTable(s, pd, p);
    AddTableReady(s, pd, p);
    AddTableExtends(s, pd, p);
    if ok {
      AddLeafExtends(s1, pd, p);
      ExtendsTrans(s, s1, AddLeaf(s1, pd, p).0);
      if p >= 2048 {
        AddTablePte(s, pd, p, pd, p);
      }
      if s1.free != {} {
        AddLeafLoss(s1, pd, p);
      }
    }
  }

  /** After a successful step exactly that page is newly mapped, to a frame that was free. */
  lemma MapPagePte(s: Sys, pd: nat, p: nat, e: nat, q: nat)
    requires Inv(s) && Is(s, pd, Dir) && p < PAGES && Is(s, e, Dir) && 2048 <= q < PAGES
    ensures var (s', ok) := MapPage(s, pd, p);
            && |s'.mem| == TOTAL
            && (if ok && e == pd && q == p then Pte(s', e, q).Some? && FrameNo(Pte(s', e, q).value) in s.free
                else Pte(s', e, q) == Pte(s, e, q))
  {
    hide Word, SetWord, RoleOk, Pte, AddTable;
    var (s1, ok) := AddTable(s, pd, p);
    AddTableReady(s, pd, p);
    AddTableExtends(s, pd, p);
    AddTablePte(s, pd, p, e, q);
    if ok && s1.free != {} {
      AddLeafPte(s1, pd, p, e, q);
      EntryIsPresent(Least(s1.free));
      AddTableTakes(s, pd, p);
    }
  }

  lemma AddTableTakes(s: Sys, pd: nat, p: nat)
    requires Inv(s) && Is(s, pd, Dir) && p < PAGES
    ensures AddTable(s, pd, p).0.free <= s.free
  {
  }

  // ---------------------------------------------------------------- runs of mappings

  /** paging_alloc_user_pages on a list of pages: stops at the first page it cannot map. */
  ghost function MapPages(s: Sys, pd: nat, ps: seq<nat>): (r: (Sys, nat))
    requires Inv(s) && Is(s, pd, Dir) && forall k :: 0 <= k < |ps| ==> ps[k] < PAGES
    ensures r.1 <= |ps|
    decreases |ps|
  {
    if ps == [] then (s, 0)
    else
      MapPageEffect(s, pd, ps[0]);
      var (s1, ok) := MapPage(s, pd, ps[0]);
      if !ok then (s1, 0)
      else
        var (s2, n) := MapPages(s1, pd, ps[1..]);
        (s2, n + 1)
  }

  /** Relative to s, the state s' has only gained frames of directory pd and lost frames. */
  ghost predicate OnlyGrew(s: Sys, s': Sys, pd: nat) {
    && Inv(s) && Inv(s') && Pool(s') == Pool(s) && s'.k == s.k && Is(s', pd, Dir) && pd !in s.owner
    && (forall g :: g in s.owner ==> Is(s', g, s.owner[g]))
    && (forall g :: g in s'.owner && g !in s.owner ==> PdOf(s', g) == Some(pd) || s'.owner[g] == Lost)
  }

  lemma NewDirGrew(s: Sys, f: nat)
    requires Inv(s) && f in s.free
    ensures OnlyGrew(s, NewDir(s, f), f) && LostFrames(NewDir(s, f)) == LostFrames(s)
    ensures forall p :: 2048 <= p < PAGES ==> Pte(NewDir(s, f), f, p) == None
  {
    hide RoleOk, Word, SetWord;
    NewDirKeeps(s, f);
    FreshDirWords(s, f);
  }

  /** The frame a bad mapping displaces belongs to the directory it is made in. */
  lemma GrewByMap(s: Sys, s1: Sys, pd: nat, p: nat)
    requires OnlyGrew(s, s1, pd) && p < PAGES
    ensures OnlyGrew(s, MapPage(s1, pd, p).0, pd)
  {
    hide RoleOk, Word, MapPage;
    var s2 := MapPage(s1, pd, p).0;
    MapPageEffect(s1, pd, p);
    MapPageRoles(s1, pd, p);
    forall g | g in s.owner
      ensures Is(s2, g, s.owner[g])
    {
      assert PdOf(s1, g) != Some(pd) by {
        OldFrameElsewhere(s, s1, pd, g);
      }
    }
  }

  lemma OldFrameElsewhere(s: Sys, s1: Sys, pd: nat, g: nat)
    requires OnlyGrew(s, s1, pd) && g in s.owner
    ensures PdOf(s1, g) != Some(pd)
  {
    assert RoleOk(s, g);
    assert Is(s1, g, s.owner[g]);
    if s.owner[g].Leaf? {
      assert RoleOk(s, s.owner[g].t);
    }
  }

  /** s' changes roles only inside directory pd, and gives new frames to it or to nobody. */
  ghost predicate Local(s: Sys, s': Sys, pd: nat) {
    && (forall g :: g in s.owner && PdOf(s, g) != Some(pd) ==> Is(s', g, s.owner[g]))
    && (forall g :: g in s'.owner ==>
          if g in s.owner then s'.owner[g] == s.owner[g] || s'.owner[g] == Lost
          else PdOf(s', g) == Some(pd) || s'.owner[g] == Lost)
    && (forall g :: g in s.owner && g in s'.owner && s'.owner[g] == s.owner[g] ==> PdOf(s', g) == PdOf(s, g))
  }

  lemma AddTableLocal(s: Sys, pd: nat, p: nat)
    requires Inv(s) && Is(s, pd, Dir) && p < PAGES
    ensures Local(s, AddTable(s, pd, p).0, pd)
  {
    hide Word, SetWord;
    AddTableExtends(s, pd, p);
    TablesStay(s, AddTable(s, pd, p).0);
    hide RoleOk;
  }

  /** If tables and directories keep their roles, so do the owners of all frames that keep theirs. */
  lemma TablesStay(s: Sys, s': Sys)
    requires Inv(s) && Extends(s, s')
    ensures forall g :: g in s.owner && g in s'.owner && s'.owner[g] == s.owner[g] ==> PdOf(s', g) == PdOf(s, g)
  {
    hide Word, DirOk, TableOk;
    forall g | g in s.owner && g in s'.owner && s'.owner[g] == s.owner[g]
      ensures PdOf(s', g) == PdOf(s, g)
    {
      assert RoleOk(s, g);
    }
  }

  lemma NewLeafLocal(s: Sys, pd: nat, t: nat, j: nat, f: nat)
    requires Inv(s) && t in s.owner && s.owner[t].Table? && s.owner[t].pd == pd && j < 1024 && f in s.free
    requires Extends(s, NewLeaf(s, t, j, f))
    ensures Local(s, NewLeaf(s, t, j, f), pd)
  {
    hide Word, SetWord, RoleOk, Extends;
    var s' := NewLeaf(s, t, j, f);
    SlotOccupant(s, t, j);
    TablesStay(s, s');
  }

  lemma NewSharedLocal(s: Sys, pd: nat, t: nat, j: nat, f: nat)
    requires Inv(s) && t < TOTAL && j < 1024 && f in s.free && Extends(s, NewShared(s, t, j, f))
    ensures Local(s, NewShared(s, t, j, f), pd)
  {
    hide Word, SetWord, RoleOk, Extends;
    TablesStay(s, NewShared(s, t, j, f));
  }

  lemma AddLeafLocal(s: Sys, pd: nat, p: nat)
    requires Inv(s) && Is(s, pd, Dir) && p < PAGES && Present(Word(s.mem[pd], p / 1024))
    ensures Local(s, AddLeaf(s, pd, p).0, pd)
  {
    hide Word, SetWord, RoleOk, Extends, NewLeaf, NewShared;
    AddLeafExtends(s, pd, p);
    EntryLeads(s, pd, p / 1024);
    var t := FrameNo(Word(s.mem[pd], p / 1024));
    if s.free == {} {
    } else if p / 1024 >= KERNEL_ENTRIES {
      NewLeafLocal(s, pd, t, p % 1024, Least(s.free));
    } else {
      NewSharedLocal(s, pd, t, p % 1024, Least(s.free));
    }
  }

  lemma MapPageRoles(s: Sys, pd: nat, p: nat)
    requires Inv(s) && Is(s, pd, Dir) && p < PAGES
    ensures Local(s, MapPage(s, pd, p).0, pd)
  {
    hide Word, SetWord, RoleOk, AddTable, AddLeaf;
    var (s1, ok) := AddTable(s, pd, p);
    AddTableReady(s, pd, p);
    AddTableExtends(s, pd, p);
    AddTableLocal(s, pd, p);
    if ok {
      AddLeafLocal(s1, pd, p);
    }
  }

  /** Pages at or above 8 MB, each listed once. */
  ghost predicate Clean(ps: seq<nat>) {
    && (forall k :: 0 <= k < |ps| ==> ps[k] >= 2048)
    && (forall j, k :: 0 <= j < k < |ps| ==> ps[j] != ps[k])
  }

  /** In directory pd exactly the user pages of `seen` are mapped. */
  ghost predicate Shows(s: Sys, pd: nat, seen: set<nat>)
    requires |s.mem| == TOTAL && pd < TOTAL
  {
    forall p :: 2048 <= p < PAGES ==> (Pte(s, pd, p).Some? <==> p in seen)
  }

  lemma ShowsAfter(s: Sys, pd: nat, p: nat, seen: set<nat>)
    requires Inv(s) && Is(s, pd, Dir) && p < PAGES && Shows(s, pd, seen) && MapPage(s, pd, p).1
    ensures |MapPage(s, pd, p).0.mem| == TOTAL && Shows(MapPage(s, pd, p).0, pd, seen + {p})
  {
    hide Word, RoleOk, MapPage, Pte;
    var s' := MapPage(s, pd, p).0;
    MapPageEffect(s, pd, p);
    forall q | 2048 <= q < PAGES
      ensures Pte(s', pd, q).Some? <==> q in seen + {p}
    {
      MapPagePte(s, pd, p, pd, q);
    }
  }

  /** The mapped pages of a run, and whether any of them was bad. */
  ghost predicate CleanAfter(seen: set<nat>, ps: seq<nat>) {
    Clean(ps) && forall k :: 0 <= k < |ps| ==> ps[k] !in seen
  }

  /** A run of mappings loses frames exactly when it maps a page below 8 MB or a page twice. */
  lemma {:induction false} MapPagesLoss(base: Sys, s: Sys, pd: nat, ps: seq<nat>, seen: set<nat>)
    requires OnlyGrew(base, s, pd) && Shows(s, pd, seen) && forall k :: 0 <= k < |ps| ==> ps[k] < PAGES
    ensures var (s', n) := MapPages(s, pd, ps);
            && OnlyGrew(base, s', pd) && LostFrames(s) <= LostFrames(s')
            && (LostFrames(s') == LostFrames(s) <==> CleanAfter(seen, ps[..n]))
    decreases |ps|
  {
    hide Word, RoleOk, MapPage, Pte, Shows, LostFrames, CleanAfter, Bad, OnlyGrew, Extends;
    GrewInv(base, s, pd);
    if ps == [] {
      CleanAfterNone(seen);
    } else {
      var p := ps[0];
      var (s1, ok) := MapPage(s, pd, p);
      MapPageEffect(s, pd, p);
      GrewByMap(base, s, pd, p);
      GrewInv(base, s1, pd);
      if ok {
        ShowsAfter(s, pd, p, seen);
        MapPagesLoss(base, s1, pd, ps[1..], seen + {p});
        var n := MapPages(s1, pd, ps[1..]).1;
        BadIff(s, pd, p, seen);
        CleanStep(seen, ps[..n + 1]);
        assert ps[..n + 1][1..] == ps[1..][..n];
      } else {
        CleanAfterNone(seen);
      }
    }
  }

  lemma GrewInv(base: Sys, s: Sys, pd: nat)
    requires OnlyGrew(base, s, pd)
    ensures Inv(s) && Is(s, pd, Dir) && |s.mem| == TOTAL && pd < TOTAL
  {
  }

  lemma CleanAfterNone(seen: set<nat>)
    ensures CleanAfter(seen, [])
  {
  }

  lemma BadIff(s: Sys, pd: nat, p: nat, seen: set<nat>)
    requires |s.mem| == TOTAL && pd < TOTAL && p < PAGES && Shows(s, pd, seen)
    ensures Bad(s, pd, p) <==> p < 2048 || p in seen
  {
  }

  lemma CleanStep(seen: set<nat>, ps: seq<nat>)
    requires ps != []
    ensures CleanAfter(seen, ps) <==> ps[0] >= 2048 && ps[0] !in seen && CleanAfter(seen + {ps[0]}, ps[1..])
  {
    assert forall k :: 0 <= k < |ps| - 1 ==> ps[1..][k] == ps[k + 1];
    if ps[0] >= 2048 && ps[0] !in seen && CleanAfter(seen + {ps[0]}, ps[1..]) {
      forall k | 0 <= k < |ps|
        ensures ps[k] >= 2048 && ps[k] !in seen && forall j :: 0 <= j < k ==> ps[j] != ps[k]
      {
        assert k > 0 ==> ps[1..][k - 1] == ps[k];
      }
    }
  }

  lemma NewDirIsReady(s: Sys, f: nat)
    requires Inv(s) && f in s.free
    ensures OnlyGrew(s, NewDir(s, f), f) && LostFrames(NewDir(s, f)) == LostFrames(s)
    ensures |NewDir(s, f).mem| == TOTAL && f < TOTAL && Shows(NewDir(s, f), f, {})
  {
    NewDirGrew(s, f);
    hide RoleOk, Word, Pte;
  }

  /** What destruction does not give back is what was lost since. */
  lemma FreeIsRest(s: Sys, s': Sys, pd: nat)
    requires OnlyGrew(s, s', pd)
    ensures Destroy(s', pd).free <= s.free
    ensures Destroy(s', pd).free == s.free <==> LostFrames(s') <= LostFrames(s)
  {
    hide RoleOk, KernelOk;
    var r := Destroy(s', pd);
    forall f | f in r.free
      ensures f in s.free
    {
      assert f in Pool(s');
      if f in s.owner {
        OldFrameElsewhere(s, s', pd, f);
      }
    }
    forall f | f in s.free && f !in r.free
      ensures f in LostFrames(s') && f !in LostFrames(s)
    {
      assert f in Pool(s');
    }
    forall f | f in LostFrames(s') && f !in LostFrames(s)
      ensures f in s.free && f !in r.free
    {
      assert f in Pool(s);
    }
  }

  // ---------------------------------------------------------------- contents through mappings

  /** Mapping a page leaves what every other user page shows. */
  lemma MapPageShows(s: Sys, pd: nat, p: nat, e: nat, q: nat)
    requires Inv(s) && Is(s, pd, Dir) && p < PAGES && Is(s, e, Dir) && 2048 <= q < PAGES && !(e == pd && q == p)
    ensures |MapPage(s, pd, p).0.mem| == TOTAL && PageAt(MapPage(s, pd, p).0, e, q) == PageAt(s, e, q)
  {
    hide Word, RoleOk, MapPage, Pte;
    MapPagePte(s, pd, p, e, q);
    MapPageEffect(s, pd, p);
    if Pte(s, e, q).Some? {
      PteLeads(s, e, q);
    }
  }

  /** So does mapping a list of pages that leaves that page out. */
  lemma {:induction false} MapPagesShow(s: Sys, pd: nat, ps: seq<nat>, e: nat, q: nat)
    requires Inv(s) && Is(s, pd, Dir) && (forall k :: 0 <= k < |ps| ==> ps[k] < PAGES)
    requires Is(s, e, Dir) && 2048 <= q < PAGES && !(e == pd && q in ps)
    ensures var s' := MapPages(s, pd, ps).0;
            Inv(s') && Is(s', pd, Dir) && Is(s', e, Dir) && PageAt(s', e, q) == PageAt(s, e, q)
    decreases |ps|
  {
    hide Word, RoleOk, MapPage, Pte, PageAt;
    if ps != [] {
      var (s1, ok) := MapPage(s, pd, ps[0]);
      MapPageShows(s, pd, ps[0], e, q);
      MapPageEffect(s, pd, ps[0]);
      if ok {
        MapPagesShow(s1, pd, ps[1..], e, q);
      }
    }
  }

  /** A mapped page stays mapped. */
  lemma {:induction false} MapPagesKeepMapped(s: Sys, pd: nat, ps: seq<nat>, q: nat)
    requires Inv(s) && Is(s, pd, Dir) && (forall k :: 0 <= k < |ps| ==> ps[k] < PAGES)
    requires 2048 <= q < PAGES && (Pte(s, pd, q).Some? || (q in ps && MapPages(s, pd, ps).1 == |ps|))
    ensures var s' := MapPages(s, pd, ps).0;
            Inv(s') && Is(s', pd, Dir) && Pte(s', pd, q).Some?
    decreases |ps|
  {
    hide Word, RoleOk, MapPage, Pte;
    if ps != [] {
      var (s1, ok) := MapPage(s, pd, ps[0]);
      MapPagePte(s, pd, ps[0], pd, q);
      MapPageEffect(s, pd, ps[0]);
      if ok {
        assert q in ps ==> q == ps[0] || q in ps[1..];
        MapPagesKeepMapped(s1, pd, ps[1..], q);
      }
    }
  }

  /** The invariant and the pool over a whole call. */
  lemma {:induction false} MapPagesKeeps(s: Sys, pd: nat, ps: seq<nat>)
    requires Inv(s) && Is(s, pd, Dir) && (forall k :: 0 <= k < |ps| ==> ps[k] < PAGES)
    ensures var s' := MapPages(s, pd, ps).0;
            && Inv(s') && Is(s', pd, Dir) && Pool(s') == Pool(s) && s'.k == s.k
            && (forall g :: Is(s', g, Dir) <==> Is(s, g, Dir))
    decreases |ps|
  {
    hide Word, RoleOk, MapPage;
    if ps != [] {
      var (s1, ok) := MapPage(s, pd, ps[0]);
      MapPageEffect(s, pd, ps[0]);
      SameDirs(s, s1);
      if ok {
        MapPagesKeeps(s1, pd, ps[1..]);
      }
    }
  }

  lemma SameDirs(s: Sys, s': Sys)
    requires Inv(s) && Extends(s, s')
    ensures forall g :: Is(s', g, Dir) <==> Is(s, g, Dir)
  {
    hide RoleOk, KernelOk;
  }

  /** Writing into the frame of one page leaves translation and every other page alone. */
  lemma FillShows(s: Sys, pd: nat, p: nat, fr: Frame, e: nat, q: nat)
    requires Inv(s) && Is(s, pd, Dir) && 2048 <= p < PAGES
    requires Pte(s, pd, p).Some? && FrameNo(Pte(s, pd, p).value) < TOTAL
    requires Is(s, e, Dir) && 2048 <= q < PAGES
    ensures var s' := Fill(s, FrameNo(Pte(s, pd, p).value), fr);
            && Pte(s', e, q) == Pte(s, e, q)
            && PageAt(s', e, q) == if e == pd && q == p then Some(fr) else PageAt(s, e, q)
  {
    hide Word, RoleOk;
    var f := FrameNo(Pte(s, pd, p).value);
    PteLeads(s, pd, p);
    EntryLeads(s, e, q / 1024);
    if Pte(s, e, q).Some? {
      PteLeads(s, e, q);
    }
  }
}
