/**
  Who owns a page directory: cmd_exec in kernel/shell.c creates one, loads an image, adds a stack and hands it to
  a process, or destroys it on each failure branch; process_exit and process_kill destroy what a
  process owns (kernel/process.c:151-184).  Over every run each live directory belongs to exactly
  one process, and what a failed or finished program does not give back is exactly what it mapped badly.
 */
module Exec {
  import opened Bytes
  import opened Frames
  import opened PageTables
  import opened AddressSpace
  import opened Paging
  import opened ElfImage
  import S = Scheduler

  const STACK_TOP: word := 0x102_0000
  const STACK_PAGES: nat := 4
  const STACK_BASE: word := STACK_TOP - 4096 * STACK_PAGES

  // ---------------------------------------------------------------- growth through a whole load

  lemma GrewByFill(base: Sys, s: Sys, pd: nat, f: nat, fr: Frame)
    requires OnlyGrew(base, s, pd) && f in s.owner && s.owner[f].Leaf?
    ensures OnlyGrew(base, Fill(s, f, fr), pd) && LostFrames(Fill(s, f, fr)) == LostFrames(s)
  {
    hide RoleOk, Word;
    FillKeeps(s, f, fr);
    assert forall g :: g in s.owner ==> PdOf(Fill(s, f, fr), g) == PdOf(s, g);
  }

  lemma {:induction false} FillPagesGrew(base: Sys, s: Sys, pd: nat, d: seq<byte>, g: Seg, ps: seq<nat>, seen: set<nat>)
    requires OnlyGrew(base, s, pd) && FileInside(d, g) && Shows(s, pd, seen)
    requires forall k :: 0 <= k < |ps| ==> 2048 <= ps[k] < PAGES
    ensures var s' := FillPages(s, pd, d, g, ps).0;
            OnlyGrew(base, s', pd) && LostFrames(s') == LostFrames(s) && Shows(s', pd, seen)
    decreases |ps|
  {
    hide Word, RoleOk, Pte, PageImage, LostFrames;
    if ps != [] && Pte(s, pd, ps[0]).Some? {
      var w, fr := Pte(s, pd, ps[0]).value, PageImage(d, g, ps[0]);
      PteLeads(s, pd, ps[0]);
      GrewByFill(base, s, pd, FrameNo(w), fr);
      var s1 := Fill(s, FrameNo(w), fr);
      forall q | 2048 <= q < PAGES
        ensures Pte(s1, pd, q) == Pte(s, pd, q)
      {
        FillShows(s, pd, ps[0], fr, pd, q);
      }
      FillPagesGrew(base, s1, pd, d, g, ps[1..], seen);
    }
  }

  function ToSet(ps: seq<nat>): set<nat> {
    set k | 0 <= k < |ps| :: ps[k]
  }

  /** What a directory shows after a list of mappings. */
  lemma {:induction false} MapPagesSeen(s: Sys, pd: nat, ps: seq<nat>, seen: set<nat>)
    requires Inv(s) && Is(s, pd, Dir) && Shows(s, pd, seen) && forall k :: 0 <= k < |ps| ==> ps[k] < PAGES
    ensures var (s', n) := MapPages(s, pd, ps);
            |s'.mem| == TOTAL && Shows(s', pd, seen + ToSet(ps[..n]))
    decreases |ps|
  {
    hide Word, RoleOk, MapPage, Pte, Shows;
    if ps == [] {
      assert seen + ToSet(ps[..0]) == seen;
    } else {
      var (s1, ok) := MapPage(s, pd, ps[0]);
      MapPageEffect(s, pd, ps[0]);
      if ok {
        ShowsAfter(s, pd, ps[0], seen);
        MapPagesSeen(s1, pd, ps[1..], seen + {ps[0]});
        var n := MapPages(s1, pd, ps[1..]).1;
        ToSetCons(ps[..n + 1]);
        assert ps[..n + 1][1..] == ps[1..][..n];
        assert seen + {ps[0]} + ToSet(ps[1..][..n]) == seen + ToSet(ps[..n + 1]);
      } else {
        ShowsUnchanged(s, pd, ps[0], seen);
        assert seen + ToSet(ps[..0]) == seen;
      }
    }
  }

  lemma ToSetCons(ps: seq<nat>)
    requires ps != []
    ensures ToSet(ps) == {ps[0]} + ToSet(ps[1..])
  {
    forall x | x in ToSet(ps)
      ensures x in {ps[0]} + ToSet(ps[1..])
    {
      var k :| 0 <= k < |ps| && ps[k] == x;
      assert k > 0 ==> ps[1..][k - 1] == x;
    }
    assert forall k :: 0 <= k < |ps| - 1 ==> ps[1..][k] == ps[k + 1];
  }

  lemma ShowsUnchanged(s: Sys, pd: nat, p: nat, seen: set<nat>)
    requires Inv(s) && Is(s, pd, Dir) && p < PAGES && Shows(s, pd, seen) && !MapPage(s, pd, p).1
    ensures |MapPage(s, pd, p).0.mem| == TOTAL && Shows(MapPage(s, pd, p).0, pd, seen)
  {
    hide Word, RoleOk, MapPage, Pte;
    var s' := MapPage(s, pd, p).0;
    MapPageEffect(s, pd, p);
    forall q | 2048 <= q < PAGES
      ensures Pte(s', pd, q).Some? <==> q in seen
    {
      MapPagePte(s, pd, p, pd, q);
    }
  }

  /** CleanAfter over a concatenation. */
  lemma CleanConcat(seen: set<nat>, a: seq<nat>, b: seq<nat>)
    ensures CleanAfter(seen, a + b) <==> CleanAfter(seen, a) && CleanAfter(seen + ToSet(a), b)
  {
    var c := a + b;
    if CleanAfter(seen, c) {
      assert forall k :: 0 <= k < |a| ==> a[k] == c[k];
      assert forall k :: 0 <= k < |b| ==> b[k] == c[|a| + k];
      forall k | 0 <= k < |b|
        ensures b[k] !in seen + ToSet(a)
      {
        assert forall j :: 0 <= j < |a| ==> c[j] != c[|a| + k];
        assert forall j :: 0 <= j < |a| ==> a[j] != b[k];
      }
    }
    if CleanAfter(seen, a) && CleanAfter(seen + ToSet(a), b) {
      forall k | 0 <= k < |c|
        ensures c[k] >= 2048 && c[k] !in seen && forall j :: 0 <= j < k ==> c[j] != c[k]
      {
        if k >= |a| {
          assert c[k] == b[k - |a|];
          forall j | 0 <= j < k
            ensures c[j] != c[k]
          {
            if j < |a| {
              assert c[j] == a[j] && a[j] in ToSet(a);
            } else {
              assert c[j] == b[j - |a|];
            }
          }
        }
      }
    }
  }

  /** The pages a segment gets mapped before the loader goes on or gives up. */
  ghost function SegMapped(s: Sys, pd: nat, d: seq<byte>, g: Seg): seq<nat>
    requires Inv(s) && Is(s, pd, Dir) && (Loaded(g) ==> UserSeg(g))
  {
    if !Loaded(g) || !FileInside(d, g) then []
    else
      SegPagesUser(g);
      SegPages(g)[..MapPages(s, pd, SegPages(g)).1]
  }

  ghost function SegsMapped(s: Sys, pd: nat, d: seq<byte>, gs: seq<Seg>): seq<nat>
    requires Inv(s) && Is(s, pd, Dir) && forall k :: 0 <= k < |gs| && Loaded(gs[k]) ==> UserSeg(gs[k])
    decreases |gs|
  {
    if gs == [] then []
    else
      var (s1, ok) := LoadSeg(s, pd, d, gs[0]);
      SegMapped(s, pd, d, gs[0]) + if ok then SegsMapped(s1, pd, d, gs[1..]) else []
  }

  /** s' grew from s by mapping exactly the pages ps into pd, and lost frames exactly if that was not clean. */
  ghost predicate GrewBy(base: Sys, s: Sys, s': Sys, pd: nat, seen: set<nat>, ps: seq<nat>) {
    && OnlyGrew(base, s', pd) && LostFrames(s) <= LostFrames(s') && Shows(s', pd, seen + ToSet(ps))
    && (LostFrames(s') == LostFrames(s) <==> CleanAfter(seen, ps))
  }

  lemma GrewNone(base: Sys, s: Sys, pd: nat, seen: set<nat>)
    requires OnlyGrew(base, s, pd) && Shows(s, pd, seen)
    ensures GrewBy(base, s, s, pd, seen, [])
  {
    hide OnlyGrew, LostFrames, Pte;
    assert seen + ToSet([]) == seen;
    GrewInv(base, s, pd);
  }

  lemma GrewTwice(base: Sys, s: Sys, s1: Sys, s2: Sys, pd: nat, seen: set<nat>, a: seq<nat>, b: seq<nat>)
    requires OnlyGrew(base, s, pd) && GrewBy(base, s, s1, pd, seen, a) && GrewBy(base, s1, s2, pd, seen + ToSet(a), b)
    ensures GrewBy(base, s, s2, pd, seen, a + b)
  {
    hide OnlyGrew, Shows, CleanAfter, LostFrames;
    CleanConcat(seen, a, b);
    ToSetConcat(a, b);
    assert seen + ToSet(a) + ToSet(b) == seen + ToSet(a + b);
  }

  lemma ToSetConcat(a: seq<nat>, b: seq<nat>)
    ensures ToSet(a + b) == ToSet(a) + ToSet(b)
  {
    var c := a + b;
    forall x
      ensures x in ToSet(c) <==> x in ToSet(a) + ToSet(b)
    {
      if x in ToSet(c) {
        var k :| 0 <= k < |c| && c[k] == x;
        if k < |a| {
          assert a[k] == x;
        } else {
          assert b[k - |a|] == x;
        }
      }
      if x in ToSet(a) {
        var k :| 0 <= k < |a| && a[k] == x;
        assert c[k] == x;
      }
      if x in ToSet(b) {
        var k :| 0 <= k < |b| && b[k] == x;
        assert c[|a| + k] == x;
      }
    }
  }

  lemma MapPagesGrewBy(base: Sys, s: Sys, pd: nat, ps: seq<nat>, seen: set<nat>)
    requires OnlyGrew(base, s, pd) && Shows(s, pd, seen) && forall k :: 0 <= k < |ps| ==> ps[k] < PAGES
    ensures Inv(s) && Is(s, pd, Dir)
    ensures GrewBy(base, s, MapPages(s, pd, ps).0, pd, seen, ps[..MapPages(s, pd, ps).1])
  {
    GrewInv(base, s, pd);
    hide OnlyGrew, Shows, CleanAfter, LostFrames, MapPages;
    MapPagesLoss(base, s, pd, ps, seen);
    MapPagesSeen(s, pd, ps, seen);
  }

  lemma LoadSegGrew(base: Sys, s: Sys, pd: nat, d: seq<byte>, g: Seg, seen: set<nat>)
    requires OnlyGrew(base, s, pd) && Shows(s, pd, seen) && (Loaded(g) ==> UserSeg(g))
    ensures Inv(s) && Is(s, pd, Dir)
    ensures GrewBy(base, s, LoadSeg(s, pd, d, g).0, pd, seen, SegMapped(s, pd, d, g))
  {
    GrewInv(base, s, pd);
    hide OnlyGrew, Shows, CleanAfter, LostFrames, MapPages, FillPages;
    if !Loaded(g) || !FileInside(d, g) {
      GrewNone(base, s, pd, seen);
    } else {
      SegPagesUser(g);
      var ps := SegPages(g);
      MapPagesGrewBy(base, s, pd, ps, seen);
      var (s1, n) := MapPages(s, pd, ps);
      if n == |ps| {
        FillPagesGrew(base, s1, pd, d, g, ps, seen + ToSet(ps[..n]));
      }
    }
  }

  lemma {:induction false} LoadSegsGrew(base: Sys, s: Sys, pd: nat, d: seq<byte>, gs: seq<Seg>, seen: set<nat>)
    requires OnlyGrew(base, s, pd) && Shows(s, pd, seen)
    requires forall k :: 0 <= k < |gs| && Loaded(gs[k]) ==> UserSeg(gs[k])
    ensures Inv(s) && Is(s, pd, Dir)
    ensures GrewBy(base, s, LoadSegs(s, pd, d, gs).0, pd, seen, SegsMapped(s, pd, d, gs))
    decreases |gs|
  {
    GrewInv(base, s, pd);
    hide OnlyGrew, Shows, CleanAfter, LostFrames, LoadSeg, SegMapped;
    if gs == [] {
      GrewNone(base, s, pd, seen);
    } else {
      LoadSegGrew(base, s, pd, d, gs[0], seen);
      var (s1, ok) := LoadSeg(s, pd, d, gs[0]);
      var a := SegMapped(s, pd, d, gs[0]);
      if ok {
        LoadSegsGrew(base, s1, pd, d, gs[1..], seen + ToSet(a));
        GrewTwice(base, s, s1, LoadSegs(s1, pd, d, gs[1..]).0, pd, seen, a, SegsMapped(s1, pd, d, gs[1..]));
      } else {
        assert a + [] == a;
      }
    }
  }

  // ---------------------------------------------------------------- the kernel state and its calls

  datatype Kern = Kern(mem: Sys, procs: S.Sched)

  function PdAddr(f: nat): word
    requires f < TOTAL
  {
    4096 * f
  }

  /** Every directory belongs to exactly one process, and only a process that still runs owns one. */
  ghost predicate Owned(k: Kern) {
    && Inv(k.mem) && S.TableOk(k.procs)
    && (forall i :: 0 <= i < S.MAX && k.procs.table[i].pd != 0 ==>
          && k.procs.table[i].status != S.Unused && k.procs.table[i].status != S.Zombie
          && Is(k.mem, IndexOf(k.procs.table[i].pd), Dir)
          && k.procs.table[i].pd == 4096 * IndexOf(k.procs.table[i].pd))
    && (forall f: nat :: Is(k.mem, f, Dir) ==> exists i :: 0 <= i < S.MAX && k.procs.table[i].pd == 4096 * f)
    && (forall i, j :: 0 <= i < j < S.MAX && k.procs.table[i].pd != 0 ==> k.procs.table[i].pd != k.procs.table[j].pd)
  }

  datatype Loading =
    | NoMemory
    | Failed(mem: Sys, pd: nat, mapped: seq<nat>)
    | Ready(mem: Sys, pd: nat, mapped: seq<nat>, entry: word)

  /** What process_create_user is called with: the directory, the entry point, the top of the stack. */
  function Program(pd: nat, entry: word): S.Birth {
    S.Birth(if pd < TOTAL then PdAddr(pd) else 0, entry, STACK_TOP)
  }

  /** The image and then the stack into a new directory, and the pages mapped on the way. */
  ghost function Populate(s1: Sys, pd: nat, d: seq<byte>): Loading
    requires Inv(s1) && Is(s1, pd, Dir) && UserImage(d)
  {
    var (s2, entry) := LoadUser(s1, pd, d);
    var a := if HeaderOk(d) then SegsMapped(s1, pd, d, Segments(d)) else [];
    if entry == 0 then Failed(s2, pd, a)
    else
      var ps := PagesFrom(STACK_BASE, STACK_PAGES);
      var (s3, n) := MapPages(s2, pd, ps);
      if n < STACK_PAGES then Failed(s3, pd, a + ps[..n]) else Ready(s3, pd, a + ps, entry)
  }

  /** cmd_exec up to process_create_user. */
  ghost function Prepare(s: Sys, d: seq<byte>): Loading
    requires Inv(s) && UserImage(d)
  {
    if s.free == {} then NoMemory
    else
      var pd := Least(s.free);
      NewDirIsReady(s, pd);
      Populate(NewDir(s, pd), pd, d)
  }

  /** cmd_exec: what the kernel state is after the call, without the final switch. */
  ghost function ExecImage(k: Kern, d: seq<byte>): Kern
    requires Owned(k) && UserImage(d)
  {
    match Prepare(k.mem, d)
    case NoMemory => k
    case Failed(s, pd, _) => k.(mem := Destroy(s, pd))
    case Ready(s, pd, _, entry) =>
      var (procs, slot) := S.CreateProc(k.procs, Program(pd, entry));
      if slot < 0 then k.(mem := Destroy(s, pd)) else Kern(s, procs)
  }

  /** Everything up to the hand-over only grew the new directory. */
  lemma PrepareGrew(s: Sys, d: seq<byte>)
    requires Inv(s) && UserImage(d) && s.free != {}
    ensures var l := Prepare(s, d);
            && !l.NoMemory? && l.pd == Least(s.free) && OnlyGrew(s, l.mem, l.pd)
            && |l.mem.mem| == TOTAL && l.pd < TOTAL && Shows(l.mem, l.pd, ToSet(l.mapped))
            && (LostFrames(l.mem) <= LostFrames(s) <==> Clean(l.mapped))
  {
    hide Shows, LostFrames, MapPages, LoadSegs, HeaderOk, Segments, Clean, SegsMapped, NewDir, Least;
    var pd := Least(s.free);
    NewDirIsReady(s, pd);
    var s1 := NewDir(s, pd);
    var a := if HeaderOk(d) then SegsMapped(s1, pd, d, Segments(d)) else [];
    if HeaderOk(d) {
      LoadSegsGrew(s, s1, pd, d, Segments(d), {});
    } else {
      GrewNone(s, s1, pd, {});
    }
    var (s2, entry) := LoadUser(s1, pd, d);
    assert GrewBy(s, s1, s2, pd, {}, a);
    if entry != 0 {
      var ps := PagesFrom(STACK_BASE, STACK_PAGES);
      var (s3, n) := MapPages(s2, pd, ps);
      MapPagesGrewBy(s, s2, pd, ps, {} + ToSet(a));
      GrewTwice(s, s1, s2, s3, pd, {}, a, ps[..n]);
      assert n == STACK_PAGES ==> ps[..n] == ps;
    }
    CleanFromStart(Prepare(s, d).mapped);
    assert {} + ToSet(Prepare(s, d).mapped) == ToSet(Prepare(s, d).mapped);
  }

  lemma CleanFromStart(ps: seq<nat>)
    ensures CleanAfter({}, ps) <==> Clean(ps)
  {
  }

  lemma CreateChanges(p: S.Sched, b: S.Birth)
    requires S.TableOk(p)
    ensures S.CreateProc(p, b).1 >= 0 ==> S.CreateProc(p, b).0 != p
  {
  }

  // ---------------------------------------------------------------- ownership over runs

  /** After growth the directories are the old ones and the new one; after destruction, the old ones. */
  lemma GrownDirs(s: Sys, s': Sys, pd: nat)
    requires OnlyGrew(s, s', pd)
    ensures forall f: nat :: Is(s', f, Dir) <==> Is(s, f, Dir) || f == pd
    ensures Inv(Destroy(s', pd)) && Pool(Destroy(s', pd)) == Pool(s)
    ensures forall f: nat :: Is(Destroy(s', pd), f, Dir) <==> Is(s, f, Dir)
  {
    DestroyKeeps(s', pd);
    hide RoleOk, KernelOk;
    forall f: nat | Is(s', f, Dir) && !Is(s, f, Dir)
      ensures f == pd
    {
      assert PdOf(s', f) == Some(f);
    }
    forall f: nat | Is(s, f, Dir)
      ensures Is(s', f, Dir) && f != pd
    {
      assert Is(s', f, s.owner[f]);
    }
    DestroyedDirs(s', pd);
  }

  /** Destruction removes one directory and no other. */
  lemma DestroyedDirs(s: Sys, pd: nat)
    requires Inv(s) && Is(s, pd, Dir)
    ensures forall f: nat :: Is(Destroy(s, pd), f, Dir) <==> Is(s, f, Dir) && f != pd
  {
    hide RoleOk, KernelOk;
    forall f: nat | Is(s, f, Dir)
      ensures Is(Destroy(s, pd), f, Dir) <==> f != pd
    {
      assert PdOf(s, f) == Some(f);
    }
  }

  /** Memory changes that keep the set of directories keep ownership. */
  lemma SameDirsOwned(k: Kern, m: Sys)
    requires Owned(k) && Inv(m) && forall f: nat :: Is(m, f, Dir) <==> Is(k.mem, f, Dir)
    ensures Owned(k.(mem := m))
  {
    hide Inv, S.TableOk;
    SizeOf(k);
  }

  lemma SizeOf(k: Kern)
    requires Owned(k)
    ensures |k.procs.table| == S.MAX
  {
  }

  /** Table changes that move no directory keep ownership. */
  lemma SamePdsOwned(k: Kern, p: S.Sched)
    requires Owned(k) && S.TableOk(p)
    requires forall i :: 0 <= i < S.MAX ==> p.table[i].pd == k.procs.table[i].pd
    requires forall i :: 0 <= i < S.MAX && p.table[i].pd != 0 ==>
               p.table[i].status != S.Unused && p.table[i].status != S.Zombie
    ensures Owned(k.(procs := p))
  {
    hide Inv;
    forall f: nat | Is(k.mem, f, Dir)
      ensures exists i :: 0 <= i < S.MAX && p.table[i].pd == 4096 * f
    {
      var i :| 0 <= i < S.MAX && k.procs.table[i].pd == 4096 * f;
      assert p.table[i].pd == 4096 * f;
    }
  }

  /** The slot a new process takes held no directory. */
  lemma CreateTakes(p: S.Sched, b: S.Birth)
    requires S.TableOk(p) && S.CreateProc(p, b).1 >= 0
    ensures var (q, slot) := S.CreateProc(p, b);
            && S.TableOk(q) && slot < S.MAX && p.table[slot].status == S.Unused
            && q.table == p.table[slot := S.Proc(S.Ready, p.nextPid + 1, b.pd, b.eip, b.esp)]
  {
    S.CreateKeeps(p, b);
  }

  /** A new process that takes over a new directory owns it, and nobody else does. */
  lemma HandOver(k: Kern, m: Sys, pd: nat, b: S.Birth)
    requires Owned(k) && OnlyGrew(k.mem, m, pd) && 0 < pd < TOTAL && b.pd == PdAddr(pd)
    requires S.CreateProc(k.procs, b).1 >= 0
    ensures Owned(Kern(m, S.CreateProc(k.procs, b).0))
  {
    hide RoleOk, Word, KernelOk, S.CreateProc, OnlyGrew;
    GrownDirs(k.mem, m, pd);
    NotOwned(k.mem, m, pd);
    CreateTakes(k.procs, b);
    var (p, slot) := S.CreateProc(k.procs, b);
    AddOwner(k, m, p, pd, slot);
  }

  lemma AddOwner(k: Kern, m: Sys, p: S.Sched, pd: nat, slot: nat)
    requires Owned(k) && Inv(m) && S.TableOk(p) && slot < S.MAX && 0 < pd < TOTAL && pd !in k.mem.owner
    requires forall f: nat :: Is(m, f, Dir) <==> Is(k.mem, f, Dir) || f == pd
    requires k.procs.table[slot].status == S.Unused
    requires p.table == k.procs.table[slot := p.table[slot]]
    requires p.table[slot].status == S.Ready && p.table[slot].pd == PdAddr(pd)
    ensures Owned(Kern(m, p))
  {
    hide Inv;
    forall i | 0 <= i < S.MAX && i != slot
      ensures p.table[i] == k.procs.table[i] && p.table[i].pd != PdAddr(pd)
    {
    }
    forall f: nat | Is(m, f, Dir)
      ensures exists i :: 0 <= i < S.MAX && p.table[i].pd == 4096 * f
    {
      if f == pd {
        assert p.table[slot].pd == 4096 * f;
      } else {
        var i :| 0 <= i < S.MAX && k.procs.table[i].pd == 4096 * f;
        DirBound(k.mem, f);
        assert p.table[i].pd == 4096 * f;
      }
    }
  }

  lemma DirBound(s: Sys, f: nat)
    requires Inv(s) && Is(s, f, Dir)
    ensures 0 < f < TOTAL
  {
  }

  lemma NotOwned(s: Sys, m: Sys, pd: nat)
    requires OnlyGrew(s, m, pd)
    ensures pd !in s.owner && Inv(m)
  {
  }

  /** Every path through cmd_exec ends with the directory owned by one process or destroyed. */
  lemma ExecKeeps(k: Kern, d: seq<byte>)
    requires Owned(k) && UserImage(d)
    ensures Owned(ExecImage(k, d)) && Pool(ExecImage(k, d).mem) == Pool(k.mem)
  {
    hide Prepare, OnlyGrew, S.CreateProc, RoleOk;
    var l := Prepare(k.mem, d);
    if k.mem.free == {} {
      NothingFree(k.mem, d);
    } else {
      PrepareGrew(k.mem, d);
      GrownDirs(k.mem, l.mem, l.pd);
      GrownBounds(k.mem, l.mem, l.pd);
      SameDirsOwned(k, Destroy(l.mem, l.pd));
      if l.Ready? && S.CreateProc(k.procs, Program(l.pd, l.entry)).1 >= 0 {
        HandOver(k, l.mem, l.pd, Program(l.pd, l.entry));
      }
    }
  }

  lemma NothingFree(s: Sys, d: seq<byte>)
    requires Inv(s) && UserImage(d) && s.free == {}
    ensures Prepare(s, d) == NoMemory
  {
  }

  lemma GrownBounds(s: Sys, m: Sys, pd: nat)
    requires OnlyGrew(s, m, pd)
    ensures 0 < pd < TOTAL && Inv(m) && Pool(m) == Pool(s)
  {
  }

  /** process_kill and process_exit on a slot: destroy what it owns, then retire it. */
  ghost function Bury(k: Kern, i: nat): Kern
    requires Owned(k) && i < S.MAX
  {
    var pd := k.procs.table[i].pd;
    Kern(if pd == 0 then k.mem else Destroy(k.mem, IndexOf(pd)), S.Retire(k.procs, i))
  }

  lemma BuryKeeps(k: Kern, i: nat)
    requires Owned(k) && i < k.procs.nextPid
    ensures Owned(Bury(k, i)) && Pool(Bury(k, i).mem) == Pool(k.mem)
    ensures LostFrames(Bury(k, i).mem) == LostFrames(k.mem)
  {
    hide RoleOk, Word;
    var pd := k.procs.table[i].pd;
    var r := Bury(k, i);
    S.RetireKeeps(k.procs, i);
    if pd == 0 {
      SamePdsOwned(k, r.procs);
    } else {
      var f := IndexOf(pd);
      DestroyKeeps(k.mem, f);
      DestroyedDirs(k.mem, f);
      hide Inv;
      forall g: nat | Is(r.mem, g, Dir)
        ensures exists j :: 0 <= j < S.MAX && r.procs.table[j].pd == 4096 * g
      {
        var j :| 0 <= j < S.MAX && k.procs.table[j].pd == 4096 * g;
        assert r.procs.table[j].pd == 4096 * g;
      }
    }
  }

  // ---------------------------------------------------------------- events

  datatype Event =
    | Exec(image: seq<byte>)
    | Kill(pid: nat)
    | Exit
    | MapLow(virt: word, phys: word, flags: word)
    | Proc(e: S.Event)

  /** Images the loader can be given; process events that do not themselves bring or drop a directory. */
  ghost predicate Typed(e: Event) {
    match e
    case Exec(d) => UserImage(d)
    case Proc(p) => p.Yield? || p.Block? || p.WakeAll? || p.Wake? || p == S.Event.Create(S.KERNEL_THREAD)
    case _ => true
  }

  ghost function Step(k: Kern, e: Event): Kern
    requires Owned(k) && Typed(e)
  {
    match e
    case Exec(d) => ExecImage(k, d)
    case Kill(pid) =>
      var i := S.FirstKillable(k.procs.table, pid, 0);
      if i == S.MAX then k else Bury(k, i)
    case Exit => if k.procs.cur < 0 then k else Bury(k, k.procs.cur)
    case MapLow(virt, phys, flags) => k.(mem := MapKernel(k.mem, virt, phys, flags))
    case Proc(p) => k.(procs := S.Step(k.procs, p))
  }

  /** Whatever the table event, no directory moves and none of their owners dies. */
  lemma ProcMovesNothing(s: S.Sched, p: S.Event)
    requires S.TableOk(s) && s.nextPid > 0 && Typed(Proc(p))
    requires forall i :: 0 <= i < S.MAX && s.table[i].status == S.Unused ==> s.table[i].pd == 0
    ensures S.TableOk(S.Step(s, p)) && S.Step(s, p).nextPid > 0
    ensures forall i :: 0 <= i < S.MAX ==> S.Step(s, p).table[i].pd == s.table[i].pd
    ensures forall i :: 0 <= i < S.MAX && s.table[i].status != S.Unused && s.table[i].status != S.Zombie ==>
              S.Step(s, p).table[i].status != S.Unused && S.Step(s, p).table[i].status != S.Zombie
  {
    hide S.Switch, S.CreateProc, S.WakeBlocked;
    match p
    case Yield => S.SwitchMovesNothing(s);
    case Block => S.SwitchMovesNothing(if s.cur >= 0 then S.SetStatus(s, s.cur, S.Blocked) else s);
    case WakeAll =>
    case Wake(slot) =>
    case Create(b) => CreateMovesNothing(s);
  }

  lemma CreateMovesNothing(s: S.Sched)
    requires S.TableOk(s) && s.nextPid > 0
    requires forall i :: 0 <= i < S.MAX && s.table[i].status == S.Unused ==> s.table[i].pd == 0
    ensures var r := S.CreateProc(s, S.KERNEL_THREAD).0;
            && S.TableOk(r) && r.nextPid > 0
            && (forall i :: 0 <= i < S.MAX ==> r.table[i].pd == s.table[i].pd)
            && (forall i :: 0 <= i < S.MAX && s.table[i].status != S.Unused ==> r.table[i] == s.table[i])
  {
    S.CreateKeeps(s, S.KERNEL_THREAD);
  }

  lemma ProcKeeps(k: Kern, p: S.Event)
    requires Owned(k) && k.procs.nextPid > 0 && Typed(Proc(p))
    ensures Owned(k.(procs := S.Step(k.procs, p))) && S.Step(k.procs, p).nextPid > 0
  {
    hide Inv, S.Step;
    SizeOf(k);
    ProcMovesNothing(k.procs, p);
    SamePdsOwned(k, S.Step(k.procs, p));
  }

  lemma MapLowKeeps(k: Kern, virt: word, phys: word, flags: word)
    requires Owned(k)
    ensures var m := MapKernel(k.mem, virt, phys, flags);
            Owned(k.(mem := m)) && Pool(m) == Pool(k.mem)
  {
    hide RoleOk, MapKernel;
    MapKernelKeeps(k.mem, virt, phys, flags);
    SameDirsOwned(k, MapKernel(k.mem, virt, phys, flags));
  }

  /** Every event keeps one owner for each directory and conserves the frames. */
  lemma StepOwns(k: Kern, e: Event)
    requires Owned(k) && k.procs.nextPid > 0 && Typed(e)
    ensures Owned(Step(k, e)) && Pool(Step(k, e).mem) == Pool(k.mem) && Step(k, e).procs.nextPid > 0
  {
    hide RoleOk, Word, ExecImage, Bury, MapKernel, S.Step;
    match e
    case Exec(d) =>
      ExecKeeps(k, d);
      ExecPids(k, d);
    case Kill(pid) =>
      var i := S.FirstKillable(k.procs.table, pid, 0);
      if i < S.MAX {
        BuryKeeps(k, i);
        BuryPids(k, i);
      }
    case Exit =>
      if k.procs.cur >= 0 {
        BuryKeeps(k, k.procs.cur);
        BuryPids(k, k.procs.cur);
      }
    case MapLow(virt, phys, flags) => MapLowKeeps(k, virt, phys, flags);
    case Proc(p) => ProcKeeps(k, p);
  }

  lemma ExecPids(k: Kern, d: seq<byte>)
    requires Owned(k) && UserImage(d)
    ensures ExecImage(k, d).procs.nextPid >= k.procs.nextPid
  {
    hide Prepare, RoleOk;
  }

  lemma BuryPids(k: Kern, i: nat)
    requires Owned(k) && i < S.MAX
    ensures Bury(k, i).procs.nextPid == k.procs.nextPid
  {
  }

  /** Before the first program there is no directory and nobody to own one. */
  lemma BootOwned(s: Sys)
    requires Inv(s) && s.owner == map[]
    ensures Owned(Kern(s, S.Initial())) && S.Initial().nextPid > 0
  {
    hide RoleOk;
    S.InitialOk();
    assert S.FirstWith(seq(S.MAX, i => S.UNUSED_PROC), S.Unused, 0) == 0;
  }

  /** When no process owns a directory, every frame of the pool is free except those lost to bad mappings. */
  lemma FreeWhenAllDead(k: Kern)
    requires Owned(k) && forall i :: 0 <= i < S.MAX ==> k.procs.table[i].pd == 0
    ensures k.mem.free == Pool(k.mem) - LostFrames(k.mem)
  {
    hide RoleOk;
    NoOwnersNoDirs(k);
    forall f | f in k.mem.owner
      ensures k.mem.owner[f] == Lost
    {
      NoDirsAllLost(k.mem, f);
    }
  }

  lemma NoOwnersNoDirs(k: Kern)
    requires Owned(k) && forall i :: 0 <= i < S.MAX ==> k.procs.table[i].pd == 0
    ensures forall g: nat :: !Is(k.mem, g, Dir)
  {
    hide RoleOk;
    forall g: nat
      ensures !Is(k.mem, g, Dir)
    {
      if Is(k.mem, g, Dir) {
        DirBound(k.mem, g);
      }
    }
  }

  lemma TableHasDir(s: Sys, t: nat)
    requires Inv(s) && t in s.owner && s.owner[t].Table?
    ensures Is(s, s.owner[t].pd, Dir)
  {
    hide Word;
    assert RoleOk(s, t);
  }

  lemma LeafHasTable(s: Sys, f: nat)
    requires Inv(s) && f in s.owner && s.owner[f].Leaf?
    ensures s.owner[f].t in s.owner && s.owner[s.owner[f].t].Table?
  {
    hide Word;
    assert RoleOk(s, f);
  }

  /** Without directories there are no tables, and without tables no leaves. */
  lemma NoDirsAllLost(s: Sys, f: nat)
    requires Inv(s) && f in s.owner && forall g: nat :: !Is(s, g, Dir)
    ensures s.owner[f] == Lost
  {
    hide Inv;
    if s.owner[f].Leaf? {
      LeafHasTable(s, f);
      TableHasDir(s, s.owner[f].t);
    } else if s.owner[f].Table? {
      TableHasDir(s, f);
    } else {
      assert !Is(s, f, Dir);
    }
  }
}
