/**
  Two-level page tables stored in frames of the allocator (kernel/paging.c, and section 4.3 of the
  Intel SDM volume 3A).  Physical memory is a sequence of 4 KB frames of bytes.  A ghost map
  gives every allocated frame its one role; directories, tables and leaves of all live
  directories are therefore pairwise distinct.  A frame that a directory can no longer reach,
  because its entry was overwritten or lies in the shared kernel tables, is Lost.
 */
module PageTables {
  import opened Bytes
  import opened Frames

  type Frame = s: seq<byte> | |s| == 4096 witness seq(4096, i => 0)

  const KERNEL_ENTRIES: nat := 2         // directory entries 0 and 1: the first 8 MB
  const PAGES: nat := 0x10_0000          // 4 KB pages of a 32-bit address space
  const USER_FLAGS: nat := 7             // present, writable, user
  const KERNEL_FLAGS: nat := 3           // present, writable

  // ---------------------------------------------------------------- words of a frame

  function Word(fr: Frame, i: nat): word
    requires i < 1024
  {
    DecodeWord(fr[4 * i..4 * i + 4])
  }

  function SetWord(fr: Frame, i: nat, w: word): Frame
    requires i < 1024
  {
    Splice(fr, 4 * i, EncodeWord(w))
  }

  /** A stored word reads back and leaves every other word alone. */
  lemma WordAfterSet(fr: Frame, i: nat, w: word, k: nat)
    requires i < 1024 && k < 1024
    ensures Word(SetWord(fr, i, w), k) == if k == i then w else Word(fr, k)
  {
    var r := SetWord(fr, i, w);
    if k == i {
      assert r[4 * i..4 * i + 4] == EncodeWord(w);
      WordRoundTrip(w);
    } else {
      assert r[4 * k..4 * k + 4] == fr[4 * k..4 * k + 4];
    }
  }

  const ZERO_FRAME: Frame := Zeros(4096)

  lemma ZeroWords(k: nat)
    requires k < 1024
    ensures Word(ZERO_FRAME, k) == 0
  {
    assert ZERO_FRAME[4 * k..4 * k + 4] == [0, 0, 0, 0];
  }

  function Present(w: word): bool {
    w % 2 == 1
  }

  function FrameNo(w: word): nat {
    w / 4096
  }

  function Entry(f: nat, flags: nat): word
    requires f < PAGES && flags < 4096
  {
    4096 * f + flags
  }

  // ---------------------------------------------------------------- state and invariant

  datatype Role = Dir | Table(pd: nat, i: nat) | Leaf(t: nat, j: nat) | Lost

  /** The kernel's own directory and its two tables, below 1 MB. */
  datatype Kernel = Kernel(pd: nat, pt0: nat, pt1: nat)

  datatype Sys = Sys(mem: seq<Frame>, free: set<nat>, owner: map<nat, Role>, k: Kernel)

  predicate KernelOk(s: Sys) {
    && |s.mem| == TOTAL
    && s.k.pd < LOW && s.k.pt0 < LOW && s.k.pt1 < LOW
    && s.k.pd != s.k.pt0 && s.k.pd != s.k.pt1 && s.k.pt0 != s.k.pt1
    && Word(s.mem[s.k.pd], 0) == Entry(s.k.pt0, KERNEL_FLAGS)
    && Word(s.mem[s.k.pd], 1) == Entry(s.k.pt1, KERNEL_FLAGS)
    && forall i :: 2 <= i < 1024 ==> Word(s.mem[s.k.pd], i) == 0
  }

  predicate Is(s: Sys, f: nat, r: Role) {
    f in s.owner && s.owner[f] == r
  }

  /** A slot of a directory or table is empty or holds exactly the frame whose role names that slot. */
  predicate SlotOk(s: Sys, w: word, r: Role) {
    w == 0 || (Is(s, FrameNo(w), r) && w == Entry(FrameNo(w), USER_FLAGS))
  }

  ghost predicate DirOk(s: Sys, pd: nat)
    requires |s.mem| == TOTAL && pd < TOTAL && s.k.pd < TOTAL
  {
    && Word(s.mem[pd], 0) == Word(s.mem[s.k.pd], 0)
    && Word(s.mem[pd], 1) == Word(s.mem[s.k.pd], 1)
    && forall i :: 2 <= i < 1024 ==> SlotOk(s, Word(s.mem[pd], i), Table(pd, i))
  }

  ghost predicate TableOk(s: Sys, t: nat, pd: nat, i: nat)
    requires |s.mem| == TOTAL && t < TOTAL
  {
    && Is(s, pd, Dir) && pd < TOTAL && 2 <= i < 1024
    && Word(s.mem[pd], i) == Entry(t, USER_FLAGS)
    && forall j :: 0 <= j < 1024 ==> SlotOk(s, Word(s.mem[t], j), Leaf(t, j))
  }

  ghost predicate LeafOk(s: Sys, f: nat, t: nat, j: nat)
    requires |s.mem| == TOTAL && f < TOTAL
  {
    && t in s.owner && s.owner[t].Table? && t < TOTAL && j < 1024
    && Word(s.mem[t], j) == Entry(f, USER_FLAGS)
  }

  ghost predicate RoleOk(s: Sys, f: nat)
    requires |s.mem| == TOTAL && s.k.pd < TOTAL && f in s.owner && f < TOTAL
  {
    match s.owner[f]
    case Dir => DirOk(s, f)
    case Table(pd, i) => TableOk(s, f, pd, i)
    case Leaf(t, j) => LeafOk(s, f, t, j)
    case Lost => true
  }

  /** The ownership invariant. */
  ghost predicate Inv(s: Sys) {
    && KernelOk(s)
    && (forall f :: f in s.free ==> LOW <= f < TOTAL && f !in s.owner)
    && (forall f :: f in s.owner ==> LOW <= f < TOTAL)
    && (forall f :: f in s.owner ==> RoleOk(s, f))
  }

  /** Every frame that is free or has a role; no operation changes it. */
  ghost function Pool(s: Sys): set<nat> {
    s.free + s.owner.Keys
  }

  ghost function LostFrames(s: Sys): set<nat> {
    set f | f in s.owner && s.owner[f] == Lost
  }

  /** The directory a frame belongs to. */
  ghost function PdOf(s: Sys, f: nat): Option<nat>
    requires f in s.owner
  {
    match s.owner[f]
    case Dir => Some(f)
    case Table(pd, _) => Some(pd)
    case Leaf(t, _) => if t in s.owner && s.owner[t].Table? then Some(s.owner[t].pd) else None
    case Lost => None
  }

  datatype Option<T> = None | Some(value: T)

  ghost function OwnedBy(s: Sys, pd: nat): set<nat> {
    set f | f in s.owner && PdOf(s, f) == Some(pd)
  }

  // ---------------------------------------------------------------- translation

  /** The word in slot j of the table that entry i of a directory points to. */
  function TableOf(s: Sys, pd: nat, i: nat): Option<nat>
    requires |s.mem| == TOTAL && pd < TOTAL && i < 1024
  {
    var w := Word(s.mem[pd], i);
    if Present(w) && FrameNo(w) < TOTAL then Some(FrameNo(w)) else None
  }

  /** phys_of_virt, on page numbers: the page-table entry of a page, when its directory entry is present. */
  function Pte(s: Sys, pd: nat, p: nat): Option<word>
    requires |s.mem| == TOTAL && pd < TOTAL && p < PAGES
  {
    match TableOf(s, pd, p / 1024)
    case None => None
    case Some(t) => if Present(Word(s.mem[t], p % 1024)) then Some(Word(s.mem[t], p % 1024)) else None
  }

  /** Every live directory translates the first 8 MB exactly as the kernel directory does. */
  lemma KernelHalfAgrees(s: Sys, pd: nat, p: nat)
    requires Inv(s) && Is(s, pd, Dir) && p < 2048
    ensures Pte(s, pd, p) == Pte(s, s.k.pd, p)
  {
    assert RoleOk(s, pd);
    assert p / 1024 == 0 || p / 1024 == 1;
  }

  // ---------------------------------------------------------------- adding frames

  /** Gives a zeroed frame a role. */
  function Place(s: Sys, f: nat, r: Role): Sys
    requires f < |s.mem|
  {
    s.(mem := s.mem[f := ZERO_FRAME], free := s.free - {f}, owner := s.owner[f := r])
  }

  function Poke(s: Sys, f: nat, i: nat, w: word): Sys
    requires f < |s.mem| && i < 1024
  {
    s.(mem := s.mem[f := SetWord(s.mem[f], i, w)])
  }

  /** paging_create_pd once a frame f has been obtained. */
  function NewDir(s: Sys, f: nat): Sys
    requires KernelOk(s) && f < TOTAL
  {
    Poke(Poke(Place(s, f, Dir), f, 0, Word(s.mem[s.k.pd], 0)), f, 1, Word(s.mem[s.k.pd], 1))
  }

  /** A new page table t in slot i of directory pd. */
  function NewTable(s: Sys, pd: nat, i: nat, t: nat): Sys
    requires |s.mem| == TOTAL && pd < TOTAL && i < 1024 && t < TOTAL
  {
    Poke(Place(s, t, Table(pd, i)), pd, i, Entry(t, USER_FLAGS))
  }

  /** A new leaf f in slot j of a user table t; a leaf already there is lost. */
  function NewLeaf(s: Sys, t: nat, j: nat, f: nat): Sys
    requires |s.mem| == TOTAL && t < TOTAL && j < 1024 && f < TOTAL
  {
    var w := Word(s.mem[t], j);
    var owner := if Present(w) then s.owner[FrameNo(w) := Lost] else s.owner;
    Poke(s.(free := s.free - {f}, owner := owner[f := Leaf(t, j)]), t, j, Entry(f, USER_FLAGS))
  }

  /** A new leaf f in slot j of a shared kernel table t: no directory will ever free it. */
  function NewShared(s: Sys, t: nat, j: nat, f: nat): Sys
    requires |s.mem| == TOTAL && t < TOTAL && j < 1024 && f < TOTAL
  {
    Poke(s.(free := s.free - {f}, owner := s.owner[f := Lost]), t, j, Entry(f, USER_FLAGS))
  }

  // ---------------------------------------------------------------- preservation

  /** The role of a frame that slot x of frame c may hold. */
  function SlotRole(s: Sys, c: nat, x: nat): Role
    requires c in s.owner
  {
    if s.owner[c] == Dir then Table(c, x) else Leaf(c, x)
  }

  /** s' is s with the word in slot x of c changed, the frame `gone` stripped of its role, and frames added. */
  ghost predicate SlotChange(s: Sys, s': Sys, c: nat, x: nat, gone: Option<nat>) {
    && |s.mem| == |s'.mem| == TOTAL && s'.k == s.k && s.k.pd < TOTAL
    && Word(s'.mem[s.k.pd], 0) == Word(s.mem[s.k.pd], 0) && Word(s'.mem[s.k.pd], 1) == Word(s.mem[s.k.pd], 1)
    && (forall h :: h in s.owner ==> h < TOTAL)
    && (forall h, y :: h in s.owner && 0 <= y < 1024 && !(h == c && y == x) ==> Word(s'.mem[h], y) == Word(s.mem[h], y))
    && (forall h :: h in s.owner && gone != Some(h) ==> Is(s', h, s.owner[h]))
    && (gone.Some? ==> c in s.owner && gone.value in s.owner && s.owner[gone.value] == SlotRole(s, c, x))
  }

  /** The changed slot is well filled, and whatever held it before is gone. */
  ghost predicate SlotTaken(s: Sys, s': Sys, c: nat, x: nat, gone: Option<nat>)
    requires |s.mem| == |s'.mem| == TOTAL
  {
    && x < 1024 && (gone.Some? ==> gone.value in s.owner && s.owner[gone.value].Leaf?)
    && (c in s.owner ==>
          && c < TOTAL && (s.owner[c] == Dir ==> x >= 2) && SlotOk(s', Word(s'.mem[c], x), SlotRole(s, c, x))
          && forall g :: g in s.owner && s.owner[g] == SlotRole(s, c, x) ==> gone == Some(g))
  }

  lemma DirStays(s: Sys, s': Sys, g: nat, c: nat, x: nat, gone: Option<nat>)
    requires SlotChange(s, s', c, x, gone) && SlotTaken(s, s', c, x, gone)
    requires g in s.owner && s.owner[g] == Dir && DirOk(s, g)
    ensures DirOk(s', g)
  {
    hide Word;
    forall i | 2 <= i < 1024
      ensures SlotOk(s', Word(s'.mem[g], i), Table(g, i))
    {
      if !(g == c && i == x) {
        assert SlotOk(s, Word(s.mem[g], i), Table(g, i));
      }
    }
  }

  lemma TableStays(s: Sys, s': Sys, g: nat, c: nat, x: nat, gone: Option<nat>)
    requires SlotChange(s, s', c, x, gone) && SlotTaken(s, s', c, x, gone)
    requires g in s.owner && s.owner[g].Table? && TableOk(s, g, s.owner[g].pd, s.owner[g].i)
    ensures TableOk(s', g, s.owner[g].pd, s.owner[g].i)
  {
    hide Word;
    forall j | 0 <= j < 1024
      ensures SlotOk(s', Word(s'.mem[g], j), Leaf(g, j))
    {
      if !(g == c && j == x) {
        assert SlotOk(s, Word(s.mem[g], j), Leaf(g, j));
      }
    }
  }

  lemma LeafStays(s: Sys, s': Sys, g: nat, c: nat, x: nat, gone: Option<nat>)
    requires SlotChange(s, s', c, x, gone) && SlotTaken(s, s', c, x, gone) && gone != Some(g)
    requires g in s.owner && g < TOTAL && s.owner[g].Leaf? && LeafOk(s, g, s.owner[g].t, s.owner[g].j)
    ensures LeafOk(s', g, s.owner[g].t, s.owner[g].j)
  {
    hide Word;
    assert Is(s', s.owner[g].t, s.owner[s.owner[g].t]);
  }

  /** Every frame that keeps its role keeps it rightly. */
  lemma RolesStay(s: Sys, s': Sys, c: nat, x: nat, gone: Option<nat>)
    requires Inv(s) && SlotChange(s, s', c, x, gone) && SlotTaken(s, s', c, x, gone)
    ensures forall g :: g in s.owner && gone != Some(g) ==> g in s'.owner && RoleOk(s', g)
  {
    hide Word, SlotTaken, DirOk, TableOk, LeafOk;
    forall g | g in s.owner && gone != Some(g)
      ensures g in s'.owner && RoleOk(s', g)
    {
      KeptRole(s, s', g, c, x, gone);
      assert RoleOk(s, g);
      match s.owner[g]
      case Dir => DirStays(s, s', g, c, x, gone);
      case Table(pd, i) => TableStays(s, s', g, c, x, gone);
      case Leaf(t, j) => LeafStays(s, s', g, c, x, gone);
      case Lost =>
    }
  }

  lemma KeptRole(s: Sys, s': Sys, g: nat, c: nat, x: nat, gone: Option<nat>)
    requires SlotChange(s, s', c, x, gone) && g in s.owner && gone != Some(g)
    ensures |s'.mem| == TOTAL && s'.k == s.k && g < TOTAL && Is(s', g, s.owner[g])
  {
  }

  // ---------------------------------------------------------------- the operations keep the invariant

  lemma NewDirKeeps(s: Sys, f: nat)
    requires Inv(s) && f in s.free
    ensures Inv(NewDir(s, f)) && Pool(NewDir(s, f)) == Pool(s)
  {
    hide Word, SetWord, TableOk, LeafOk;
    var s' := NewDir(s, f);
    FreshDirWords(s, f);
    assert SlotChange(s, s', f, 0, None);
    RolesStay(s, s', f, 0, None);
    assert RoleOk(s', f);
  }

  /** A new directory holds the kernel entries and nothing else. */
  lemma FreshDirWords(s: Sys, f: nat)
    requires KernelOk(s) && f < TOTAL
    ensures forall i :: 0 <= i < 1024 ==>
              Word(NewDir(s, f).mem[f], i) == if i < 2 then Word(s.mem[s.k.pd], i) else 0
  {
    var a := SetWord(ZERO_FRAME, 0, Word(s.mem[s.k.pd], 0));
    forall i | 0 <= i < 1024
      ensures Word(NewDir(s, f).mem[f], i) == if i < 2 then Word(s.mem[s.k.pd], i) else 0
    {
      WordAfterSet(ZERO_FRAME, 0, Word(s.mem[s.k.pd], 0), i);
      WordAfterSet(a, 1, Word(s.mem[s.k.pd], 1), i);
      ZeroWords(i);
    }
  }

  lemma NewTableKeeps(s: Sys, pd: nat, i: nat, t: nat)
    requires Inv(s) && Is(s, pd, Dir) && 2 <= i < 1024 && Word(s.mem[pd], i) == 0 && t in s.free
    ensures Inv(NewTable(s, pd, i, t)) && Pool(NewTable(s, pd, i, t)) == Pool(s)
  {
    hide Word, SetWord, SlotChange, SlotTaken, DirOk, TableOk, LeafOk;
    var s' := NewTable(s, pd, i, t);
    NewTableChange(s, pd, i, t);
    RolesStay(s, s', pd, i, None);
    FreshTable(s, pd, i, t);
  }

  lemma NewTableChange(s: Sys, pd: nat, i: nat, t: nat)
    requires Inv(s) && Is(s, pd, Dir) && 2 <= i < 1024 && Word(s.mem[pd], i) == 0 && t in s.free
    ensures var s' := NewTable(s, pd, i, t);
            SlotChange(s, s', pd, i, None) && SlotTaken(s, s', pd, i, None)
  {
    hide Word, SetWord, RoleOk;
    PokedWords(s.mem[pd], i, Entry(t, USER_FLAGS));
    SlotUnclaimed(s, pd, i);
  }

  lemma FreshTable(s: Sys, pd: nat, i: nat, t: nat)
    requires Inv(s) && Is(s, pd, Dir) && 2 <= i < 1024 && t in s.free
    ensures TableOk(NewTable(s, pd, i, t), t, pd, i)
  {
    hide Word, SetWord, RoleOk;
    var s' := NewTable(s, pd, i, t);
    PokedWords(s.mem[pd], i, Entry(t, USER_FLAGS));
    forall j | 0 <= j < 1024
      ensures Word(s'.mem[t], j) == 0
    {
      ZeroWords(j);
    }
  }

  lemma PokedWords(fr: Frame, i: nat, w: word)
    requires i < 1024
    ensures forall k :: 0 <= k < 1024 ==> Word(SetWord(fr, i, w), k) == if k == i then w else Word(fr, k)
  {
    forall k | 0 <= k < 1024
      ensures Word(SetWord(fr, i, w), k) == if k == i then w else Word(fr, k)
    {
      WordAfterSet(fr, i, w, k);
    }
  }

  /** No frame's role names an empty slot. */
  lemma SlotUnclaimed(s: Sys, c: nat, x: nat)
    requires Inv(s) && c in s.owner && x < 1024 && Word(s.mem[c], x) == 0
    ensures forall g :: g in s.owner ==> s.owner[g] != SlotRole(s, c, x)
  {
    forall g | g in s.owner
      ensures s.owner[g] != SlotRole(s, c, x)
    {
      assert RoleOk(s, g);
    }
  }

  /** The leaf that a new mapping at slot j of table t would displace. */
  function Displaced(s: Sys, t: nat, j: nat): Option<nat>
    requires |s.mem| == TOTAL && t < TOTAL && j < 1024
  {
    if Present(Word(s.mem[t], j)) then Some(FrameNo(Word(s.mem[t], j))) else None
  }

  /** What sits in a slot of a user table is its leaf, and an empty slot is not present. */
  lemma SlotOccupant(s: Sys, t: nat, j: nat)
    requires Inv(s) && t in s.owner && s.owner[t].Table? && j < 1024
    ensures Displaced(s, t, j).None? ==> Word(s.mem[t], j) == 0
    ensures Displaced(s, t, j).Some? ==> Is(s, Displaced(s, t, j).value, Leaf(t, j))
    ensures forall g :: g in s.owner && s.owner[g] == Leaf(t, j) ==> Displaced(s, t, j) == Some(g)
  {
    hide Word, DirOk;
    assert RoleOk(s, t);
    assert SlotOk(s, Word(s.mem[t], j), Leaf(t, j));
    EntryIsPresent(FrameNo(Word(s.mem[t], j)));
    forall g | g in s.owner && s.owner[g] == Leaf(t, j)
      ensures Displaced(s, t, j) == Some(g)
    {
      assert RoleOk(s, g);
      EntryIsPresent(g);
    }
  }

  lemma EntryIsPresent(f: nat)
    ensures f < PAGES ==> Present(Entry(f, USER_FLAGS)) && FrameNo(Entry(f, USER_FLAGS)) == f
  {
  }

  lemma NewLeafChange(s: Sys, t: nat, j: nat, f: nat)
    requires Inv(s) && t in s.owner && s.owner[t].Table? && j < 1024 && f in s.free
    ensures var s' := NewLeaf(s, t, j, f);
            && SlotChange(s, s', t, j, Displaced(s, t, j)) && SlotTaken(s, s', t, j, Displaced(s, t, j))
            && Word(s'.mem[t], j) == Entry(f, USER_FLAGS)
  {
    hide Word, SetWord, RoleOk;
    PokedWords(s.mem[t], j, Entry(f, USER_FLAGS));
    SlotOccupant(s, t, j);
  }

  lemma NewLeafKeeps(s: Sys, t: nat, j: nat, f: nat)
    requires Inv(s) && t in s.owner && s.owner[t].Table? && j < 1024 && f in s.free
    ensures Inv(NewLeaf(s, t, j, f)) && Pool(NewLeaf(s, t, j, f)) == Pool(s)
    ensures LostFrames(NewLeaf(s, t, j, f)) ==
            LostFrames(s) + if Displaced(s, t, j).Some? then {Displaced(s, t, j).value} else {}
  {
    hide Word, SetWord, SlotChange, SlotTaken, DirOk, TableOk;
    var s', gone := NewLeaf(s, t, j, f), Displaced(s, t, j);
    NewLeafChange(s, t, j, f);
    SlotOccupant(s, t, j);
    RolesStay(s, s', t, j, gone);
    assert LeafOk(s', f, t, j);
  }

  /** Writing a word of a shared kernel table touches no owned frame. */
  lemma SharedChange(s: Sys, s': Sys, t: nat, j: nat, w: word)
    requires Inv(s) && (t == s.k.pt0 || t == s.k.pt1) && j < 1024
    requires s'.mem == s.mem[t := SetWord(s.mem[t], j, w)] && s'.k == s.k
    requires forall h :: h in s.owner ==> Is(s', h, s.owner[h])
    ensures KernelOk(s')
    ensures forall g :: g in s.owner ==> g in s'.owner && g < TOTAL && RoleOk(s', g)
  {
    hide Word, SetWord, DirOk, TableOk, LeafOk;
    SharedIsApart(s, s', t, j, w);
    RolesStay(s, s', t, j, None);
  }

  lemma SharedIsApart(s: Sys, s': Sys, t: nat, j: nat, w: word)
    requires Inv(s) && (t == s.k.pt0 || t == s.k.pt1) && j < 1024
    requires s'.mem == s.mem[t := SetWord(s.mem[t], j, w)] && s'.k == s.k
    requires forall h :: h in s.owner ==> Is(s', h, s.owner[h])
    ensures KernelOk(s') && SlotChange(s, s', t, j, None) && SlotTaken(s, s', t, j, None)
  {
    hide Word, SetWord, RoleOk;
  }

  lemma NewSharedKeeps(s: Sys, t: nat, j: nat, f: nat)
    requires Inv(s) && (t == s.k.pt0 || t == s.k.pt1) && j < 1024 && f in s.free
    ensures Inv(NewShared(s, t, j, f)) && Pool(NewShared(s, t, j, f)) == Pool(s)
    ensures LostFrames(NewShared(s, t, j, f)) == LostFrames(s) + {f}
  {
    hide Word, SetWord, DirOk, TableOk, LeafOk;
    SharedChange(s, NewShared(s, t, j, f), t, j, Entry(f, USER_FLAGS));
  }

  /** The contents of a leaf are nobody's table. */
  function Fill(s: Sys, f: nat, fr: Frame): Sys
    requires f < |s.mem|
  {
    s.(mem := s.mem[f := fr])
  }

  lemma FillKeeps(s: Sys, f: nat, fr: Frame)
    requires Inv(s) && f in s.owner && s.owner[f].Leaf?
    ensures Inv(Fill(s, f, fr))
  {
    hide Word;
    var s' := Fill(s, f, fr);
    forall g | g in s.owner
      ensures RoleOk(s', g)
    {
      assert RoleOk(s, g);
      if s.owner[g] == Dir {
        assert forall i :: 2 <= i < 1024 ==> SlotOk(s, Word(s.mem[g], i), Table(g, i));
      } else if s.owner[g].Table? {
        assert forall j :: 0 <= j < 1024 ==> SlotOk(s, Word(s.mem[g], j), Leaf(g, j));
      }
    }
  }

  // ---------------------------------------------------------------- destruction

  /** paging_destroy_pd: every frame the directory reaches, and the directory, become free. */
  ghost function Destroy(s: Sys, pd: nat): Sys {
    s.(free := s.free + OwnedBy(s, pd), owner := s.owner - OwnedBy(s, pd))
  }

  lemma DestroyKeeps(s: Sys, pd: nat)
    requires Inv(s) && Is(s, pd, Dir)
    ensures Inv(Destroy(s, pd)) && Pool(Destroy(s, pd)) == Pool(s)
    ensures LostFrames(Destroy(s, pd)) == LostFrames(s)
    ensures forall g :: g in s.owner && PdOf(s, g) != Some(pd) ==> Is(Destroy(s, pd), g, s.owner[g])
  {
    hide Word;
    var s' := Destroy(s, pd);
    forall g | g in s'.owner
      ensures RoleOk(s', g)
    {
      assert RoleOk(s, g);
      match s.owner[g]
      case Dir =>
        forall i | 2 <= i < 1024
          ensures SlotOk(s', Word(s.mem[g], i), Table(g, i))
        {
          assert SlotOk(s, Word(s.mem[g], i), Table(g, i));
        }
      case Table(pd', i) =>
        forall j | 0 <= j < 1024
          ensures SlotOk(s', Word(s.mem[g], j), Leaf(g, j))
        {
          assert SlotOk(s, Word(s.mem[g], j), Leaf(g, j));
        }
      case Leaf(t, j) =>
      case Lost =>
    }
  }
}
