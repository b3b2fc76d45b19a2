/**
  ELF32 images (kernel/elf.c, and the "Program Header" section of the TIS ELF specification version 1.2):
  parsing the headers, and what loading means, page by page into a directory or flat into memory.
 */
module ElfImage {
  import opened Bytes
  import opened Frames
  import opened PageTables
  import opened AddressSpace
  import opened Paging

  // ---------------------------------------------------------------- headers

  const EHDR_SIZE: nat := 52
  const PHDR_SIZE: nat := 32
  const PT_LOAD: word := 1

  function Half(d: seq<byte>, o: nat): nat
    requires o + 2 <= |d|
  {
    (d[o] as int) + 256 * (d[o + 1] as int)
  }

  function U32(d: seq<byte>, o: nat): word
    requires o + 4 <= |d|
  {
    DecodeWord(d[o..o + 4])
  }

  /** The header tests shared by both loaders; the table bound is a 32-bit sum. */
  predicate HeaderOk(d: seq<byte>)
  {
    && |d| >= EHDR_SIZE
    && d[0] == 0x7F && d[1] == 0x45 && d[2] == 0x4C && d[3] == 0x46
    && d[4] == 1 && d[5] == 1 && Half(d, 16) == 2 && Half(d, 18) == 3
    && U32(d, 28) != 0 && Half(d, 44) != 0
    && (U32(d, 28) + Half(d, 44) * PHDR_SIZE) % WORD_LIMIT <= |d|
  }

  datatype Seg = Seg(kind: word, offset: word, vaddr: word, filesz: word, memsz: word)

  function SegAt(d: seq<byte>, o: nat): Seg
    requires o + PHDR_SIZE <= |d|
  {
    Seg(U32(d, o), U32(d, o + 4), U32(d, o + 8), U32(d, o + 16), U32(d, o + 20))
  }

  /** Every program header the loaders will look at lies inside the file. */
  predicate TableInside(d: seq<byte>)
    requires HeaderOk(d)
  {
    U32(d, 28) + Times(Half(d, 44) - 1, Half(d, 42)) + PHDR_SIZE <= |d|
  }

  /** A table of 32-byte headers that does not wrap is inside the file, whatever else the file holds. */
  lemma TableInsideWhen(d: seq<byte>)
    requires HeaderOk(d) && Half(d, 42) <= PHDR_SIZE && U32(d, 28) + Half(d, 44) * PHDR_SIZE < WORD_LIMIT
    ensures TableInside(d)
  {
    var n := Half(d, 44) - 1;
    TimesTable(n, Half(d, 42));
  }

  /** Where program header i starts. */
  function PhOffset(d: seq<byte>, i: nat): nat
    requires HeaderOk(d)
  {
    U32(d, 28) + Times(i, Half(d, 42))
  }

  function Times(a: nat, b: nat): nat {
    a * b
  }

  lemma SegInside(d: seq<byte>, i: nat)
    requires HeaderOk(d) && TableInside(d) && i < Half(d, 44)
    ensures PhOffset(d, i) + PHDR_SIZE <= |d|
  {
    hide Times;
    MulMono(i, Half(d, 44) - 1, Half(d, 42));
  }

  /** That single bound is the bound on every header the loaders will look at. */
  lemma TableInsideIff(d: seq<byte>)
    requires HeaderOk(d)
    ensures TableInside(d) <==> forall i :: 0 <= i < Half(d, 44) ==> PhOffset(d, i) + PHDR_SIZE <= |d|
  {
    hide HeaderOk, Times;
    HasHeaders(d);
    var n := Half(d, 44);
    assert PhOffset(d, n - 1) == U32(d, 28) + Times(n - 1, Half(d, 42));
    if TableInside(d) {
      forall i | 0 <= i < n
        ensures PhOffset(d, i) + PHDR_SIZE <= |d|
      {
        SegInside(d, i);
      }
    }
  }

  lemma HasHeaders(d: seq<byte>)
    requires HeaderOk(d)
    ensures |d| >= EHDR_SIZE && Half(d, 44) > 0
  {
  }

  /** A file of 116 bytes with two headers, 64 bytes apart. */
  const LOOSE_TABLE: seq<byte> :=
    [0x7F, 0x45, 0x4C, 0x46, 1, 1] + Zeros(10) + [2, 0, 3, 0] + Zeros(8)
    + [52, 0, 0, 0] + Zeros(10) + [64, 0, 2, 0] + Zeros(70)

  /**
    It passes every test of the loaders, which count 32 bytes for each header, though its second header lies
    outside it.
   */
  lemma LooseTablePasses()
    ensures HeaderOk(LOOSE_TABLE) && !TableInside(LOOSE_TABLE)
  {
    var d := LOOSE_TABLE;
    assert |d| == 116;
    assert d[28..32] == [52, 0, 0, 0];
    assert d[42] == 64 && d[43] == 0 && d[44] == 2 && d[45] == 0;
    assert d[16] == 2 && d[17] == 0 && d[18] == 3 && d[19] == 0;
    assert U32(d, 28) == 52 && Half(d, 42) == 64 && Half(d, 44) == 2;
  }

  lemma TimesTable(n: nat, e: nat)
    requires e <= PHDR_SIZE
    ensures Times(n, e) + PHDR_SIZE <= (n + 1) * PHDR_SIZE
  {
    assert n * e <= n * 32;
  }

  lemma MulMono(i: nat, n: nat, e: nat)
    requires i <= n
    ensures Times(i, e) <= Times(n, e)
  {
  }

  function Segment(d: seq<byte>, i: nat): Seg
    requires HeaderOk(d) && TableInside(d) && i < Half(d, 44)
  {
    SegInside(d, i);
    SegAt(d, PhOffset(d, i))
  }

  function Segments(d: seq<byte>): (segs: seq<Seg>)
    requires HeaderOk(d) && TableInside(d)
    ensures |segs| == Half(d, 44)
  {
    seq(Half(d, 44), i requires 0 <= i < Half(d, 44) => Segment(d, i))
  }

  // ---------------------------------------------------------------- pages of a segment

  predicate Loaded(g: Seg) {
    g.kind == PT_LOAD && g.memsz != 0
  }

  /** The sums of a segment fit in 32 bits and its addresses are user addresses. */
  predicate UserSeg(g: Seg) {
    && g.vaddr >= 0x80_0000 && g.vaddr + g.memsz + 0xFFF < WORD_LIMIT
    && g.vaddr + g.filesz < WORD_LIMIT && g.offset + g.filesz < WORD_LIMIT
  }

  predicate FileInside(d: seq<byte>, g: Seg) {
    g.offset + g.filesz <= |d|
  }

  function PageStart(g: Seg): word {
    g.vaddr - g.vaddr % 4096
  }

  function PageCount(g: Seg): nat
    requires UserSeg(g)
  {
    (g.vaddr + g.memsz + 0xFFF) / 4096 - g.vaddr / 4096
  }

  function SegPages(g: Seg): (ps: seq<nat>)
    requires UserSeg(g)
  {
    PagesFrom(PageStart(g), PageCount(g))
  }

  /** The pages of a segment are consecutive, and start with the page of its address. */
  lemma SegPagesAre(g: Seg, k: nat)
    requires UserSeg(g) && k < PageCount(g)
    ensures SegPages(g)[k] == g.vaddr / 4096 + k >= 2048
  {
    var b := PageStart(g) + 4096 * k;
    assert b % WORD_LIMIT == b;
  }

  predicate InSeg(g: Seg, p: nat)
    requires UserSeg(g)
  {
    g.vaddr / 4096 <= p < g.vaddr / 4096 + PageCount(g)
  }

  /** The page and the segment have an address in common. */
  predicate Covers(g: Seg, p: nat) {
    4096 * p < g.vaddr + g.memsz && g.vaddr < 4096 * p + 4096
  }

  /** The pages of a segment are those it has an address in. */
  lemma InSegExact(g: Seg, p: nat)
    requires UserSeg(g) && g.memsz > 0
    ensures InSeg(g, p) <==> Covers(g, p)
  {
  }

  lemma InSegIff(g: Seg, p: nat)
    requires UserSeg(g)
    ensures p in SegPages(g) <==> InSeg(g, p)
  {
    if p in SegPages(g) {
      var k :| 0 <= k < |SegPages(g)| && SegPages(g)[k] == p;
      SegPagesAre(g, k);
    }
    if InSeg(g, p) {
      SegPagesAre(g, p - g.vaddr / 4096);
    }
  }

  /** Byte a of the address space as the segment prescribes it: file data, then zeros. */
  function SegByte(d: seq<byte>, g: Seg, a: nat): byte
    requires FileInside(d, g)
  {
    if g.vaddr <= a < g.vaddr + g.filesz then d[g.offset + (a - g.vaddr)] else 0
  }

  /** What page p must hold. */
  function PageImage(d: seq<byte>, g: Seg, p: nat): (fr: Frame)
    requires FileInside(d, g)
    ensures forall k :: 0 <= k < 4096 ==> fr[k] == SegByte(d, g, 4096 * p + k)
  {
    seq(4096, k requires 0 <= k < 4096 =>
      if g.vaddr <= 4096 * p + k < g.vaddr + g.filesz then d[g.offset + (4096 * p + k - g.vaddr)] else 0)
  }

  // ---------------------------------------------------------------- loading into a directory

  /** Copies the image into the frames of already mapped pages. */
  ghost function FillPages(s: Sys, pd: nat, d: seq<byte>, g: Seg, ps: seq<nat>): (r: (Sys, bool))
    requires Inv(s) && Is(s, pd, Dir) && FileInside(d, g)
    requires forall k :: 0 <= k < |ps| ==> 2048 <= ps[k] < PAGES
    ensures Inv(r.0) && Is(r.0, pd, Dir)
    decreases |ps|
  {
    if ps == [] then (s, true)
    else
      match Pte(s, pd, ps[0])
      case None => (s, false)
      case Some(w) =>
        PteLeads(s, pd, ps[0]);
        FillKeeps(s, FrameNo(w), PageImage(d, g, ps[0]));
        FillPages(Fill(s, FrameNo(w), PageImage(d, g, ps[0])), pd, d, g, ps[1..])
  }

  lemma SegPagesUser(g: Seg)
    requires UserSeg(g)
    ensures forall k :: 0 <= k < |SegPages(g)| ==> 2048 <= SegPages(g)[k] < PAGES
  {
    forall k | 0 <= k < |SegPages(g)|
      ensures 2048 <= SegPages(g)[k] < PAGES
    {
      SegPagesAre(g, k);
    }
  }

  /** One turn of the segment loop of elf_load_user: map the pages, then copy into them. */
  ghost function LoadSeg(s: Sys, pd: nat, d: seq<byte>, g: Seg): (r: (Sys, bool))
    requires Inv(s) && Is(s, pd, Dir) && (Loaded(g) ==> UserSeg(g))
    ensures Inv(r.0) && Is(r.0, pd, Dir)
  {
    if !Loaded(g) then (s, true)
    else if !FileInside(d, g) then (s, false)
    else
      SegPagesUser(g);
      MapPagesKeeps(s, pd, SegPages(g));
      var (s1, n) := MapPages(s, pd, SegPages(g));
      if n < |SegPages(g)| then (s1, false) else FillPages(s1, pd, d, g, SegPages(g))
  }

  ghost function LoadSegs(s: Sys, pd: nat, d: seq<byte>, gs: seq<Seg>): (r: (Sys, bool))
    requires Inv(s) && Is(s, pd, Dir) && forall k :: 0 <= k < |gs| && Loaded(gs[k]) ==> UserSeg(gs[k])
    ensures Inv(r.0) && Is(r.0, pd, Dir)
    decreases |gs|
  {
    if gs == [] then (s, true)
    else
      var (s1, ok) := LoadSeg(s, pd, d, gs[0]);
      if ok then LoadSegs(s1, pd, d, gs[1..]) else (s1, false)
  }

  /** Images elf_load_user can be given: headers in place, loaded segments at user addresses. */
  ghost predicate UserImage(d: seq<byte>) {
    HeaderOk(d) ==>
      TableInside(d) &&
      forall k :: 0 <= k < |Segments(d)| && Loaded(Segments(d)[k]) ==> UserSeg(Segments(d)[k])
  }

  /** elf_load_user: the state afterwards and the entry point, 0 on any error. */
  ghost function LoadUser(s: Sys, pd: nat, d: seq<byte>): (r: (Sys, word))
    requires Inv(s) && Is(s, pd, Dir) && UserImage(d)
    ensures Inv(r.0) && Is(r.0, pd, Dir)
  {
    if !HeaderOk(d) then (s, 0)
    else
      var (s', ok) := LoadSegs(s, pd, d, Segments(d));
      (s', if ok then U32(d, 24) else 0)
  }

  // ---------------------------------------------------------------- the loaded image is right

  /** Copying leaves every page outside the list alone. */
  lemma {:induction false} FillPagesShow(s: Sys, pd: nat, d: seq<byte>, g: Seg, ps: seq<nat>, e: nat, q: nat)
    requires Inv(s) && Is(s, pd, Dir) && FileInside(d, g) && (forall k :: 0 <= k < |ps| ==> 2048 <= ps[k] < PAGES)
    requires Is(s, e, Dir) && 2048 <= q < PAGES
    ensures var s' := FillPages(s, pd, d, g, ps).0;
            && Is(s', e, Dir) && Pte(s', e, q) == Pte(s, e, q)
            && (!(e == pd && q in ps) ==> PageAt(s', e, q) == PageAt(s, e, q))
    decreases |ps|
  {
    hide Word, RoleOk, Pte, PageAt, PageImage;
    if ps != [] && Pte(s, pd, ps[0]).Some? {
      var w, fr := Pte(s, pd, ps[0]).value, PageImage(d, g, ps[0]);
      PteLeads(s, pd, ps[0]);
      FillKeeps(s, FrameNo(w), fr);
      FillShows(s, pd, ps[0], fr, e, q);
      FillPagesShow(Fill(s, FrameNo(w), fr), pd, d, g, ps[1..], e, q);
    }
  }

  /** Copying fills every page of the list, whatever order or repetition the list has. */
  lemma {:induction false} FillPagesFill(s: Sys, pd: nat, d: seq<byte>, g: Seg, ps: seq<nat>, q: nat)
    requires Inv(s) && Is(s, pd, Dir) && FileInside(d, g) && (forall k :: 0 <= k < |ps| ==> 2048 <= ps[k] < PAGES)
    requires 2048 <= q < PAGES && FillPages(s, pd, d, g, ps).1
    requires q in ps || PageAt(s, pd, q) == Some(PageImage(d, g, q))
    ensures PageAt(FillPages(s, pd, d, g, ps).0, pd, q) == Some(PageImage(d, g, q))
    decreases |ps|
  {
    hide Word, RoleOk, Pte, PageAt, PageImage;
    if ps != [] {
      var w, fr := Pte(s, pd, ps[0]).value, PageImage(d, g, ps[0]);
      PteLeads(s, pd, ps[0]);
      FillKeeps(s, FrameNo(w), fr);
      FillShows(s, pd, ps[0], fr, pd, q);
      assert q in ps ==> q == ps[0] || q in ps[1..];
      FillPagesFill(Fill(s, FrameNo(w), fr), pd, d, g, ps[1..], q);
    }
  }

  /** A loaded segment shows its image in all its pages and changes no other page. */
  lemma LoadSegShows(s: Sys, pd: nat, d: seq<byte>, g: Seg, e: nat, q: nat)
    requires Inv(s) && Is(s, pd, Dir) && (Loaded(g) ==> UserSeg(g)) && Is(s, e, Dir) && 2048 <= q < PAGES
    ensures var (s', ok) := LoadSeg(s, pd, d, g);
            && Is(s', e, Dir)
            && (if e == pd && Loaded(g) && InSeg(g, q)
                then ok ==> FileInside(d, g) && PageAt(s', e, q) == Some(PageImage(d, g, q))
                else PageAt(s', e, q) == PageAt(s, e, q))
  {
    hide Word, RoleOk, Pte, PageAt, PageImage, MapPages, FillPages, SegPages;
    if Loaded(g) && FileInside(d, g) {
      var ps := SegPages(g);
      SegPagesUser(g);
      InSegIff(g, q);
      MapPagesKeeps(s, pd, ps);
      var (s1, n) := MapPages(s, pd, ps);
      if !(e == pd && q in ps) {
        MapPagesShow(s, pd, ps, e, q);
      }
      if n == |ps| {
        FillPagesShow(s1, pd, d, g, ps, e, q);
        if e == pd && q in ps && FillPages(s1, pd, d, g, ps).1 {
          FillPagesFill(s1, pd, d, g, ps, q);
        }
      }
    }
  }

  /** No page belongs to two loaded segments. */
  ghost predicate PageDisjoint(gs: seq<Seg>)
    requires forall k :: 0 <= k < |gs| && Loaded(gs[k]) ==> UserSeg(gs[k])
  {
    forall i, j, p :: 0 <= i < j < |gs| && Loaded(gs[i]) && Loaded(gs[j]) && InSeg(gs[i], p) ==> !InSeg(gs[j], p)
  }

  lemma {:induction false} LoadSegsShow(s: Sys, pd: nat, d: seq<byte>, gs: seq<Seg>, e: nat, q: nat)
    requires Inv(s) && Is(s, pd, Dir) && (forall k :: 0 <= k < |gs| && Loaded(gs[k]) ==> UserSeg(gs[k]))
    requires Is(s, e, Dir) && 2048 <= q < PAGES
    requires e != pd || forall k :: 0 <= k < |gs| && Loaded(gs[k]) ==> !InSeg(gs[k], q)
    ensures Is(LoadSegs(s, pd, d, gs).0, e, Dir) && PageAt(LoadSegs(s, pd, d, gs).0, e, q) == PageAt(s, e, q)
    decreases |gs|
  {
    hide Word, RoleOk, PageAt, LoadSeg;
    if gs != [] {
      LoadSegShows(s, pd, d, gs[0], e, q);
      var (s1, ok) := LoadSeg(s, pd, d, gs[0]);
      if ok {
        LoadSegsShow(s1, pd, d, gs[1..], e, q);
      }
    }
  }

  /** After a successful load of page-disjoint segments every page of every segment holds its image. */
  lemma {:induction false} LoadSegsRight(s: Sys, pd: nat, d: seq<byte>, gs: seq<Seg>, k: nat, q: nat)
    requires Inv(s) && Is(s, pd, Dir) && (forall k :: 0 <= k < |gs| && Loaded(gs[k]) ==> UserSeg(gs[k]))
    requires PageDisjoint(gs) && LoadSegs(s, pd, d, gs).1
    requires k < |gs| && Loaded(gs[k]) && InSeg(gs[k], q)
    ensures FileInside(d, gs[k]) && 2048 <= q < PAGES
    ensures PageAt(LoadSegs(s, pd, d, gs).0, pd, q) == Some(PageImage(d, gs[k], q))
    decreases |gs|
  {
    hide Word, RoleOk, PageAt, LoadSeg, PageImage;
    InSegUser(gs[k], q);
    var (s1, ok) := LoadSeg(s, pd, d, gs[0]);
    var rest := gs[1..];
    assert forall i :: 0 <= i < |rest| ==> rest[i] == gs[i + 1];
    if k == 0 {
      LoadSegShows(s, pd, d, gs[0], pd, q);
      LoadSegsShow(s1, pd, d, rest, pd, q);
    } else {
      LoadSegsRight(s1, pd, d, rest, k - 1, q);
    }
  }

  lemma InSegUser(g: Seg, q: nat)
    requires UserSeg(g) && InSeg(g, q)
    ensures 2048 <= q < PAGES
  {
    SegPagesAre(g, q - g.vaddr / 4096);
  }

  /** Reading an address through the page tables. */
  ghost function ReadUser(s: Sys, pd: nat, a: nat): Option<byte>
    requires |s.mem| == TOTAL && pd < TOTAL && a < WORD_LIMIT
  {
    match PageAt(s, pd, a / 4096)
    case None => None
    case Some(fr) => Some(fr[a % 4096])
  }

  /**
    The loaded image: at any address in any page of a loaded segment a reader sees the file byte below
    p_vaddr + p_filesz and zero everywhere else; pages of other directories are untouched.
   */
  lemma LoadedImage(s: Sys, pd: nat, d: seq<byte>, k: nat, a: nat)
    requires Inv(s) && Is(s, pd, Dir) && UserImage(d) && HeaderOk(d) && PageDisjoint(Segments(d))
    requires LoadUser(s, pd, d).1 != 0
    requires k < |Segments(d)| && Loaded(Segments(d)[k]) && InSeg(Segments(d)[k], a / 4096)
    ensures var g := Segments(d)[k];
            && FileInside(d, g) && a < WORD_LIMIT
            && ReadUser(LoadUser(s, pd, d).0, pd, a) == Some(SegByte(d, g, a))
  {
    hide Word, RoleOk, PageAt, LoadSeg, HeaderOk, Segments;
    LoadSegsRight(s, pd, d, Segments(d), k, a / 4096);
    assert 4096 * (a / 4096) + a % 4096 == a;
  }

  /** Every address of the segment itself is in its pages. */
  lemma AddressInSeg(g: Seg, a: nat)
    requires UserSeg(g) && g.vaddr <= a < g.vaddr + g.memsz
    ensures InSeg(g, a / 4096)
  {
  }

  lemma LoadLeavesOthers(s: Sys, pd: nat, d: seq<byte>, e: nat, q: nat)
    requires Inv(s) && Is(s, pd, Dir) && UserImage(d) && Is(s, e, Dir) && e != pd && 2048 <= q < PAGES
    ensures Is(LoadUser(s, pd, d).0, e, Dir) && PageAt(LoadUser(s, pd, d).0, e, q) == PageAt(s, e, q)
  {
    hide Word, RoleOk, PageAt, LoadSeg, HeaderOk, Segments;
    if HeaderOk(d) {
      LoadSegsShow(s, pd, d, Segments(d), e, q);
    }
  }

  // ---------------------------------------------------------------- loading flat (elf_load)

  /** What elf_load writes for one segment: the file bytes, then zeros up to p_memsz. */
  function FlatBytes(d: seq<byte>, g: Seg): (b: seq<byte>)
    requires FileInside(d, g)
    ensures |b| == if g.memsz > g.filesz then g.memsz else g.filesz
    ensures forall k :: 0 <= k < |b| ==> b[k] == SegByte(d, g, g.vaddr + k)
  {
    d[g.offset..g.offset + g.filesz] + Zeros(if g.memsz > g.filesz then g.memsz - g.filesz else 0)
  }

  predicate FlatLoaded(g: Seg) {
    g.kind == PT_LOAD && g.filesz != 0
  }

  /** Address sums that fit in 32 bits. */
  predicate FlatSeg(g: Seg) {
    g.vaddr + g.filesz < WORD_LIMIT && g.vaddr + g.memsz < WORD_LIMIT && g.offset + g.filesz < WORD_LIMIT
  }

  /** One turn of the segment loop of elf_load. */
  function LoadFlatSeg(flat: seq<byte>, d: seq<byte>, g: Seg): (r: (seq<byte>, bool))
    requires |flat| == WORD_LIMIT && (FlatLoaded(g) ==> FlatSeg(g))
    ensures |r.0| == WORD_LIMIT
  {
    if !FlatLoaded(g) then (flat, true)
    else if !FileInside(d, g) then (flat, false)
    else (Splice(flat, g.vaddr, FlatBytes(d, g)), true)
  }

  function LoadFlatSegs(flat: seq<byte>, d: seq<byte>, gs: seq<Seg>): (r: (seq<byte>, bool))
    requires |flat| == WORD_LIMIT && forall k :: 0 <= k < |gs| && FlatLoaded(gs[k]) ==> FlatSeg(gs[k])
    ensures |r.0| == WORD_LIMIT
    decreases |gs|
  {
    if gs == [] then (flat, true)
    else
      var (f1, ok) := LoadFlatSeg(flat, d, gs[0]);
      if ok then LoadFlatSegs(f1, d, gs[1..]) else (f1, false)
  }

  ghost predicate FlatImage(d: seq<byte>) {
    HeaderOk(d) ==>
      TableInside(d) &&
      forall k :: 0 <= k < |Segments(d)| && FlatLoaded(Segments(d)[k]) ==> FlatSeg(Segments(d)[k])
  }

  /** elf_load: memory afterwards and the entry point, 0 on any error. */
  function LoadFlat(flat: seq<byte>, d: seq<byte>): (r: (seq<byte>, word))
    requires |flat| == WORD_LIMIT && FlatImage(d)
  {
    if !HeaderOk(d) then (flat, 0)
    else
      var (f, ok) := LoadFlatSegs(flat, d, Segments(d));
      (f, if ok then U32(d, 24) else 0)
  }

  /** Segments whose file part is not empty and not longer than their memory part. */
  predicate Usual(g: Seg) {
    g.kind == PT_LOAD ==> 0 < g.filesz <= g.memsz && UserSeg(g)
  }

  ghost predicate UsualSegs(gs: seq<Seg>) {
    forall k :: 0 <= k < |gs| ==>
      Usual(gs[k]) && (Loaded(gs[k]) ==> UserSeg(gs[k])) && (FlatLoaded(gs[k]) ==> FlatSeg(gs[k]))
  }

  lemma {:induction false} LoadFlatSegsKeep(flat: seq<byte>, d: seq<byte>, gs: seq<Seg>, a: nat)
    requires |flat| == WORD_LIMIT && UsualSegs(gs) && a < WORD_LIMIT
    requires forall k :: 0 <= k < |gs| && Loaded(gs[k]) ==> !InSeg(gs[k], a / 4096)
    ensures LoadFlatSegs(flat, d, gs).0[a] == flat[a]
    decreases |gs|
  {
    if gs != [] {
      var g := gs[0];
      var (f1, ok) := LoadFlatSeg(flat, d, g);
      if FlatLoaded(g) && g.vaddr <= a < g.vaddr + g.memsz {
        AddressInSeg(g, a);
      }
      if ok {
        LoadFlatSegsKeep(f1, d, gs[1..], a);
      }
    }
  }

  /** Flat loading puts the same byte at every address of every segment. */
  lemma {:induction false} LoadFlatRight(flat: seq<byte>, d: seq<byte>, gs: seq<Seg>, k: nat, a: nat)
    requires |flat| == WORD_LIMIT && UsualSegs(gs) && PageDisjoint(gs)
    requires LoadFlatSegs(flat, d, gs).1
    requires k < |gs| && Loaded(gs[k]) && gs[k].vaddr <= a < gs[k].vaddr + gs[k].memsz
    ensures FileInside(d, gs[k]) && LoadFlatSegs(flat, d, gs).0[a] == SegByte(d, gs[k], a)
    decreases |gs|
  {
    var g, rest := gs[0], gs[1..];
    var (f1, ok) := LoadFlatSeg(flat, d, g);
    assert forall i :: 0 <= i < |rest| ==> rest[i] == gs[i + 1];
    AddressInSeg(gs[k], a);
    if k == 0 {
      LoadFlatSegsKeep(f1, d, rest, a);
    } else {
      LoadFlatRight(f1, d, rest, k - 1, a);
    }
  }

  /** When both loaders succeed on the same image they agree on the entry point and on every segment byte. */
  lemma LoadersAgree(s: Sys, pd: nat, flat: seq<byte>, d: seq<byte>, k: nat, a: nat)
    requires Inv(s) && Is(s, pd, Dir) && |flat| == WORD_LIMIT && UserImage(d) && FlatImage(d) && HeaderOk(d)
    requires UsualSegs(Segments(d)) && PageDisjoint(Segments(d))
    requires LoadUser(s, pd, d).1 != 0 && LoadFlat(flat, d).1 != 0
    requires k < |Segments(d)| && Loaded(Segments(d)[k])
    requires Segments(d)[k].vaddr <= a < Segments(d)[k].vaddr + Segments(d)[k].memsz
    ensures LoadUser(s, pd, d).1 == LoadFlat(flat, d).1
    ensures a < WORD_LIMIT && ReadUser(LoadUser(s, pd, d).0, pd, a) == Some(LoadFlat(flat, d).0[a])
  {
    hide HeaderOk, Segments, RoleOk, LoadSegs, LoadFlatSegs;
    AddressInSeg(Segments(d)[k], a);
    LoadedImage(s, pd, d, k, a);
    LoadFlatRight(flat, d, Segments(d), k, a);
  }
}
