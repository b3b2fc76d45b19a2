/** kernel/elf.c as imperative code: the two loaders, proved against ElfImage. */
module ElfLoader {
  import opened Bytes
  import opened Frames
  import opened PageTables
  import opened AddressSpace
  import opened Paging
  import opened ElfImage

  /** The overlap of one page with the file part of a segment, as elf_load_user computes it. */
  function Overlap(g: Seg, virt: word): (r: (nat, nat, nat))
    requires UserSeg(g) && virt % 4096 == 0
  {
    var (fileEnd, pageEnd) := (g.vaddr + g.filesz, virt + 4096);
    var from := if virt > g.vaddr then virt else g.vaddr;
    var to := if pageEnd < fileEnd then pageEnd else fileEnd;
    if virt >= fileEnd || pageEnd <= g.vaddr then (0, 0, 0)
    else (from - virt, g.offset + (from - g.vaddr), to - from)
  }

  /** Zeroing a frame and copying the overlap into it gives the page's image. */
  lemma CopyIsImage(d: seq<byte>, g: Seg, virt: word)
    requires UserSeg(g) && FileInside(d, g) && virt % 4096 == 0
    ensures var (dst, src, len) := Overlap(g, virt);
            && dst + len <= 4096 && src + len <= |d|
            && Splice(ZERO_FRAME, dst, d[src..src + len]) == PageImage(d, g, virt / 4096)
  {
    var (dst, src, len) := Overlap(g, virt);
    var r := Splice(ZERO_FRAME, dst, d[src..src + len]);
    var p := PageImage(d, g, virt / 4096);
    forall k | 0 <= k < 4096
      ensures r[k] == p[k]
    {
      assert p[k] == SegByte(d, g, virt + k);
    }
  }

  /** The inner loop of elf_load_user on one page: find the frame, zero it, copy the overlap. */
  method CopyPage(pg: Paging, d: seq<byte>, g: Seg, pd: word, virt: word) returns (ok: bool)
    requires pg.Valid() && Is(pg.View(), IndexOf(pd), Dir) && UserSeg(g) && FileInside(d, g)
    requires virt % 4096 == 0 && virt >= 0x80_0000
    modifies pg
    ensures pg.Valid() && Is(pg.View(), IndexOf(pd), Dir)
    ensures var s, p := old(pg.View()), virt / 4096;
            if Pte(s, IndexOf(pd), p).Some?
            then ok && FrameNo(Pte(s, IndexOf(pd), p).value) < TOTAL
                 && pg.View() == Fill(s, FrameNo(Pte(s, IndexOf(pd), p).value), PageImage(d, g, p))
            else !ok && pg.View() == s
  {
    hide Word, RoleOk, PageImage, IndexOf;
    ghost var s := pg.View();
    var phys := PhysOfVirt(pg, pd, virt);
    if phys == 0 {
      return false;
    }
    var f := IndexOf(phys);
    PteLeads(s, IndexOf(pd), virt / 4096);
    FillKeeps(s, f, PageImage(d, g, virt / 4096));
    CopyIsImage(d, g, virt);
    var (dst, src, len) := Overlap(g, virt);
    pg.mem := pg.mem[f := ZERO_FRAME];
    pg.mem := pg.mem[f := Splice(pg.mem[f], dst, d[src..src + len])];
    assert pg.View() == Fill(s, f, PageImage(d, g, virt / 4096));
    ok := true;
  }

  /** phys_of_virt: the frame address in the entry of a page, or 0; for a user page that is mapped it is not 0. */
  method PhysOfVirt(pg: Paging, pd: word, virt: word) returns (phys: word)
    requires pg.Valid() && Is(pg.View(), IndexOf(pd), Dir)
    ensures phys == match Pte(pg.View(), IndexOf(pd), virt / 4096) case None => 0 case Some(w) => FrameAddr(w)
    ensures virt >= 0x80_0000 && Pte(pg.View(), IndexOf(pd), virt / 4096).Some? ==>
              phys != 0 && IndexOf(phys) == FrameNo(Pte(pg.View(), IndexOf(pd), virt / 4096).value)
  {
    hide Inv, Word, FrameAddr, IndexOf, FrameNo, Present;
    var pdi, pti := virt / 0x40_0000, (virt / 4096) % 1024;
    LookupAgrees(pg.View(), IndexOf(pd), virt);
    var e := Word(pg.mem[IndexOf(pd)], pdi);
    if !Present(e) {
      return 0;
    }
    var w := Word(pg.mem[FrameNo(e)], pti);
    if !Present(w) {
      return 0;
    }
    FrameAddrIs(w);
    phys := FrameAddr(w);
  }

  /** The two-level lookup is the translation, and user pages are never in frame 0. */
  lemma LookupAgrees(s: Sys, pd: nat, virt: word)
    requires Inv(s) && Is(s, pd, Dir)
    ensures |s.mem| == TOTAL && pd < TOTAL && virt / 0x40_0000 < 1024 && (virt / 4096) % 1024 < 1024
    ensures var e := Word(s.mem[pd], virt / 0x40_0000);
            if !Present(e) then Pte(s, pd, virt / 4096).None?
            else
              && FrameNo(e) < TOTAL
              && var w := Word(s.mem[FrameNo(e)], (virt / 4096) % 1024);
                 && Pte(s, pd, virt / 4096) == (if Present(w) then Some(w) else None)
                 && (virt >= 0x80_0000 && Present(w) ==> FrameAddr(w) != 0)
  {
    hide RoleOk, Word, FrameAddr;
    assert (virt / 4096) / 1024 == virt / 0x40_0000;
    EntryLeads(s, pd, virt / 0x40_0000);
    if virt >= 0x80_0000 && Pte(s, pd, virt / 4096).Some? {
      PteLeads(s, pd, virt / 4096);
      FrameAddrIs(Pte(s, pd, virt / 4096).value);
      NonZeroFrame(Pte(s, pd, virt / 4096).value);
    }
  }

  lemma NonZeroFrame(w: word)
    requires FrameNo(w) > 0
    ensures FrameAddr(w) != 0
  {
  }

  /** p_offset + p_filesz in 32-bit arithmetic. */
  function FileEnd(g: Seg): word {
    (g.offset + g.filesz) % WORD_LIMIT
  }

  lemma SumFits(g: Seg)
    requires g.offset + g.filesz < WORD_LIMIT
    ensures FileEnd(g) == g.offset + g.filesz
  {
  }

  /** One turn of the segment loop of elf_load_user. */
  method LoadSegment(pg: Paging, d: seq<byte>, g: Seg, pd: word) returns (ok: bool)
    requires pg.Valid() && Is(pg.View(), IndexOf(pd), Dir) && (Loaded(g) ==> UserSeg(g))
    modifies pg, pg.pmm, pg.pmm.bitmap
    ensures pg.Valid() && Is(pg.View(), IndexOf(pd), Dir)
    ensures (pg.View(), ok) == LoadSeg(old(pg.View()), IndexOf(pd), d, g)
  {
    hide Word, RoleOk, PageImage, IndexOf, MapPages, FillPages, PageCount, PageStart;
    ghost var s, pdf := pg.View(), IndexOf(pd);
    if g.kind != PT_LOAD || g.memsz == 0 {
      return true;
    }
    SumFits(g);
    if FileEnd(g) > |d| {
      return false;
    }
    SegPagesUser(g);
    MapPagesKeeps(s, pdf, SegPages(g));
    var n := PageCount(g);
    var r := pg.AllocUserPages(pd, PageStart(g), n);
    if r != 0 {
      return false;
    }
    ok := CopyPages(pg, d, g, pd, n);
  }

  /** The page loop. */
  method CopyPages(pg: Paging, d: seq<byte>, g: Seg, pd: word, n: nat) returns (ok: bool)
    requires pg.Valid() && Is(pg.View(), IndexOf(pd), Dir) && UserSeg(g) && FileInside(d, g) && n == PageCount(g)
    modifies pg
    ensures pg.Valid() && Is(pg.View(), IndexOf(pd), Dir)
    ensures (forall k :: 0 <= k < |SegPages(g)| ==> 2048 <= SegPages(g)[k] < PAGES)
         && (pg.View(), ok) == FillPages(old(pg.View()), IndexOf(pd), d, g, SegPages(g))
  {
    hide Word, RoleOk, PageImage, IndexOf, Pte, PageCount;
    ghost var s, pdf, ps := pg.View(), IndexOf(pd), SegPages(g);
    SegPagesUser(g);
    for i := 0 to n
      invariant pg.Valid() && Is(pg.View(), pdf, Dir)
      invariant FillPages(s, pdf, d, g, ps) == FillPages(pg.View(), pdf, d, g, ps[i..])
    {
      SegPagesAre(g, i);
      var virt := PageStart(g) + 4096 * i;
      assert ps[i..][0] == virt / 4096 && ps[i..][1..] == ps[i + 1..];
      var copied := CopyPage(pg, d, g, pd, virt);
      if !copied {
        return false;
      }
    }
    ok := true;
  }

  /** elf_load_user */
  method LoadUserImage(pg: Paging, d: seq<byte>, pd: word) returns (entry: word)
    requires pg.Valid() && UserImage(d) && (pd != 0 ==> Is(pg.View(), IndexOf(pd), Dir))
    modifies pg, pg.pmm, pg.pmm.bitmap
    ensures pg.Valid()
    ensures pd == 0 ==> entry == 0 && pg.View() == old(pg.View())
    ensures pd != 0 ==>
      Is(pg.View(), IndexOf(pd), Dir) && (pg.View(), entry) == LoadUser(old(pg.View()), IndexOf(pd), d)
  {
    hide Word, RoleOk, IndexOf, LoadSeg;
    if pd == 0 || !HeaderOk(d) {
      return 0;
    }
    ghost var s, pdf, gs := pg.View(), IndexOf(pd), Segments(d);
    for i := 0 to Half(d, 44)
      invariant pg.Valid() && Is(pg.View(), pdf, Dir)
      invariant LoadSegs(s, pdf, d, gs) == LoadSegs(pg.View(), pdf, d, gs[i..])
    {
      var g := Segment(d, i);
      assert gs[i..][0] == g && gs[i..][1..] == gs[i + 1..];
      var ok := LoadSegment(pg, d, g, pd);
      if !ok {
        return 0;
      }
    }
    entry := U32(d, 24);
  }

  /** Flat memory as elf_load sees it. */
  class FlatMemory {
    var bytes: seq<byte>

    constructor (b: seq<byte>)
      requires |b| == WORD_LIMIT
      ensures bytes == b
    {
      bytes := b;
    }

    /** elf_load */
    method LoadFlatImage(d: seq<byte>) returns (entry: word)
      requires |bytes| == WORD_LIMIT && FlatImage(d)
      modifies this
      ensures (bytes, entry) == LoadFlat(old(bytes), d)
    {
      hide HeaderOk, Segment;
      if !HeaderOk(d) {
        return 0;
      }
      ghost var gs := Segments(d);
      for i := 0 to |Segments(d)|
        invariant |bytes| == WORD_LIMIT
        invariant LoadFlatSegs(old(bytes), d, gs) == LoadFlatSegs(bytes, d, gs[i..])
      {
        var g := Segments(d)[i];
        assert gs[i..][0] == g && gs[i..][1..] == gs[i + 1..];
        if g.kind != PT_LOAD || g.filesz == 0 {
          continue;
        }
        if FileEnd(g) > |d| {
          return 0;
        }
        CopySegment(d, g);
      }
      EntryBound(d);
      entry := U32(d, 24);
    }

    /** The memcpy of one segment, and the memset of what the file does not cover. */
    method CopySegment(d: seq<byte>, g: Seg)
      requires |bytes| == WORD_LIMIT && FileInside(d, g) && FlatSeg(g)
      modifies this
      ensures bytes == Splice(old(bytes), g.vaddr, FlatBytes(d, g))
    {
      bytes := Splice(bytes, g.vaddr, d[g.offset..g.offset + g.filesz]);
      if g.memsz > g.filesz {
        bytes := Splice(bytes, g.vaddr + g.filesz, Zeros(g.memsz - g.filesz));
      }
    }
  }

  lemma EntryBound(d: seq<byte>)
    requires HeaderOk(d)
    ensures |d| >= 28
  {
  }
}
