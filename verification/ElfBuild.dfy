/**
  ELF files written out field by field, as the layout of the TIS ELF specification version 1.2 has them.  What the
  loaders read back from such a file are the fields that were written.
 */
module ElfBuild {
  import opened Bytes
  import opened Frames
  import opened PageTables
  import opened AddressSpace
  import opened ElfImage

  /** A program header, in the order of its fields. */
  datatype Header = Header(kind: word, offset: word, vaddr: word, paddr: word, filesz: word, memsz: word, flags: word,
                           align: word)

  function EncodeHalf(n: nat): (s: seq<byte>)
    requires n < 0x1_0000
    ensures |s| == 2
  {
    [n % 256, n / 256]
  }

  function EncodeHeader(h: Header): (s: seq<byte>)
    ensures |s| == 32
  {
    EncodeWord(h.kind) + EncodeWord(h.offset) + EncodeWord(h.vaddr) + EncodeWord(h.paddr)
    + EncodeWord(h.filesz) + EncodeWord(h.memsz) + EncodeWord(h.flags) + EncodeWord(h.align)
  }

  function EncodeHeaders(hs: seq<Header>): (s: seq<byte>)
    ensures |s| == 32 * |hs|
  {
    if hs == [] then [] else EncodeHeaders(hs[..|hs| - 1]) + EncodeHeader(hs[|hs| - 1])
  }

  /** The first 52 bytes: identification, type, machine, version, entry, the two tables, flags, sizes and counts. */
  function FileHeader(entry: word, n: nat): (s: seq<byte>)
    requires n < 0x1_0000
    ensures |s| == 52
  {
    Identification() + EncodeWord(1) + EncodeWord(entry) + EncodeWord(52) + EncodeWord(0) + EncodeWord(0)
    + EncodeHalf(52) + EncodeHalf(32) + EncodeHalf(n) + EncodeHalf(0) + EncodeHalf(0) + EncodeHalf(0)
  }

  /** e_ident, then e_type and e_machine: a 32-bit little-endian executable for the 80386. */
  function Identification(): (s: seq<byte>)
    ensures |s| == 20
  {
    [0x7F, 0x45, 0x4C, 0x46, 1, 1, 1, 0, 0, 0, 0, 0, 0, 0, 0, 0] + [2, 0] + [3, 0]
  }

  /** A file: the header, the program headers behind it, and whatever follows. */
  function Build(entry: word, hs: seq<Header>, rest: seq<byte>): (d: seq<byte>)
    requires |hs| < 0x1_0000
    ensures |d| == 52 + 32 * |hs| + |rest|
  {
    FileHeader(entry, |hs|) + EncodeHeaders(hs) + rest
  }

  function SegOf(h: Header): Seg {
    Seg(h.kind, h.offset, h.vaddr, h.filesz, h.memsz)
  }

  // ---------------------------------------------------------------- reading back

  lemma HalfRoundTrip(n: nat)
    requires n < 0x1_0000
    ensures EncodeHalf(n)[0] as int + 256 * (EncodeHalf(n)[1] as int) == n
  {
  }

  /** The fields of a program header lie four bytes apart. */
  lemma HeaderFields(h: Header)
    ensures SegAt(EncodeHeader(h), 0) == SegOf(h)
  {
    hide EncodeWord, DecodeWord;
    var s := EncodeHeader(h);
    assert s[0..4] == EncodeWord(h.kind);
    assert s[4..8] == EncodeWord(h.offset);
    assert s[8..12] == EncodeWord(h.vaddr);
    assert s[16..20] == EncodeWord(h.filesz);
    assert s[20..24] == EncodeWord(h.memsz);
    WordRoundTrip(h.kind);
    WordRoundTrip(h.offset);
    WordRoundTrip(h.vaddr);
    WordRoundTrip(h.filesz);
    WordRoundTrip(h.memsz);
  }

  /** Four bytes of a part are four bytes of the whole. */
  lemma PartWord(d: seq<byte>, o: nat, s: seq<byte>, k: nat)
    requires o + 32 <= |d| && |s| == 32 && d[o..o + 32] == s && k <= 28
    ensures U32(d, o + k) == U32(s, k)
  {
    hide DecodeWord;
    var p := d[o..o + 32];
    assert d[o + k] == p[k] && d[o + k + 1] == p[k + 1] && d[o + k + 2] == p[k + 2] && d[o + k + 3] == p[k + 3];
    assert d[o + k..o + k + 4] == s[k..k + 4];
  }

  lemma SegAtPart(d: seq<byte>, o: nat, s: seq<byte>)
    requires o + 32 <= |d| && |s| == 32 && d[o..o + 32] == s
    ensures SegAt(d, o) == SegAt(s, 0)
  {
    hide U32;
    PartWord(d, o, s, 0);
    PartWord(d, o, s, 4);
    PartWord(d, o, s, 8);
    PartWord(d, o, s, 16);
    PartWord(d, o, s, 20);
  }

  lemma {:induction false} HeaderAt(hs: seq<Header>, i: nat)
    requires i < |hs|
    ensures 32 * i + 32 <= |EncodeHeaders(hs)| && EncodeHeaders(hs)[32 * i..32 * i + 32] == EncodeHeader(hs[i])
    decreases |hs|
  {
    hide EncodeHeader;
    var n := |hs| - 1;
    var front := EncodeHeaders(hs[..n]);
    if i < n {
      HeaderAt(hs[..n], i);
      assert (front + EncodeHeader(hs[n]))[32 * i..32 * i + 32] == front[32 * i..32 * i + 32];
    }
  }

  /** The file header is accepted, and gives entry point, table and count. */
  lemma FileHeaderReads(entry: word, hs: seq<Header>, rest: seq<byte>)
    requires 0 < |hs| < 0x1_0000
    ensures var d := Build(entry, hs, rest);
            && |d| >= 52 && U32(d, 24) == entry && U32(d, 28) == 52 && Half(d, 42) == 32 && Half(d, 44) == |hs|
            && d[..20] == Identification()
  {
    hide EncodeWord, DecodeWord, EncodeHalf, EncodeHeaders;
    var d := Build(entry, hs, rest);
    assert d[24..28] == EncodeWord(entry);
    assert d[28..32] == EncodeWord(52);
    WordRoundTrip(entry);
    WordRoundTrip(52);
    assert d[42..44] == EncodeHalf(32) && d[44..46] == EncodeHalf(|hs|);
    HalfRoundTrip(32);
    HalfRoundTrip(|hs|);
    assert d[42] == d[42..44][0] && d[43] == d[42..44][1] && d[44] == d[44..46][0] && d[45] == d[44..46][1];
  }

  lemma Accepted(entry: word, hs: seq<Header>, rest: seq<byte>)
    requires 0 < |hs| < 0x1_0000
    ensures HeaderOk(Build(entry, hs, rest)) && TableInside(Build(entry, hs, rest))
  {
    var d := Build(entry, hs, rest);
    FileHeaderReads(entry, hs, rest);
    hide Build, U32;
    assert d[0] == d[..20][0] && d[1] == d[..20][1] && d[2] == d[..20][2] && d[3] == d[..20][3];
    assert d[4] == d[..20][4] && d[5] == d[..20][5];
    assert d[16] == d[..20][16] && d[17] == d[..20][17] && d[18] == d[..20][18] && d[19] == d[..20][19];
    SmallTable(|hs|, |d|);
    TableInsideWhen(d);
  }

  lemma SmallTable(n: nat, len: nat)
    requires n < 0x1_0000 && len >= 52 + 32 * n
    ensures 52 + n * 32 < WORD_LIMIT && (52 + n * 32) % WORD_LIMIT <= len
  {
  }

  /** What the loaders read from a file are the headers it was built from. */
  lemma BuiltSegments(entry: word, hs: seq<Header>, rest: seq<byte>)
    requires 0 < |hs| < 0x1_0000
    ensures var d := Build(entry, hs, rest);
            && HeaderOk(d) && TableInside(d) && U32(d, 24) == entry
            && |Segments(d)| == |hs| && forall i :: 0 <= i < |hs| ==> Segments(d)[i] == SegOf(hs[i])
  {
    var d := Build(entry, hs, rest);
    Accepted(entry, hs, rest);
    FileHeaderReads(entry, hs, rest);
    forall i | 0 <= i < |hs|
      ensures Segments(d)[i] == SegOf(hs[i])
    {
      BuiltSegment(entry, hs, rest, i);
    }
  }

  lemma BuiltSegment(entry: word, hs: seq<Header>, rest: seq<byte>, i: nat)
    requires 0 < |hs| < 0x1_0000 && i < |hs|
    ensures var d := Build(entry, hs, rest);
            HeaderOk(d) && TableInside(d) && i < Half(d, 44) && Segment(d, i) == SegOf(hs[i])
  {
    var d := Build(entry, hs, rest);
    Accepted(entry, hs, rest);
    FileHeaderReads(entry, hs, rest);
    HeaderAt(hs, i);
    var o := 52 + 32 * i;
    assert d[o..o + 32] == EncodeHeaders(hs)[32 * i..32 * i + 32];
    hide HeaderOk, Build, EncodeHeader, EncodeHeaders, SegAt;
    SegInside(d, i);
    StrideIs(i);
    SegAtPart(d, o, EncodeHeader(hs[i]));
    HeaderFields(hs[i]);
  }

  lemma StrideIs(i: nat)
    ensures Times(i, 32) == 32 * i
  {
  }

  // ---------------------------------------------------------------- loading what was built

  /**
    A successful load of a built file answers with its entry point, and shows for every load segment the bytes of the
    file from p_offset on, p_filesz of them, and zeros before them in their page and behind them up to p_memsz.
   */
  lemma BuiltImage(s: Sys, pd: nat, entry: word, hs: seq<Header>, rest: seq<byte>, i: nat, a: nat)
    requires Inv(s) && Is(s, pd, Dir) && 0 < |hs| < 0x1_0000 && i < |hs|
    requires HeaderOk(Build(entry, hs, rest)) && UserImage(Build(entry, hs, rest))
    requires PageDisjoint(Segments(Build(entry, hs, rest))) && LoadUser(s, pd, Build(entry, hs, rest)).1 != 0
    requires hs[i].kind == 1 && hs[i].memsz != 0 && hs[i].vaddr / 4096 <= a / 4096 && a < WORD_LIMIT
    requires a < hs[i].vaddr + hs[i].memsz
    ensures var (s', answer) := LoadUser(s, pd, Build(entry, hs, rest));
            && answer == entry && hs[i].offset + hs[i].filesz <= |Build(entry, hs, rest)|
            && ReadUser(s', pd, a) ==
               Some(if hs[i].vaddr <= a < hs[i].vaddr + hs[i].filesz
                    then Build(entry, hs, rest)[hs[i].offset + (a - hs[i].vaddr)] else 0)
  {
    var d := Build(entry, hs, rest);
    BuiltSegments(entry, hs, rest);
    hide Build, HeaderOk, Segments, LoadSegs, ReadUser;
    var g := Segments(d)[i];
    assert Loaded(g) && UserSeg(g);
    PageOfAddress(g, a);
    LoadedImage(s, pd, d, i, a);
  }

  lemma PageOfAddress(g: Seg, a: nat)
    requires UserSeg(g) && g.vaddr / 4096 <= a / 4096 && a < g.vaddr + g.memsz
    ensures InSeg(g, a / 4096)
  {
  }

  /** Nothing but a 32-bit little-endian executable for the 80386 with program headers is ever loaded. */
  lemma LoadsOnlyElf(s: Sys, pd: nat, d: seq<byte>)
    requires Inv(s) && Is(s, pd, Dir) && UserImage(d) && LoadUser(s, pd, d).1 != 0
    ensures |d| >= 52 && d[..6] == [0x7F, 0x45, 0x4C, 0x46, 1, 1] && d[16..20] == [2, 0, 3, 0]
    ensures d[28..32] != [0, 0, 0, 0] && d[44..46] != [0, 0]
  {
    hide LoadSegs, RoleOk, Inv, Segments, UserImage, DecodeWord;
    HalfBytes(d, 16);
    HalfBytes(d, 18);
    HalfBytes(d, 44);
    assert d[16..20] == d[16..18] + d[18..20];
    ZeroWord();
  }

  lemma HalfBytes(d: seq<byte>, o: nat)
    requires o + 2 <= |d|
    ensures Half(d, o) < 256 ==> d[o..o + 2] == [Half(d, o), 0]
    ensures d[o..o + 2] == [0, 0] ==> Half(d, o) == 0
  {
    var s := d[o..o + 2];
    assert s[0] == d[o] && s[1] == d[o + 1];
  }

  lemma ZeroWord()
    ensures DecodeWord([0, 0, 0, 0]) == 0
  {
  }
}
