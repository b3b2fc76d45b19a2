/**
  VesperFS on disk: one superblock sector, eight directory sectors of eight 64-byte entries
  each, then one contiguous extent of sectors per file (kernel/fs.h).  This module gives
  the bytes of a disk image their meaning: a finite map from file names to file contents.
 */
module FsLayout {
  import opened Bytes

  const SUPER_LBA: int := 129
  const DIR_LBA: int := 130
  const DIR_SECTORS: int := 8
  const DATA_LBA: int := 138
  const MAX_FILES: int := 64
  const NAME_MAX: int := 31
  const MAX_SECTORS: int := 0x1000_0000     // 28-bit LBA addressing
  const MAX_SIZE: int := 0xFFFF_FE00        // largest size whose rounding up does not wrap
  const MAGIC: seq<byte> := [86, 69, 83, 80, 69, 82, 70, 83]   // "VESPERFS"

  type Sector = s: seq<byte> | |s| == 512 witness seq(512, i => 0)

  type Image = seq<Sector>

  /** A directory entry; the twenty reserved bytes carry nothing. */
  datatype Entry = Entry(name: seq<byte>, start: word, size: word, flags: word)

  function DecodeEntry(b: seq<byte>): (e: Entry)
    requires |b| == 64
    ensures |e.name| == 32
  {
    Entry(b[0..32], DecodeWord(b[32..36]), DecodeWord(b[36..40]), DecodeWord(b[40..44]))
  }

  function EncodeEntry(e: Entry): (b: seq<byte>)
    requires |e.name| == 32
    ensures |b| == 64
  {
    e.name + EncodeWord(e.start) + EncodeWord(e.size) + EncodeWord(e.flags) + Zeros(20)
  }

  lemma EntryRoundTrip(e: Entry)
    requires |e.name| == 32
    ensures DecodeEntry(EncodeEntry(e)) == e
  {
    var b := EncodeEntry(e);
    assert b[0..32] == e.name;
    assert b[32..36] == EncodeWord(e.start);
    assert b[36..40] == EncodeWord(e.size);
    assert b[40..44] == EncodeWord(e.flags);
    WordRoundTrip(e.start);
    WordRoundTrip(e.size);
    WordRoundTrip(e.flags);
  }

  predicate Live(e: Entry)
    requires |e.name| == 32
  {
    e.name[0] != 0 && e.flags != 1
  }

  function FileName(e: Entry): seq<byte> {
    CString(e.name)
  }

  /** Sectors occupied by `size` bytes. */
  function SectorsOf(size: int): (n: int)
    requires 0 <= size
    ensures 0 <= n && size <= 512 * n < size + 512
  {
    (size + 511) / 512
  }

  function End(e: Entry): int {
    e.start + SectorsOf(e.size)
  }

  /** The 4096 bytes of the directory area. */
  function DirBytes(d: Image): (b: seq<byte>)
    requires |d| >= DATA_LBA
    ensures |b| == 4096
  {
    seq(4096, k requires 0 <= k < 4096 => d[DIR_LBA + k / 512][k % 512])
  }

  type Directory = s: seq<Entry> | |s| == 64 && forall i :: 0 <= i < 64 ==> |s[i].name| == 32
    witness seq(64, i => Entry(seq(32, j => 0), 0, 0, 0))

  function DecodeDir(b: seq<byte>): (dir: Directory)
    requires |b| == 4096
  {
    seq(64, i requires 0 <= i < 64 => DecodeEntry(b[64 * i..64 * i + 64]))
  }

  function Dir(d: Image): Directory
    requires |d| >= DATA_LBA
  {
    DecodeDir(DirBytes(d))
  }

  /** The `size` bytes that start at sector `start`. */
  function Content(d: Image, start: int, size: int): (c: seq<byte>)
    requires 0 <= start && 0 <= size && start + SectorsOf(size) <= |d|
    ensures |c| == size
  {
    seq(size, k requires 0 <= k < size => d[start + k / 512][k % 512])
  }

  function NumFiles(d: Image): word
    requires |d| >= DATA_LBA
  {
    DecodeWord(d[SUPER_LBA][12..16])
  }

  predicate MagicOk(s: Sector) {
    s[..8] == MAGIC
  }

  predicate Formatted(d: Image)
    requires |d| >= DATA_LBA
  {
    MagicOk(d[SUPER_LBA]) && DecodeWord(d[SUPER_LBA][8..12]) == 1
  }

  predicate GoodEntry(e: Entry, sectors: int)
    requires |e.name| == 32
  {
    e.name[31] == 0 && DATA_LBA <= e.start && End(e) <= sectors && e.size <= MAX_SIZE
  }

  predicate Apart(e: Entry, f: Entry)
    requires |e.name| == 32 && |f.name| == 32
  {
    FileName(e) != FileName(f) && (End(e) <= f.start || End(f) <= e.start)
  }

  /** Live entries are well formed, have distinct names and disjoint extents in the data area. */
  ghost predicate DirOk(dir: Directory, sectors: int) {
    && (forall i :: 0 <= i < 64 && Live(dir[i]) ==> GoodEntry(dir[i], sectors))
    && (forall i, j {:trigger Apart(dir[i], dir[j])} :: 0 <= i < j < 64 && Live(dir[i]) && Live(dir[j]) ==>
          Apart(dir[i], dir[j]))
  }

  ghost predicate SizeOk(d: Image) {
    DATA_LBA <= |d| <= MAX_SECTORS
  }

  /** The file-system invariant; it says nothing about the file count in the superblock. */
  ghost predicate Inv(d: Image) {
    SizeOk(d) && Formatted(d) && DirOk(Dir(d), |d|)
  }

  /** How many of the first n slots are live. */
  function LiveCount(dir: Directory, n: nat): (c: nat)
    requires n <= 64
    ensures c <= n
  {
    if n == 0 then 0 else LiveCount(dir, n - 1) + if Live(dir[n - 1]) then 1 else 0
  }

  predicate Matches(e: Entry, name: seq<byte>)
    requires |e.name| == 32
  {
    Live(e) && FileName(e) == name
  }

  /** The first live entry of that name among the first n slots, or 64. */
  function FirstMatch(dir: Directory, name: seq<byte>, n: nat): (t: nat)
    requires n <= 64
    ensures t < n || t == 64
    ensures t < 64 ==> Matches(dir[t], name)
    ensures forall k :: 0 <= k < n && k < t ==> !Matches(dir[k], name)
  {
    if n == 0 then 64
    else
      var t := FirstMatch(dir, name, n - 1);
      if t < 64 then t else if Matches(dir[n - 1], name) then n - 1 else 64
  }

  /** The slot a name is found in, or 64. */
  function Lookup(dir: Directory, name: seq<byte>): (t: nat)
    ensures t <= 64
    ensures t < 64 ==> Matches(dir[t], name)
    ensures forall k :: 0 <= k < 64 && k < t ==> !Matches(dir[k], name)
  {
    FirstMatch(dir, name, |dir|)
  }

  ghost function Names(dir: Directory): set<seq<byte>> {
    set i | 0 <= i < 64 && Live(dir[i]) :: FileName(dir[i])
  }

  /** What a directory and the data sectors denote: each live name with the bytes of its extent. */
  ghost function FilesOf(dir: Directory, d: Image): map<seq<byte>, seq<byte>>
    requires DirOk(dir, |d|)
  {
    map n | n in Names(dir) :: var i := Lookup(dir, n); Content(d, dir[i].start, dir[i].size)
  }

  ghost function Files(d: Image): map<seq<byte>, seq<byte>>
    requires Inv(d)
  {
    FilesOf(Dir(d), d)
  }

  /** Content depends only on the sectors of its extent. */
  lemma ContentFrame(d: Image, e: Image, start: int, size: int)
    requires 0 <= start && 0 <= size && start + SectorsOf(size) <= |d| && |d| == |e|
    requires forall l :: start <= l < start + SectorsOf(size) ==> d[l] == e[l]
    ensures Content(d, start, size) == Content(e, start, size)
  {
    forall k | 0 <= k < size
      ensures Content(d, start, size)[k] == Content(e, start, size)[k]
    {
      assert d[start + k / 512] == e[start + k / 512];
    }
  }

  /** Sectors outside every live extent do not matter to what the image denotes. */
  lemma FilesFrame(dir: Directory, d: Image, e: Image)
    requires DirOk(dir, |d|) && |d| == |e|
    requires forall i, l :: 0 <= i < 64 && Live(dir[i]) && dir[i].start <= l < End(dir[i]) ==> d[l] == e[l]
    ensures FilesOf(dir, d) == FilesOf(dir, e)
  {
    forall n | n in Names(dir)
      ensures FilesOf(dir, d)[n] == FilesOf(dir, e)[n]
    {
      var i := Lookup(dir, n);
      ContentFrame(d, e, dir[i].start, dir[i].size);
    }
  }

  /** The directory is a matter of its eight sectors. */
  lemma DirFrame(d: Image, e: Image)
    requires |d| >= DATA_LBA && |e| >= DATA_LBA
    requires forall l :: DIR_LBA <= l < DATA_LBA ==> d[l] == e[l]
    ensures DirBytes(d) == DirBytes(e) && Dir(d) == Dir(e)
  {
    assert DirBytes(d) == DirBytes(e);
  }

  /** Live names are at most 31 bytes and never empty. */
  lemma NameLength(e: Entry)
    requires |e.name| == 32 && Live(e) && e.name[31] == 0
    ensures 1 <= |FileName(e)| <= 31
  {
    assert forall i :: 0 <= i < |FileName(e)| ==> FileName(e)[i] == e.name[i] && FileName(e)[i] != 0;
  }
}
