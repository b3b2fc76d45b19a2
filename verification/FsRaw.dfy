/**
  VesperFS read off the raw sectors, byte by byte, as kernel/fs.h lays it out, and what no call ever writes: the boot
  sector and the kernel in front of the file system.
 */
module FsRaw {
  import opened Bytes
  import opened FsLayout
  import opened FsPlans
  import opened FsTheorems
  import opened FsRuns

  /** A 32-bit word of a sector, the least significant byte first. */
  function RawWord(s: Sector, at: nat): word
    requires at + 4 <= 512
  {
    (s[at] as int) + 0x100 * (s[at + 1] as int) + 0x1_0000 * (s[at + 2] as int) + 0x100_0000 * (s[at + 3] as int)
  }

  /** The sector says VESPERFS, version 1. */
  predicate RawSuper(s: Sector) {
    && (forall k :: 0 <= k < 8 ==> s[k] == "VESPERFS"[k] as int)
    && RawWord(s, 8) == 1
  }

  lemma MagicBytes()
    ensures |MAGIC| == 8 && forall k :: 0 <= k < 8 ==> MAGIC[k] == "VESPERFS"[k] as int
  {
  }

  lemma RawIsDecoded(s: Sector, at: nat)
    requires at + 4 <= 512
    ensures DecodeWord(s[at..at + 4]) == RawWord(s, at)
  {
    var b := s[at..at + 4];
    assert b[0] == s[at] && b[1] == s[at + 1] && b[2] == s[at + 2] && b[3] == s[at + 3];
  }

  /** A file system is there exactly if sector 129 says so; the word after the version is the file count. */
  lemma FormattedRaw(d: Image)
    requires |d| >= 138
    ensures Formatted(d) <==> RawSuper(d[129])
    ensures NumFiles(d) == RawWord(d[129], 12)
  {
    hide MAGIC, DecodeWord, RawWord;
    MagicBytes();
    RawIsDecoded(d[129], 8);
    RawIsDecoded(d[129], 12);
    if MagicOk(d[129]) {
      forall k | 0 <= k < 8
        ensures d[129][k] == "VESPERFS"[k] as int
      {
        assert d[129][k] == d[129][..8][k];
      }
    }
    if RawSuper(d[129]) {
      assert d[129][..8] == MAGIC;
    }
  }

  /** Entry i: sector and first byte. */
  function EntrySector(d: Image, i: nat): Sector
    requires |d| >= 138 && i < 64
  {
    d[130 + i / 8]
  }

  lemma EntryBytes(d: Image, i: nat)
    requires |d| >= 138 && i < 64
    ensures DirBytes(d)[64 * i..64 * i + 64] == EntrySector(d, i)[64 * (i % 8)..64 * (i % 8) + 64]
  {
    var b, e := DirBytes(d)[64 * i..64 * i + 64], EntrySector(d, i)[64 * (i % 8)..64 * (i % 8) + 64];
    forall k | 0 <= k < 64
      ensures b[k] == e[k]
    {
      assert (64 * i + k) / 512 == i / 8 && (64 * i + k) % 512 == 64 * (i % 8) + k;
    }
  }

  lemma SliceOfSlice(s: Sector, o: nat, i: nat, j: nat)
    requires o + 64 <= 512 && i <= j <= 64
    ensures s[o..o + 64][i..j] == s[o + i..o + j]
  {
    var e := s[o..o + 64];
    var a, b := e[i..j], s[o + i..o + j];
    forall k | 0 <= k < j - i
      ensures a[k] == b[k]
    {
      assert a[k] == e[i + k] == s[o + i + k];
    }
  }

  /** The 64 bytes of a directory entry: name, first sector, size, flags. */
  lemma EntryRaw(d: Image, i: nat)
    requires |d| >= 138 && i < 64
    ensures var s, o := EntrySector(d, i), 64 * (i % 8);
            Dir(d)[i] == Entry(s[o..o + 32], RawWord(s, o + 32), RawWord(s, o + 36), RawWord(s, o + 40))
  {
    hide DecodeWord, RawWord;
    EntryBytes(d, i);
    var s, o := EntrySector(d, i), 64 * (i % 8);
    SliceOfSlice(s, o, 0, 32);
    SliceOfSlice(s, o, 32, 36);
    SliceOfSlice(s, o, 36, 40);
    SliceOfSlice(s, o, 40, 44);
    RawIsDecoded(s, o + 32);
    RawIsDecoded(s, o + 36);
    RawIsDecoded(s, o + 40);
  }

  /** Entry i names a file n: a name that is not empty, ended by NUL, and flags other than 1. */
  ghost predicate RawNamed(d: Image, i: nat, n: seq<byte>)
    requires |d| >= 138 && i < 64
  {
    var s, o := EntrySector(d, i), 64 * (i % 8);
    && s[o] != 0 && RawWord(s, o + 40) != 1
    && |n| < 32 && 0 !in n && s[o..o + |n|] == n && s[o + |n|] == 0
  }

  /** The bytes of entry i: `size` of them, from sector `start` on. */
  ghost predicate RawContent(d: Image, i: nat, c: seq<byte>)
    requires |d| >= 138 && i < 64
  {
    var s, o := EntrySector(d, i), 64 * (i % 8);
    && |c| == RawWord(s, o + 36)
    && forall k {:trigger c[k]} :: 0 <= k < |c| ==>
         var at := RawWord(s, o + 32) + k / 512;
         at < |d| && c[k] == d[at][k % 512]
  }

  lemma NamedIff(d: Image, i: nat, n: seq<byte>)
    requires Inv(d) && i < 64
    ensures RawNamed(d, i, n) <==> Matches(Dir(d)[i], n)
  {
    hide RawWord, Dir;
    EntryRaw(d, i);
    var s, o := EntrySector(d, i), 64 * (i % 8);
    var name := s[o..o + 32];
    assert Dir(d)[i].name == name && name[0] == s[o];
    if Live(Dir(d)[i]) {
      assert GoodEntry(Dir(d)[i], |d|);
      if |n| < 32 && 0 !in n && s[o..o + |n|] == n && s[o + |n|] == 0 {
        assert name[..|n|] == n && name[|n|] == 0;
        CStringUnique(name, n);
      }
      if CString(name) == n {
        NameLength(Dir(d)[i]);
        assert s[o..o + |n|] == name[..|n|] && s[o + |n|] == name[|n|];
      }
    }
  }

  /** What the disk denotes, off its raw bytes: the named files, each with the bytes of its extent. */
  lemma FilesRaw(d: Image, n: seq<byte>)
    requires Inv(d)
    ensures n in Files(d) <==> exists i :: 0 <= i < 64 && RawNamed(d, i, n)
    ensures forall i :: 0 <= i < 64 && RawNamed(d, i, n) ==> RawContent(d, i, Files(d)[n])
  {
    hide RawNamed, Dir, RawContent;
    forall i | 0 <= i < 64
      ensures RawNamed(d, i, n) <==> Matches(Dir(d)[i], n)
    {
      NamedIff(d, i, n);
    }
    InFilesIff(d, n);
    if n in Files(d) {
      assert RawNamed(d, Lookup(Dir(d), n), n);
    }
    forall i | 0 <= i < 64 && RawNamed(d, i, n)
      ensures RawContent(d, i, Files(d)[n])
    {
      FilesAt(Dir(d), d, n, i);
      ExtentRaw(d, i);
    }
  }

  lemma ExtentRaw(d: Image, i: nat)
    requires Inv(d) && i < 64 && Live(Dir(d)[i])
    ensures GoodEntry(Dir(d)[i], |d|)
    ensures RawContent(d, i, Content(d, Dir(d)[i].start, Dir(d)[i].size))
  {
    hide RawWord, Dir;
    EntryRaw(d, i);
  }

  /** On a disk without files the next one starts at sector 138, behind the directory. */
  lemma FirstFile(d: Image, name: seq<byte>, data: seq<byte>)
    requires Inv(d) && Files(d) == map[] && |data| < WORD_LIMIT
    ensures NewEntry(d, name, data).start == 138
  {
    hide Dir;
    forall i | 0 <= i < 64
      ensures !Live(Dir(d)[i])
    {
      assert FileName(Dir(d)[i]) !in Files(d);
    }
  }

  // ---------------------------------------------------------------- what is in front of the file system

  /** Every write of the plan is to sector 129 or later. */
  ghost predicate Behind(ws: seq<Write>) {
    forall k :: 0 <= k < |ws| ==> ws[k].lba >= 129
  }

  lemma {:induction false} BehindSpares(d: Image, ws: seq<Write>, l: nat)
    requires Behind(ws) && l < 129 && l < |d|
    ensures ApplyAll(d, ws)[l] == d[l]
  {
    if ws != [] {
      BehindSpares(d, ws[..|ws| - 1], l);
    }
  }

  /** However far a format gets, the boot sector and the 128 sectors of the kernel are as before. */
  lemma FormatSpares(d: Image, k: nat, l: nat)
    requires SizeOk(d) && k <= |FormatPlan()| && l <= 128
    ensures ApplyAll(d, FormatPlan()[..k])[l] == d[l]
  {
    BehindSpares(d, FormatPlan()[..k], l);
  }

  lemma PlanBehind(d: Image, op: Op)
    requires Inv(d) && Typed(op)
    ensures Behind(Plan(d, op))
  {
    hide Dir, DirOk, Slot, Lookup, EncodeEntry, NewEntry, WriteCount, DataSectors, DirSectors, KilledEntry, NextFree;
  }

  lemma StepSpares(d: Image, op: Op, l: nat)
    requires Inv(d) && Typed(op) && l <= 128
    ensures Step(d, op)[l] == d[l]
  {
    hide Plan;
    PlanBehind(d, op);
    BehindSpares(d, Plan(d, op)[..Progress(d, op)], l);
  }

  /** Over every run of writes and deletions, cut short anywhere, boot sector and kernel stay. */
  lemma {:induction false} RunSpares(d: Image, ops: seq<Op>, l: nat)
    requires Inv(d) && OpsOk(d, ops) && l <= 128
    ensures Run(d, ops).0[l] == d[l]
    decreases |ops|
  {
    hide Step, Committed, Storable, Slot, DirOk, Dir, FilesOf;
    if ops != [] {
      StepRefines(d, ops[0]);
      StepSpares(d, ops[0], l);
      RunSpares(Step(d, ops[0]), ops[1..], l);
    }
  }
}
