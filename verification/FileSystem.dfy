/**
  kernel/fs.c as imperative code: the static directory and sector buffers, loops over entries and
  sectors, and a drive whose single-sector operations may fail.  Each call is proved to carry out
  a prefix of its plan (see FsPlans), so that the theorems about plans are theorems about the code.
 */
module FileSystem {
  import opened Bytes
  import opened FsLayout
  import opened FsPlans
  import opened FsTheorems
  import opened FsRuns

  /** A drive.  A healthy drive fails only on sectors it does not have; any other drive may fail at any time. */
  class Disk {
    var image: Image
    const healthy: bool

    constructor (d: Image, h: bool)
      ensures image == d && healthy == h
    {
      image := d;
      healthy := h;
    }

    method ReadSector(lba: nat) returns (ok: bool, s: Sector)
      ensures ok ==> lba < |image| && s == image[lba]
      ensures healthy && lba < |image| ==> ok
    {
      var fault: bool := *;
      ok := lba < |image| && (healthy || !fault);
      s := if ok then image[lba] else Zeros(512);
    }

    method WriteSector(lba: nat, s: Sector) returns (ok: bool)
      modifies this
      ensures ok ==> lba < |image|
      ensures image == if ok then Apply(old(image), Write(lba, s)) else old(image)
      ensures healthy && lba < |image| ==> ok
    {
      var fault: bool := *;
      ok := lba < |image| && (healthy || !fault);
      if ok {
        image := image[lba := s];
      }
    }
  }

  /** The value of a file handle. */
  datatype Handle = Handle(start: word, size: word, pos: nat, valid: bool)

  /** The handle fs_open gives for a name that is present. */
  function OpenedHandle(d: Image, name: seq<byte>): Handle
    requires |d| >= DATA_LBA && Lookup(Dir(d), name) < 64
  {
    var e := Dir(d)[Lookup(Dir(d), name)];
    Handle(e.start, e.size, 0, true)
  }

  /** Opening and reading to the end is map lookup. */
  lemma OpenIsLookup(d: Image, name: seq<byte>)
    requires SizeOk(d) && DirOk(Dir(d), |d|)
    ensures name in FilesOf(Dir(d), d) <==> Lookup(Dir(d), name) < 64
    ensures name in FilesOf(Dir(d), d) ==>
              var h := OpenedHandle(d, name);
              h.start + SectorsOf(h.size) <= |d| && Content(d, h.start, h.size) == FilesOf(Dir(d), d)[name]
  {
    var t := Lookup(Dir(d), name);
    if t < 64 {
      FilesAt(Dir(d), d, name, t);
    }
  }

  /** An open file handle. */
  class File {
    var start: word
    var size: word
    var pos: nat
    var valid: bool

    constructor ()
      ensures !valid
    {
      start, size, pos, valid := 0, 0, 0, false;
    }

    function Value(): Handle
      reads this
    {
      Handle(start, size, pos, valid)
    }

    ghost predicate InDisk(sectors: int)
      reads this
    {
      valid ==> start + SectorsOf(size) <= sectors && sectors <= MAX_SECTORS
    }
  }

  /** A C string inside a larger buffer is the C string of the field that holds its terminator. */
  lemma {:induction false} CStringField(s: seq<byte>, n: nat)
    requires n <= |s| && 0 in s[..n]
    ensures CString(s) == CString(s[..n])
  {
    if s[0] != 0 {
      assert s[..n][1..] == s[1..][..n - 1];
      CStringField(s[1..], n - 1);
    }
  }

  /** The drive did as much of the plan as it could. */
  ghost predicate Stopped(d: Image, ws: seq<Write>, k: nat, healthy: bool)
    requires k <= |ws|
  {
    InRange(d, ws[..k]) && (healthy ==> k == |ws| || ws[k].lba >= |d|)
  }

  class FileSystem {
    const disk: Disk
    const dirBuf: array<byte>
    const sectorBuf: array<byte>

    constructor (d: Disk)
      ensures Valid() && disk == d && fresh(dirBuf) && fresh(sectorBuf)
    {
      disk := d;
      dirBuf := new byte[4096](i => 0);
      sectorBuf := new byte[512](i => 0);
    }

    ghost predicate Valid()
      reads this
    {
      dirBuf.Length == 4096 && sectorBuf.Length == 512 && dirBuf != sectorBuf
    }

    /** A volume these calls can work on: any image without the magic, or a well-formed directory. */
    ghost predicate Mounted()
      reads this, disk
    {
      SizeOk(disk.image) && (MagicOk(disk.image[SUPER_LBA]) ==> DirOk(Dir(disk.image), |disk.image|))
    }

    method ReadDir() returns (ok: bool)
      requires Valid() && |disk.image| >= DATA_LBA
      modifies dirBuf
      ensures ok ==> dirBuf[..] == DirBytes(disk.image)
      ensures disk.healthy ==> ok
    {
      for s := 0 to DIR_SECTORS
        invariant forall k :: 0 <= k < 512 * s ==> dirBuf[k] == disk.image[DIR_LBA + k / 512][k % 512]
      {
        var r, sec := disk.ReadSector(DIR_LBA + s);
        if !r {
          return false;
        }
        forall k | 0 <= k < 512 {
          dirBuf[512 * s + k] := sec[k];
        }
      }
      ok := true;
    }

    method WriteDir() returns (ok: bool, ghost k: nat)
      requires Valid() && |disk.image| >= DATA_LBA
      modifies disk
      ensures k <= 8 && (ok <==> k == 8) && (disk.healthy ==> ok)
      ensures disk.image == Overwrite(old(disk.image), DIR_LBA, DirSectors(dirBuf[..])[..k])
    {
      ghost var secs := DirSectors(dirBuf[..]);
      OverwriteNone(disk.image, DIR_LBA, secs);
      hide Overwrite;
      k := 0;
      for s := 0 to DIR_SECTORS
        invariant k == s
        invariant disk.image == Overwrite(old(disk.image), DIR_LBA, secs[..k])
      {
        OverwriteSnoc(old(disk.image), DIR_LBA, secs, s);
        ok := disk.WriteSector(DIR_LBA + s, dirBuf[512 * s..512 * s + 512]);
        if !ok {
          return;
        }
        k := k + 1;
      }
      ok := true;
    }

    /** fs_format: a fresh superblock, then a blank directory. */
    method Format() returns (r: int, ghost k: nat)
      requires Valid() && SizeOk(disk.image)
      modifies disk, dirBuf
      ensures k <= 9 && disk.image == ApplyAll(old(disk.image), FormatPlan()[..k])
      ensures r == 0 || r == -1
      ensures (r == 0 <==> k == 9) && (disk.healthy ==> r == 0)
    {
      ghost var d := disk.image;
      k := 0;
      assert FormatPlan()[..0] == [];
      var ok := disk.WriteSector(SUPER_LBA, FRESH_SUPER);
      if !ok {
        return -1, 0;
      }
      forall i | 0 <= i < 4096 {
        dirBuf[i] := 0;
      }
      ghost var j;
      ok, j := WriteDir();
      k := 1 + j;
      BlankSectors(dirBuf[..]);
      FormatPrefix(d, j);
      r := if ok then 0 else -1;
    }

    /** fs_init: only looks; an unformatted disk stays unformatted. */
    method Init() returns (found: bool)
      requires SizeOk(disk.image)
      ensures found ==> Formatted(disk.image)
      ensures disk.healthy ==> (found <==> Formatted(disk.image))
    {
      var ok, sb := disk.ReadSector(SUPER_LBA);
      found := ok && sb[..8] == MAGIC && DecodeWord(sb[8..12]) == 1;
    }

    /** One directory entry of the buffer. */
    function BufEntry(i: nat): (e: Entry)
      requires Valid() && i < 64
      reads this, dirBuf
      ensures e == DecodeDir(dirBuf[..])[i]
    {
      assert dirBuf[64 * i..64 * i + 64] == dirBuf[..][64 * i..64 * i + 64];
      DecodeEntry(dirBuf[64 * i..64 * i + 64])
    }

    /** strcmp(e->name, name) == 0: a comparison of C strings that is not told where the field ends. */
    method NameEquals(i: nat, name: seq<byte>) returns (eq: bool)
      requires Valid() && i < 64 && Live(BufEntry(i)) && BufEntry(i).name[31] == 0
      ensures eq <==> Matches(BufEntry(i), name)
    {
      eq := CString(dirBuf[64 * i..]) == name;
      ghost var tail := dirBuf[64 * i..];
      assert tail[..32] == BufEntry(i).name;
      assert tail[31] == 0;
      CStringField(tail, 32);
    }

    /** The search loop of fs_open and fs_delete: the first live entry of that name in the buffer, or 64. */
    method FindEntry(name: seq<byte>) returns (t: nat)
      requires Valid() && DirOk(DecodeDir(dirBuf[..]), MAX_SECTORS)
      ensures t == Lookup(DecodeDir(dirBuf[..]), name)
    {
      ghost var dir := DecodeDir(dirBuf[..]);
      for i := 0 to MAX_FILES
        invariant FirstMatch(dir, name, i) == 64
      {
        var e := BufEntry(i);
        if e.name[0] == 0 || e.flags == 1 {
          continue;
        }
        var eq := NameEquals(i, name);
        if eq {
          MatchUnique(dir, MAX_SECTORS, name, i, Lookup(dir, name));
          return i;
        }
      }
      t := 64;
    }

    /** fs_open: fills the handle from the entry of that name; a failed call leaves the handle alone. */
    method Open(f: File, name: seq<byte>) returns (r: int)
      requires Valid() && SizeOk(disk.image) && DirOk(Dir(disk.image), |disk.image|)
      modifies f, dirBuf
      ensures r == 0 || r == -1
      ensures r == -1 ==> f.Value() == old(f.Value())
      ensures r == 0 ==> Lookup(Dir(disk.image), name) < 64 && f.Value() == OpenedHandle(disk.image, name)
      ensures disk.healthy ==> (r == 0 <==> Lookup(Dir(disk.image), name) < 64)
    {
      var ok := ReadDir();
      if !ok {
        return -1;
      }
      DirOkGrows(Dir(disk.image), |disk.image|);
      var t := FindEntry(name);
      if t == 64 {
        return -1;
      }
      var e := BufEntry(t);
      f.start, f.size, f.pos, f.valid := e.start, e.size, 0, true;
      r := 0;
    }

    /** One turn of the fs_read loop: the rest of the current sector, or as much of it as is still wanted. */
    method ReadChunk(f: File, remaining: nat) returns (ok: bool, bytes: seq<byte>)
      requires Valid() && f.valid && f.InDisk(|disk.image|) && 0 < remaining && f.pos + remaining <= f.size
      modifies f`pos, sectorBuf
      ensures disk.healthy ==> ok
      ensures !ok ==> bytes == [] && f.pos == old(f.pos)
      ensures ok ==> 0 < |bytes| <= remaining && f.pos == old(f.pos) + |bytes|
      ensures ok ==> bytes == Content(disk.image, f.start, f.size)[old(f.pos)..f.pos]
    {
      var offset := f.pos % 512;
      var sec;
      AddressNoWrap(f.start, f.size, f.pos, |disk.image|);
      ok, sec := disk.ReadSector(SectorAddress(f.start, f.pos));
      bytes := [];
      if !ok {
        return;
      }
      forall k | 0 <= k < 512 {
        sectorBuf[k] := sec[k];
      }
      assert sectorBuf[..] == sec;
      var chunk := 512 - offset;
      if chunk > remaining {
        chunk := remaining;
      }
      bytes := sectorBuf[offset..offset + chunk];
      SectorSlice(disk.image, f.start, f.size, f.pos, chunk);
      f.pos := f.pos + chunk;
    }

    /** fs_read: the next bytes of the file, fewer than asked for only at its end or when the drive fails. */
    method Read(f: File, len: word) returns (out: seq<byte>)
      requires Valid() && f.InDisk(|disk.image|)
      modifies f`pos, sectorBuf
      ensures |out| <= len && f.pos == old(f.pos) + |out|
      ensures !f.valid || old(f.pos) >= f.size ==> out == []
      ensures f.valid && old(f.pos) < f.size ==>
        f.pos <= f.size && out == Content(disk.image, f.start, f.size)[old(f.pos)..f.pos]
      ensures f.valid && disk.healthy && old(f.pos) < f.size ==>
        |out| == if len < f.size - old(f.pos) then len else f.size - old(f.pos)
    {
      out := [];
      if !f.valid || f.pos >= f.size {
        return;
      }
      var want := if len > f.size - f.pos then f.size - f.pos else len;
      var remaining := want;
      while remaining > 0
        invariant 0 <= remaining <= want
        invariant f.pos == old(f.pos) + want - remaining && f.pos <= f.size
        invariant out == Content(disk.image, f.start, f.size)[old(f.pos)..f.pos]
      {
        var ok, bytes := ReadChunk(f, remaining);
        if !ok {
          break;
        }
        out := out + bytes;
        remaining := remaining - |bytes|;
      }
    }

    /** A file of at most limit bytes, opened, read to its end and closed. */
    method Fetch(name: seq<byte>, limit: word) returns (r: int, out: seq<byte>)
      requires Valid() && Inv(disk.image)
      modifies dirBuf, sectorBuf
      ensures r == 0 || (r == -1 && out == [])
      ensures r == 0 ==>
        && name in Files(disk.image) && |out| <= |Files(disk.image)[name]| <= limit
        && out == Files(disk.image)[name][..|out|]
      ensures disk.healthy ==> (r == 0 <==> name in Files(disk.image) && |Files(disk.image)[name]| <= limit)
      ensures disk.healthy && r == 0 ==> out == Files(disk.image)[name]
    {
      hide Dir, DirOk, FilesOf, Formatted, Lookup;
      OpenIsLookup(disk.image, name);
      var f := new File();
      r := Open(f, name);
      if r != 0 {
        return -1, [];
      }
      if f.size > limit {
        f.valid := false;
        return -1, [];
      }
      out := Read(f, f.size);
      f.valid := false;
    }

    /** The scan of fs_write_new: target slot, whether it is an overwrite, and the first sector past all data. */
    method ScanDir(name: seq<byte>) returns (slot: int, hit: bool, next: word)
      requires Valid() && DirOk(DecodeDir(dirBuf[..]), MAX_SECTORS)
      ensures (slot, hit) == Scanned(DecodeDir(dirBuf[..]), name)
      ensures next == NextFree(DecodeDir(dirBuf[..]))
    {
      ghost var dir := DecodeDir(dirBuf[..]);
      slot, hit, next := -1, false, DATA_LBA;
      for i := 0 to MAX_FILES
        invariant slot == Scan(dir, name, i).0 && hit == Scan(dir, name, i).1
        invariant next == NextLba(dir, i) <= MAX_SECTORS
      {
        var e := BufEntry(i);
        if e.name[0] != 0 && e.flags != 1 {
          var eq := NameEquals(i, name);
          if eq {
            slot, hit := i, true;
          }
          EndNoWrap(dir, i);
          var end := EndOfEntry(e);
          if end > next {
            next := end;
          }
        } else if slot < 0 {
          slot := i;
        }
      }
    }

    /** Writes the data sector by sector, zero padded; k sectors got through. */
    method WriteData(next: word, data: seq<byte>) returns (ok: bool, ghost k: nat)
      requires Valid() && |data| < WORD_LIMIT && next <= |disk.image| <= MAX_SECTORS
      modifies disk, sectorBuf
      ensures k <= SectorsNeeded(|data|) && next + k <= |disk.image| == |old(disk.image)|
      ensures disk.image == Overwrite(old(disk.image), next, DataSectors(data)[..k])
      ensures ok <==> k == SectorsNeeded(|data|)
      ensures disk.healthy && !ok ==> next + k == |disk.image|
    {
      hide Overwrite, Chunk, SectorsNeeded;
      ghost var secs := DataSectors(data);
      OverwriteNone(disk.image, next, secs);
      var needed := SectorsNeeded(|data|);
      var written := 0;
      k := 0;
      for s := 0 to needed
        invariant k == s && next + k <= |disk.image| == |old(disk.image)|
        invariant written == if 512 * s < |data| then 512 * s else |data|
        invariant disk.image == Overwrite(old(disk.image), next, secs[..k])
      {
        var chunk := FillSector(data, s, written);
        ok := disk.WriteSector(next + s, sectorBuf[..]);
        if !ok {
          return;
        }
        OverwriteSnoc(old(disk.image), next, secs, s);
        written := written + chunk;
        k := k + 1;
      }
      ok := true;
    }

    /** sector_buf zeroed and filled with the next chunk of the data. */
    method FillSector(data: seq<byte>, s: nat, written: nat) returns (chunk: nat)
      requires Valid() && written == if 512 * s < |data| then 512 * s else |data|
      modifies sectorBuf
      ensures sectorBuf[..] == Chunk(data, s)
      ensures written + chunk == if 512 * (s + 1) < |data| then 512 * (s + 1) else |data|
    {
      chunk := |data| - written;
      if chunk > 512 {
        chunk := 512;
      }
      forall i | 0 <= i < 512 {
        sectorBuf[i] := if i < chunk then data[written + i] else 0;
      }
      assert sectorBuf[..] == Chunk(data, s);
    }

    /** memset, strncpy and the field stores on one directory entry. */
    method StoreEntry(t: nat, raw: seq<byte>)
      requires Valid() && t < 64 && |raw| == 64
      modifies dirBuf
      ensures dirBuf[..] == Patch(old(dirBuf[..]), t, raw)
    {
      forall i | 0 <= i < 64 {
        dirBuf[64 * t + i] := raw[i];
      }
    }

    /** The end of fs_write_new: store the entry, write_dir, write_super. */
    method PublishEntry(t: nat, raw: seq<byte>, sb: Sector, count: word) returns (ok: bool, ghost k: nat)
      requires Valid() && SizeOk(disk.image) && t < 64 && |raw| == 64
      requires dirBuf[..] == DirBytes(disk.image) && sb == disk.image[SUPER_LBA]
      modifies disk, dirBuf
      ensures k <= 9 && (ok <==> k == 9) && (disk.healthy ==> ok)
      ensures disk.image == ApplyAll(old(disk.image), Publish(old(disk.image), t, raw, count)[..k])
    {
      ghost var d := disk.image;
      StoreEntry(t, raw);
      ok, k := WriteDir();
      PublishPrefixImage(d, t, raw, count, k);
      if !ok {
        return;
      }
      ok := disk.WriteSector(SUPER_LBA, SetCount(sb, count));
      if ok {
        k := 9;
        PublishLast(d, t, raw, count);
      }
    }

    /** fs_write_new once the data is on disk; d is the image before the call. */
    method Finish(name: seq<byte>, ghost d: Image, data: seq<byte>, t: nat, hit: bool, next: word, sb: Sector)
      returns (ok: bool, ghost k: nat)
      requires Valid() && SizeOk(d) && DirOk(Dir(d), |d|) && |data| < WORD_LIMIT
      requires Scanned(Dir(d), name) == (t as int, hit) && next == NextFree(Dir(d)) && sb == d[SUPER_LBA]
      requires next + SectorsNeeded(|data|) <= |d| && disk.image == Overwrite(d, next, DataSectors(data))
      requires dirBuf[..] == DirBytes(d)
      modifies disk, dirBuf
      ensures Carried(d, disk.image, WritePlan(d, name, data), k, ok, disk.healthy)
    {
      hide DirOk, Dir, DirBytes, Scanned, NextFree, Publish, ApplyAll, Stopped;
      ghost var y := disk.image;
      SameDirectory(d, y, next, DataSectors(data));
      var raw := EncodeEntry(Entry(StoredName(name), next, |data|, 0));
      ok, k := PublishEntry(t, raw, sb, CountAfter(hit, DecodeWord(sb[12..16])));
      DataDone(d, y, name, data, disk.image, k, disk.healthy);
      k := SectorsNeeded(|data|) + k;
    }

    /** The writing half of fs_write_new: data first, then the directory, then the superblock. */
    method Store(name: seq<byte>, data: seq<byte>, t: nat, hit: bool, next: word, sb: Sector)
      returns (ok: bool, ghost k: nat)
      requires Valid() && SizeOk(disk.image) && DirOk(Dir(disk.image), |disk.image|) && |data| < WORD_LIMIT
      requires dirBuf[..] == DirBytes(disk.image) && sb == disk.image[SUPER_LBA]
      requires Scanned(Dir(disk.image), name) == (t as int, hit) && next == NextFree(Dir(disk.image))
      modifies disk, dirBuf, sectorBuf
      ensures Carried(old(disk.image), disk.image, WritePlan(old(disk.image), name, data), k, ok, disk.healthy)
    {
      ghost var d := disk.image;
      NextLbaBound(Dir(d), |d|);
      ok, k := WriteData(next, data);
      if ok {
        assert DataSectors(data)[..k] == DataSectors(data);
        ok, k := Finish(name, d, data, t, hit, next, sb);
      } else {
        DataCut(d, name, data, disk.image, k, disk.healthy);
      }
    }

    /** fs_write_new: create or overwrite a file. */
    method WriteNew(name: seq<byte>, data: seq<byte>) returns (r: int, ghost k: nat)
      requires Valid() && Mounted() && |data| < WORD_LIMIT && 0 !in name
      modifies disk, dirBuf, sectorBuf
      ensures r == 0 || r == -1
      ensures name == [] || !MagicOk(old(disk.image)[SUPER_LBA]) || Slot(old(disk.image), name) < 0 ==>
        r == -1 && disk.image == old(disk.image)
      ensures name != [] && MagicOk(old(disk.image)[SUPER_LBA]) && Slot(old(disk.image), name) >= 0 ==>
        Carried(old(disk.image), disk.image, WritePlan(old(disk.image), name, data), k, r == 0, disk.healthy)
      ensures Inv(old(disk.image)) ==> Wrote(old(disk.image), disk.image, name, data, r, disk.healthy)
    {
      hide Wrote;
      ghost var d := disk.image;
      NotWritten(d, name, data, disk.healthy);
      k := 0;
      if name == [] {
        return -1, 0;
      }
      var ok, sb := disk.ReadSector(SUPER_LBA);
      if !ok {
        return -1, 0;
      }
      ok := ReadDir();
      if !ok || sb[..8] != MAGIC {
        return -1, 0;
      }
      DirOkGrows(Dir(disk.image), |disk.image|);
      var slot, hit, next := ScanDir(name);
      if slot < 0 {
        return -1, 0;
      }
      ok, k := Store(name, data, slot, hit, next, sb);
      r := if ok then 0 else -1;
      WrittenMap(d, disk.image, name, data, k, r, disk.healthy);
    }

    /** The best-effort count update of fs_delete. */
    method LowerCount() returns (ghost done: bool)
      requires SizeOk(disk.image)
      modifies disk
      ensures done ==> NumFiles(old(disk.image)) > 0
      ensures disk.healthy && NumFiles(old(disk.image)) > 0 ==> done
      ensures var d := old(disk.image);
              disk.image == if done then d[SUPER_LBA := SetCount(d[SUPER_LBA], NumFiles(d) - 1)] else d
    {
      done := false;
      var r, sb := disk.ReadSector(SUPER_LBA);
      if r && DecodeWord(sb[12..16]) > 0 {
        var w := disk.WriteSector(SUPER_LBA, SetCount(sb, DecodeWord(sb[12..16]) - 1));
        done := w;
      }
    }

    /** The part of fs_delete after the entry was found. */
    method Kill(t: nat) returns (ok: bool, ghost k: nat)
      requires Valid() && SizeOk(disk.image) && t < 64 && dirBuf[..] == DirBytes(disk.image)
      modifies disk, dirBuf
      ensures k <= 9 && (ok <==> k >= 8) && (k == 9 ==> NumFiles(old(disk.image)) > 0)
      ensures disk.healthy ==> k == if NumFiles(old(disk.image)) > 0 then 9 else 8
      ensures disk.image == ApplyAll(old(disk.image), KillPlan(old(disk.image), t)[..k])
    {
      ghost var d := disk.image;
      var raw := KilledEntry(dirBuf[..], t);
      StoreEntry(t, raw);
      ok, k := WriteDir();
      KillPrefix(d, t, k);
      if ok {
        ghost var done := LowerCount();
        if done {
          k := 9;
        }
      }
    }

    /** fs_delete: mark the entry, rewrite the directory, then lower the count if it can be read. */
    method Delete(name: seq<byte>) returns (r: int, ghost k: nat)
      requires Valid() && SizeOk(disk.image) && DirOk(Dir(disk.image), |disk.image|)
      modifies disk, dirBuf
      ensures r == 0 || r == -1
      ensures name == [] || Lookup(Dir(old(disk.image)), name) == 64 ==> r == -1 && disk.image == old(disk.image)
      ensures name != [] && Lookup(Dir(old(disk.image)), name) < 64 ==>
        var ws := DeletePlan(old(disk.image), name);
        && k <= |ws| && disk.image == ApplyAll(old(disk.image), ws[..k])
        && (r == 0 <==> k >= 8) && (disk.healthy ==> k == |ws|)
      ensures Inv(old(disk.image)) ==> Deleted(old(disk.image), disk.image, name, r, disk.healthy)
    {
      hide Deleted;
      ghost var d := disk.image;
      NotDeleted(d, name, disk.healthy);
      k := 0;
      if name == [] {
        return -1, 0;
      }
      var ok := ReadDir();
      if !ok {
        return -1, 0;
      }
      DirOkGrows(Dir(d), |d|);
      var t := FindEntry(name);
      if t == 64 {
        return -1, 0;
      }
      ok, k := Kill(t);
      DeletePrefix(d, name, k);
      assert KillPlan(d, t)[..k] == DeletePlan(d, name)[..k];
      r := if ok then 0 else -1;
      DeletedMap(d, disk.image, name, k, r, disk.healthy);
    }
  }

  ghost function KillPlan(d: Image, t: nat): seq<Write>
    requires |d| >= DATA_LBA && t < 64
  {
    Publish(d, t, KilledEntry(DirBytes(d), t), if NumFiles(d) > 0 then NumFiles(d) - 1 else 0)
  }

  /** The images fs_delete goes through: k directory sectors, then the superblock. */
  lemma KillPrefix(d: Image, t: nat, k: nat)
    requires |d| >= DATA_LBA && t < 64 && k <= 8
    ensures var x := Overwrite(d, DIR_LBA, DirSectors(Patch(DirBytes(d), t, KilledEntry(DirBytes(d), t)))[..k]);
            && ApplyAll(d, KillPlan(d, t)[..k]) == x && NumFiles(x) == NumFiles(d)
            && (k == 8 && NumFiles(d) > 0 ==>
                  ApplyAll(d, KillPlan(d, t)[..9]) == x[SUPER_LBA := SetCount(x[SUPER_LBA], NumFiles(d) - 1)])
  {
    var raw, count := KilledEntry(DirBytes(d), t), if NumFiles(d) > 0 then NumFiles(d) - 1 else 0;
    PublishPrefixImage(d, t, raw, count, k);
    PublishLast(d, t, raw, count);
  }

  /** Exactly the first k writes of a plan were done, all of them if the call succeeded. */
  ghost predicate Carried(d: Image, x: Image, ws: seq<Write>, k: nat, ok: bool, healthy: bool) {
    k <= |ws| && x == ApplyAll(d, ws[..k]) && (ok <==> k == |ws|) && Stopped(d, ws, k, healthy)
  }

  /** What fs_write_new does to the map, for names and sizes the format can hold. */
  ghost predicate Wrote(d: Image, x: Image, name: seq<byte>, data: seq<byte>, r: int, healthy: bool)
    requires Inv(d)
  {
    && (r == 0 ==> name != [] && Slot(d, name) >= 0)
    && (Storable(d, name, data) ==>
          && Inv(x)
          && (Files(x) == Files(d) || Files(x) == Files(d)[Key(name) := data])
          && (r == 0 ==> Files(x) == Files(d)[Key(name) := data])
          && (healthy && r != 0 ==> Files(x) == Files(d)))
  }

  lemma NotWritten(d: Image, name: seq<byte>, data: seq<byte>, healthy: bool)
    ensures Inv(d) ==> Wrote(d, d, name, data, -1, healthy)
  {
  }

  /** A write that a healthy drive refuses stopped among its data sectors. */
  lemma StoppedEarly(d: Image, name: seq<byte>, data: seq<byte>, k: nat)
    requires Writable(d, name, data) && k < |WritePlan(d, name, data)| && WritePlan(d, name, data)[k].lba >= |d|
    ensures k <= WriteCommit(d, name, data)
  {
    hide DirOk, Dir, NextFree, Slot, EncodeEntry, NewEntry, WriteCount, SetCount, DirSectors, DataSectors;
    NoSizeWrap(|data|);
  }

  lemma WrittenMap(d: Image, x: Image, name: seq<byte>, data: seq<byte>, k: nat, r: int, healthy: bool)
    requires SizeOk(d) && DirOk(Dir(d), |d|) && |data| < WORD_LIMIT && NameOk(name) && Slot(d, name) >= 0
    requires Carried(d, x, WritePlan(d, name, data), k, r == 0, healthy)
    ensures Inv(d) ==> Wrote(d, x, name, data, r, healthy)
  {
    hide DirOk, Dir, Slot, WritePlan, FilesOf, WriteCommit, NewEntry, Formatted;
    if Inv(d) && Storable(d, name, data) {
      WriteCrashAtomic(d, name, data, k);
      PlanPastCommit(d, name, data);
      if healthy && r != 0 {
        StoppedEarly(d, name, data, k);
      }
    }
  }

  /** What fs_delete does to the map. */
  ghost predicate Deleted(d: Image, x: Image, name: seq<byte>, r: int, healthy: bool)
    requires Inv(d)
  {
    && Inv(x)
    && (Files(x) == Files(d) || Files(x) == Files(d) - {name})
    && (r == 0 ==> name in Files(d) && Files(x) == Files(d) - {name})
    && (healthy ==> (r == 0 <==> name in Files(d)))
  }

  lemma NotDeleted(d: Image, name: seq<byte>, healthy: bool)
    ensures Inv(d) && (healthy ==> name == [] || Lookup(Dir(d), name) == 64) ==> Deleted(d, d, name, -1, healthy)
  {
    if Inv(d) {
      hide FilesOf, DirOk, Dir;
      InFilesIff(d, name);
      NoEmptyName(d);
    }
  }

  lemma DeletedMap(d: Image, x: Image, name: seq<byte>, k: nat, r: int, healthy: bool)
    requires |d| >= DATA_LBA && name != [] && Lookup(Dir(d), name) < 64 && k <= |DeletePlan(d, name)|
    requires x == ApplyAll(d, DeletePlan(d, name)[..k]) && (r == 0 <==> k >= 8) && (healthy ==> k >= 8)
    ensures Inv(d) ==> Deleted(d, x, name, r, healthy)
  {
    hide DirOk, Dir, DeletePlan, FilesOf, Formatted, Lookup;
    if Inv(d) {
      InFilesIff(d, name);
      DeleteCrashAtomic(d, name, k);
    }
  }

  /** Writing into the data area leaves directory and superblock as they were. */
  lemma SameDirectory(d: Image, y: Image, next: nat, secs: seq<Sector>)
    requires SizeOk(d) && DATA_LBA <= next && next + |secs| <= |d| && y == Overwrite(d, next, secs)
    ensures DirBytes(y) == DirBytes(d) && y[SUPER_LBA] == d[SUPER_LBA]
  {
    DirFrame(y, d);
  }

  /** The plan was cut among its data sectors. */
  lemma DataCut(d: Image, name: seq<byte>, data: seq<byte>, x: Image, k: nat, healthy: bool)
    requires SizeOk(d) && DirOk(Dir(d), |d|) && |data| < WORD_LIMIT && Slot(d, name) >= 0
    requires k < SectorsNeeded(|data|) && NextFree(Dir(d)) + k <= |d|
    requires healthy ==> NextFree(Dir(d)) + k == |d|
    requires x == Overwrite(d, NextFree(Dir(d)), DataSectors(data)[..k])
    ensures Carried(d, x, WritePlan(d, name, data), k, false, healthy)
  {
    hide DirOk, Dir, DirBytes, NextFree, Publish, ApplyAll, EncodeEntry;
    var rest := Publish(d, Slot(d, name), EncodeEntry(NewEntry(d, name, data)), WriteCount(d, name));
    PrefixFirst(d, NextFree(Dir(d)), DataSectors(data), rest, k);
  }

  /** The publishing writes depend only on directory and superblock. */
  lemma PublishSame(d: Image, y: Image, t: nat, raw: seq<byte>, count: word)
    requires |d| >= DATA_LBA && |y| >= DATA_LBA && t < 64 && |raw| == 64
    requires DirBytes(y) == DirBytes(d) && y[SUPER_LBA] == d[SUPER_LBA]
    ensures Publish(y, t, raw, count) == Publish(d, t, raw, count)
  {
  }

  lemma PublishInRange(d: Image, next: nat, secs: seq<Sector>, t: nat, raw: seq<byte>, count: word, k: nat)
    requires |d| >= DATA_LBA && t < 64 && |raw| == 64 && next + |secs| <= |d| && k <= |secs| + 9
    ensures InRange(d, (Consecutive(next, secs) + Publish(d, t, raw, count))[..k])
  {
  }

  /** The data went out whole and j of the publishing writes followed. */
  lemma DataDone(d: Image, y: Image, name: seq<byte>, data: seq<byte>, x: Image, j: nat, healthy: bool)
    requires SizeOk(d) && DirOk(Dir(d), |d|) && |data| < WORD_LIMIT && Slot(d, name) >= 0
    requires NextFree(Dir(d)) + SectorsNeeded(|data|) <= |d| && j <= 9 && (healthy ==> j == 9)
    requires y == Overwrite(d, NextFree(Dir(d)), DataSectors(data))
    requires DirBytes(y) == DirBytes(d) && y[SUPER_LBA] == d[SUPER_LBA]
    requires x == ApplyAll(y, Publish(y, Slot(d, name), EncodeEntry(NewEntry(d, name, data)), WriteCount(d, name))[..j])
    ensures Carried(d, x, WritePlan(d, name, data), SectorsNeeded(|data|) + j, j == 9, healthy)
  {
    hide DirOk, Dir, DirBytes, NextFree, Publish, ApplyAll, EncodeEntry, Consecutive, SectorsNeeded, DataSectors,
      Overwrite, Carried, Slot, NewEntry, WriteCount, SizeOk;
    var t, raw, count := Slot(d, name), EncodeEntry(NewEntry(d, name, data)), WriteCount(d, name);
    PublishSame(d, y, t, raw, count);
    PlanDone(d, NextFree(Dir(d)), DataSectors(data), t, raw, count, x, j, healthy);
  }

  lemma PlanDone(d: Image, next: nat, secs: seq<Sector>, t: nat, raw: seq<byte>, count: word,
                 x: Image, j: nat, healthy: bool)
    requires |d| >= DATA_LBA && t < 64 && |raw| == 64 && next + |secs| <= |d| && j <= 9 && (healthy ==> j == 9)
    requires x == ApplyAll(Overwrite(d, next, secs), Publish(d, t, raw, count)[..j])
    ensures Carried(d, x, Consecutive(next, secs) + Publish(d, t, raw, count), |secs| + j, j == 9, healthy)
  {
    hide Publish, ApplyAll, InRange;
    PrefixSecond(d, next, secs, Publish(d, t, raw, count), |secs| + j);
    PublishInRange(d, next, secs, t, raw, count, |secs| + j);
  }

  /** The end of an extent in the 32-bit arithmetic of the C code. */
  function EndOfEntry(e: Entry): word {
    (e.start + SectorsNeeded(e.size)) % WORD_LIMIT
  }

  lemma EndNoWrap(dir: Directory, i: nat)
    requires DirOk(dir, MAX_SECTORS) && i < 64 && Live(dir[i])
    ensures EndOfEntry(dir[i]) == End(dir[i]) <= MAX_SECTORS
  {
    assert GoodEntry(dir[i], MAX_SECTORS);
    NoSizeWrap(dir[i].size);
  }

  lemma DirOkGrows(dir: Directory, sectors: int)
    requires DirOk(dir, sectors) && sectors <= MAX_SECTORS
    ensures DirOk(dir, MAX_SECTORS)
  {
    forall i, j | 0 <= i < j < 64 && Live(dir[i]) && Live(dir[j])
      ensures Apart(dir[i], dir[j])
    {
    }
  }

  /** The sector that holds byte pos of a file, in 32-bit arithmetic. */
  function SectorAddress(start: word, pos: nat): word {
    (start + pos / 512) % WORD_LIMIT
  }

  lemma AddressNoWrap(start: word, size: word, pos: nat, sectors: int)
    requires start + SectorsOf(size) <= sectors <= MAX_SECTORS && pos < size
    ensures SectorAddress(start, pos) == start + pos / 512 < sectors
  {
  }

  /** Part of one sector is the matching part of the file. */
  lemma SectorSlice(d: Image, start: int, size: int, pos: nat, chunk: nat)
    requires 0 <= start && 0 <= size && start + SectorsOf(size) <= |d|
    requires pos + chunk <= size && pos % 512 + chunk <= 512 && pos < size
    ensures d[start + pos / 512][pos % 512..pos % 512 + chunk] == Content(d, start, size)[pos..pos + chunk]
  {
    var a, b := d[start + pos / 512][pos % 512..pos % 512 + chunk], Content(d, start, size)[pos..pos + chunk];
    forall k | 0 <= k < chunk
      ensures a[k] == b[k]
    {
      assert (pos + k) / 512 == pos / 512 && (pos + k) % 512 == pos % 512 + k;
    }
  }

  lemma BlankSectors(b: seq<byte>)
    requires |b| == 4096 && forall i :: 0 <= i < 4096 ==> b[i] == 0
    ensures DirSectors(b) == BlankDirectory()
  {
    forall s | 0 <= s < 8
      ensures DirSectors(b)[s] == BlankDirectory()[s]
    {
      assert b[512 * s..512 * s + 512] == Zeros(512);
    }
  }

  lemma FormatPrefix(d: Image, j: nat)
    requires SizeOk(d) && j <= 8
    ensures ApplyAll(d, FormatPlan()[..1 + j]) ==
            Overwrite(d[SUPER_LBA := FRESH_SUPER], DIR_LBA, BlankDirectory()[..j])
  {
    var a, b := Consecutive(SUPER_LBA, [FRESH_SUPER]), Consecutive(DIR_LBA, BlankDirectory()[..j]);
    var y := d[SUPER_LBA := FRESH_SUPER];
    assert FormatPlan()[..1 + j] == a + b;
    ApplyAllConcat(d, a, b);
    ConsecutiveOverwrites(d, SUPER_LBA, [FRESH_SUPER]);
    assert Overwrite(d, SUPER_LBA, [FRESH_SUPER]) == y;
    ConsecutiveOverwrites(y, DIR_LBA, BlankDirectory()[..j]);
  }
}
