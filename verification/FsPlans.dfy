/**
  Every mutating VesperFS call is a fixed list of single-sector writes, its plan.  A call that
  is cut short, by a failing write or by a crash, has carried out a prefix of its plan.
  This module proves what every prefix denotes: the old map or the new one, with the switch
  at exactly one directory-sector write (kernel/fs.c:219-339).
 */
module FsPlans {
  import opened Bytes
  import opened FsLayout

  datatype Write = Write(lba: nat, data: Sector)

  function Apply(d: Image, w: Write): (e: Image)
    ensures |e| == |d|
  {
    if w.lba < |d| then d[w.lba := w.data] else d
  }

  function ApplyAll(d: Image, ws: seq<Write>): (e: Image)
    ensures |e| == |d|
  {
    if ws == [] then d else Apply(ApplyAll(d, ws[..|ws| - 1]), ws[|ws| - 1])
  }

  lemma {:induction false} ApplyAllConcat(d: Image, a: seq<Write>, b: seq<Write>)
    ensures ApplyAll(d, a + b) == ApplyAll(ApplyAll(d, a), b)
  {
    if b == [] {
      assert a + b == a;
    } else {
      var b' := b[..|b| - 1];
      assert (a + b)[..|a + b| - 1] == a + b';
      ApplyAllConcat(d, a, b');
    }
  }

  lemma ApplySnoc(d: Image, ws: seq<Write>, k: nat)
    requires k < |ws|
    ensures ApplyAll(d, ws[..k + 1]) == Apply(ApplyAll(d, ws[..k]), ws[k])
  {
    assert ws[..k + 1][..k] == ws[..k];
  }

  /** Writes to consecutive sectors. */
  function Consecutive(base: nat, secs: seq<Sector>): (ws: seq<Write>)
    ensures |ws| == |secs|
  {
    seq(|secs|, s requires 0 <= s < |secs| => Write(base + s, secs[s]))
  }

  function Overwrite(d: Image, base: nat, secs: seq<Sector>): (e: Image)
    requires base + |secs| <= |d|
    ensures |e| == |d|
    ensures forall l :: 0 <= l < |d| ==> e[l] == if base <= l < base + |secs| then secs[l - base] else d[l]
  {
    d[..base] + secs + d[base + |secs|..]
  }

  /** One sector more. */
  lemma OverwriteSnoc(d: Image, base: nat, secs: seq<Sector>, k: nat)
    requires k < |secs| && base + k < |d|
    ensures Overwrite(d, base, secs[..k + 1]) == Overwrite(d, base, secs[..k])[base + k := secs[k]]
  {
  }

  lemma OverwriteNone(d: Image, base: nat, secs: seq<Sector>)
    requires base <= |d|
    ensures Overwrite(d, base, secs[..0]) == d
  {
  }

  lemma {:induction false} ConsecutiveOverwrites(d: Image, base: nat, secs: seq<Sector>)
    requires base + |secs| <= |d|
    ensures ApplyAll(d, Consecutive(base, secs)) == Overwrite(d, base, secs)
  {
    if secs != [] {
      var n := |secs| - 1;
      assert Consecutive(base, secs)[..n] == Consecutive(base, secs[..n]);
      ConsecutiveOverwrites(d, base, secs[..n]);
    }
  }

  // ---------------------------------------------------------------- the directory area

  function DirSectors(b: seq<byte>): (secs: seq<Sector>)
    requires |b| == 4096
    ensures |secs| == 8
  {
    seq(8, s requires 0 <= s < 8 => b[512 * s..512 * s + 512])
  }

  /** The directory bytes with the 64 bytes of slot t replaced. */
  function Patch(b: seq<byte>, t: nat, raw: seq<byte>): (r: seq<byte>)
    requires |b| == 4096 && t < 64 && |raw| == 64
    ensures |r| == 4096
  {
    Splice(b, 64 * t, raw)
  }

  lemma PatchDecodes(b: seq<byte>, t: nat, raw: seq<byte>)
    requires |b| == 4096 && t < 64 && |raw| == 64
    ensures DecodeDir(Patch(b, t, raw)) == DecodeDir(b)[t := DecodeEntry(raw)]
  {
    var r := Patch(b, t, raw);
    forall i | 0 <= i < 64
      ensures DecodeDir(r)[i] == DecodeDir(b)[t := DecodeEntry(raw)][i]
    {
      if i == t {
        assert r[64 * t..64 * t + 64] == raw;
      } else {
        assert r[64 * i..64 * i + 64] == b[64 * i..64 * i + 64];
      }
    }
  }

  /** After j of the eight directory sectors: still the old directory up to the sector of slot t, then the new one. */
  lemma DirPrefix(d: Image, t: nat, raw: seq<byte>, j: nat)
    requires |d| >= DATA_LBA && t < 64 && |raw| == 64 && j <= 8
    ensures var x := Overwrite(d, DIR_LBA, DirSectors(Patch(DirBytes(d), t, raw))[..j]);
            && Dir(x) == (if j <= t / 8 then Dir(d) else Dir(d)[t := DecodeEntry(raw)])
            && forall l :: 0 <= l < |d| && !(DIR_LBA <= l < DATA_LBA) ==> x[l] == d[l]
  {
    var b := DirBytes(d);
    var r := Patch(b, t, raw);
    var x := Overwrite(d, DIR_LBA, DirSectors(r)[..j]);
    forall k | 0 <= k < 4096
      ensures DirBytes(x)[k] == if k < 512 * j then r[k] else b[k]
    {
    }
    if j <= t / 8 {
      assert DirBytes(x) == b;
    } else {
      assert DirBytes(x) == r;
      PatchDecodes(b, t, raw);
    }
  }

  // ---------------------------------------------------------------- choosing slot and place

  /** State of the slot scan after the first i entries: the slot, if any, and whether it is a match. */
  function Scan(dir: Directory, name: seq<byte>, i: nat): (r: (int, bool))
    requires i <= 64
    ensures -1 <= r.0 < i
  {
    if i == 0 then (-1, false) else
    var (slot, hit) := Scan(dir, name, i - 1);
    if Matches(dir[i - 1], name) then (i - 1, true)
    else if !Live(dir[i - 1]) && slot < 0 then (i - 1, hit)
    else (slot, hit)
  }

  function Scanned(dir: Directory, name: seq<byte>): (r: (int, bool))
    ensures -1 <= r.0 < 64
  {
    Scan(dir, name, |dir|)
  }

  /** The scan ends on a live entry of that name when there is one, else on the first free slot, else on none. */
  lemma {:induction false} ScanFinds(dir: Directory, name: seq<byte>, i: nat)
    requires i <= 64
    ensures var (slot, hit) := Scan(dir, name, i);
            && (hit <==> exists k :: 0 <= k < i && Matches(dir[k], name))
            && (hit ==> slot >= 0 && Matches(dir[slot], name))
            && (!hit && slot >= 0 ==> !Live(dir[slot]) && forall k :: 0 <= k < slot ==> Live(dir[k]))
            && (slot < 0 ==> forall k :: 0 <= k < i ==> Live(dir[k]))
  {
    if i > 0 {
      ScanFinds(dir, name, i - 1);
    }
  }

  /** One past the last sector of any of the first i live extents, and at least the data area. */
  function NextLba(dir: Directory, i: nat): (n: int)
    requires i <= 64
    ensures DATA_LBA <= n
    ensures forall k :: 0 <= k < i && Live(dir[k]) ==> End(dir[k]) <= n
    ensures n == DATA_LBA || exists k :: 0 <= k < i && Live(dir[k]) && n == End(dir[k])
  {
    if i == 0 then DATA_LBA else
    var n := NextLba(dir, i - 1);
    if Live(dir[i - 1]) && End(dir[i - 1]) > n then End(dir[i - 1]) else n
  }

  /** The first sector past every live extent. */
  function NextFree(dir: Directory): (n: int)
    ensures DATA_LBA <= n
    ensures forall k :: 0 <= k < 64 && Live(dir[k]) ==> End(dir[k]) <= n
    ensures n == DATA_LBA || exists k :: 0 <= k < 64 && Live(dir[k]) && n == End(dir[k])
  {
    NextLba(dir, |dir|)
  }

  lemma NextLbaBound(dir: Directory, sectors: int)
    requires DATA_LBA <= sectors && DirOk(dir, sectors)
    ensures DATA_LBA <= NextFree(dir) <= sectors
  {
  }

  // ---------------------------------------------------------------- write plan

  /** Sector s of the data, zero padded. */
  function Chunk(data: seq<byte>, s: nat): (c: Sector) {
    seq(512, k requires 0 <= k < 512 => if 512 * s + k < |data| then data[512 * s + k] else 0)
  }

  /** The sector count as the C code computes it, in 32-bit arithmetic. */
  function SectorsNeeded(len: word): (n: nat) {
    ((len + 511) % WORD_LIMIT) / 512
  }

  function DataSectors(data: seq<byte>): (secs: seq<Sector>)
    requires |data| < WORD_LIMIT
    ensures |secs| == SectorsNeeded(|data|)
  {
    seq(SectorsNeeded(|data|), s requires 0 <= s < SectorsNeeded(|data|) => Chunk(data, s))
  }

  /** strncpy of at most 31 bytes into a zeroed 32-byte field. */
  function StoredName(name: seq<byte>): (f: seq<byte>)
    ensures |f| == 32 && f[31] == 0
    ensures forall i :: 0 <= i < 31 ==> f[i] == if i < |name| then name[i] else 0
  {
    seq(32, i requires 0 <= i < 32 => if i < 31 && i < |name| then name[i] else 0)
  }

  function NewEntry(d: Image, name: seq<byte>, data: seq<byte>): (e: Entry)
    requires SizeOk(d) && DirOk(Dir(d), |d|) && |data| < WORD_LIMIT
    ensures |e.name| == 32
  {
    NextLbaBound(Dir(d), |d|);
    Entry(StoredName(name), NextFree(Dir(d)), |data|, 0)
  }

  function Slot(d: Image, name: seq<byte>): (t: int)
    requires |d| >= DATA_LBA
    ensures -1 <= t < 64
  {
    Scanned(Dir(d), name).0
  }

  predicate Overwrites(d: Image, name: seq<byte>)
    requires |d| >= DATA_LBA
  {
    Scanned(Dir(d), name).1
  }

  function SetCount(s: Sector, n: word): (r: Sector) {
    Splice(s, 12, EncodeWord(n))
  }

  /** The file count to record: one more unless an existing file was replaced. */
  function CountAfter(hit: bool, n: word): word {
    if hit then n else (n + 1) % WORD_LIMIT
  }

  function WriteCount(d: Image, name: seq<byte>): word
    requires |d| >= DATA_LBA
  {
    CountAfter(Overwrites(d, name), NumFiles(d))
  }

  /** The directory and superblock writes shared by creation, overwriting and deletion. */
  function Publish(d: Image, t: nat, raw: seq<byte>, count: word): (ws: seq<Write>)
    requires |d| >= DATA_LBA && t < 64 && |raw| == 64
    ensures |ws| == 9
  {
    Consecutive(DIR_LBA, DirSectors(Patch(DirBytes(d), t, raw)))
    + [Write(SUPER_LBA, SetCount(d[SUPER_LBA], count))]
  }

  /** The sector writes of fs_write_new: data, the eight directory sectors, the superblock. */
  function WritePlan(d: Image, name: seq<byte>, data: seq<byte>): (ws: seq<Write>)
    requires SizeOk(d) && DirOk(Dir(d), |d|) && |data| < WORD_LIMIT && Slot(d, name) >= 0
    ensures |ws| == SectorsNeeded(|data|) + 9
  {
    Consecutive(NextFree(Dir(d)), DataSectors(data))
    + Publish(d, Slot(d, name), EncodeEntry(NewEntry(d, name, data)), WriteCount(d, name))
  }

  // ---------------------------------------------------------------- delete plan

  /** The 64 bytes of slot t with the flags word set to 1. */
  function KilledEntry(b: seq<byte>, t: nat): (raw: seq<byte>)
    requires |b| == 4096 && t < 64
    ensures |raw| == 64
  {
    Splice(b[64 * t..64 * t + 64], 40, EncodeWord(1))
  }

  lemma KilledIsDead(b: seq<byte>, t: nat)
    requires |b| == 4096 && t < 64
    ensures DecodeEntry(KilledEntry(b, t)) == DecodeDir(b)[t].(flags := 1)
  {
    var old', new' := b[64 * t..64 * t + 64], KilledEntry(b, t);
    assert new'[0..32] == old'[0..32] && new'[32..36] == old'[32..36] && new'[36..40] == old'[36..40];
    assert new'[40..44] == EncodeWord(1);
    WordRoundTrip(1);
  }

  /** The sector writes of fs_delete; the superblock is left alone when its count is already zero. */
  function DeletePlan(d: Image, name: seq<byte>): (ws: seq<Write>)
    requires |d| >= DATA_LBA && Lookup(Dir(d), name) < 64
    ensures |ws| == if NumFiles(d) > 0 then 9 else 8
  {
    var t := Lookup(Dir(d), name);
    var raw := KilledEntry(DirBytes(d), t);
    if NumFiles(d) > 0 then Publish(d, t, raw, NumFiles(d) - 1) else Publish(d, t, raw, 0)[..8]
  }

  ghost predicate InRange(d: Image, ws: seq<Write>) {
    forall k :: 0 <= k < |ws| ==> ws[k].lba < |d|
  }

  /** A C string that names something. */
  predicate NameOk(name: seq<byte>) {
    name != [] && 0 !in name
  }

  /** The name a file ends up under: its first 31 bytes. */
  function Key(name: seq<byte>): (k: seq<byte>)
    ensures |k| <= 31 && (|name| <= 31 <==> k == name)
  {
    if |name| <= NAME_MAX then name else name[..NAME_MAX]
  }

  lemma StoredNameReads(name: seq<byte>)
    requires NameOk(name)
    ensures CString(StoredName(name)) == Key(name) && NameOk(Key(name))
  {
    CStringUnique(StoredName(name), Key(name));
  }

  lemma SetCountEffect(s: Sector, n: word)
    ensures SetCount(s, n)[..12] == s[..12] && DecodeWord(SetCount(s, n)[12..16]) == n
  {
    assert SetCount(s, n)[12..16] == EncodeWord(n);
    WordRoundTrip(n);
  }

  lemma NoSizeWrap(size: nat)
    requires size <= MAX_SIZE
    ensures SectorsNeeded(size) == SectorsOf(size)
  {
  }

  /** Reading back a sector-wise written extent gives the data. */
  lemma ContentOfData(d: Image, base: nat, data: seq<byte>)
    requires |data| <= MAX_SIZE && base + SectorsOf(|data|) <= |d|
    ensures SectorsNeeded(|data|) == SectorsOf(|data|)
    ensures Content(Overwrite(d, base, DataSectors(data)), base, |data|) == data
  {
    NoSizeWrap(|data|);
    hide SectorsNeeded, SectorsOf, Overwrite;
    var x := Overwrite(d, base, DataSectors(data));
    forall k | 0 <= k < |data|
      ensures Content(x, base, |data|)[k] == data[k]
    {
      ChunkByte(data, k);
      assert x[base + k / 512] == Chunk(data, k / 512);
    }
  }

  lemma ChunkByte(data: seq<byte>, k: nat)
    requires k < |data|
    ensures k / 512 < SectorsOf(|data|) && Chunk(data, k / 512)[k % 512] == data[k]
  {
    assert 512 * (k / 512) + k % 512 == k;
  }

  /** At most one slot carries a name. */
  lemma MatchUnique(dir: Directory, sectors: int, n: seq<byte>, i: nat, j: nat)
    requires DirOk(dir, sectors) && i < 64 && j < 64 && Matches(dir[i], n) && Matches(dir[j], n)
    ensures i == j
  {
    assert i < j ==> Apart(dir[i], dir[j]);
    assert j < i ==> Apart(dir[j], dir[i]);
  }

  /** A name is in the map exactly when some live slot carries it, and then that slot gives the content. */
  lemma FilesAt(dir: Directory, d: Image, n: seq<byte>, i: nat)
    requires DirOk(dir, |d|) && i < 64 && Matches(dir[i], n)
    ensures n in FilesOf(dir, d) && FilesOf(dir, d)[n] == Content(d, dir[i].start, dir[i].size)
  {
    assert n in Names(dir);
    MatchUnique(dir, |d|, n, i, Lookup(dir, n));
  }

  lemma DirOkUpdate(dir: Directory, sectors: int, t: nat, e: Entry)
    requires DirOk(dir, sectors) && t < 64 && |e.name| == 32
    requires Live(e) ==> GoodEntry(e, sectors)
    requires forall i :: 0 <= i < 64 && i != t && Live(dir[i]) && Live(e) ==> Apart(dir[i], e)
    ensures DirOk(dir[t := e], sectors)
  {
    var dir' := dir[t := e];
    forall i, j | 0 <= i < j < 64 && Live(dir'[i]) && Live(dir'[j])
      ensures Apart(dir'[i], dir'[j])
    {
      if i != t && j != t {
        assert Apart(dir[i], dir[j]);
      }
    }
  }

  /** Names other than those of the old and new entry at t keep their meaning. */
  lemma OtherNames(dir: Directory, d: Image, t: nat, e: Entry, n: seq<byte>)
    requires t < 64 && |e.name| == 32 && DirOk(dir, |d|) && DirOk(dir[t := e], |d|)
    requires !Matches(dir[t], n) && !Matches(e, n)
    ensures n in FilesOf(dir[t := e], d) <==> n in FilesOf(dir, d)
    ensures n in FilesOf(dir, d) ==> FilesOf(dir[t := e], d)[n] == FilesOf(dir, d)[n]
  {
    var dir' := dir[t := e];
    if n in FilesOf(dir, d) {
      var i := Lookup(dir, n);
      assert Matches(dir'[i], n);
      FilesAt(dir', d, n, i);
    } else if n in FilesOf(dir', d) {
      var i := Lookup(dir', n);
      FilesAt(dir, d, n, i);
    }
  }

  /** Replacing a free slot, or the slot of the same name, is a map update. */
  lemma DirUpdate(dir: Directory, d: Image, t: nat, e: Entry)
    requires DirOk(dir, |d|) && t < 64 && |e.name| == 32 && Live(e) && GoodEntry(e, |d|)
    requires !Live(dir[t]) || FileName(dir[t]) == FileName(e)
    requires forall i :: 0 <= i < 64 && i != t && Live(dir[i]) ==> Apart(dir[i], e)
    ensures DirOk(dir[t := e], |d|)
    ensures FilesOf(dir[t := e], d) == FilesOf(dir, d)[FileName(e) := Content(d, e.start, e.size)]
  {
    DirOkUpdate(dir, |d|, t, e);
    var m, m' := FilesOf(dir, d), FilesOf(dir[t := e], d);
    forall n: seq<byte> | n != FileName(e)
      ensures n in m' <==> n in m
      ensures n in m ==> m'[n] == m[n]
    {
      OtherNames(dir, d, t, e, n);
    }
    FilesAt(dir[t := e], d, FileName(e), t);
    MapPlus(m, m', FileName(e));
  }

  lemma MapPlus(m: map<seq<byte>, seq<byte>>, m': map<seq<byte>, seq<byte>>, name: seq<byte>)
    requires name in m'
    requires forall n :: n != name ==> (n in m' <==> n in m) && (n in m ==> m'[n] == m[n])
    ensures m' == m[name := m'[name]]
  {
  }

  /** Killing the slot of a live file removes its name. */
  lemma DirRemove(dir: Directory, d: Image, t: nat, e: Entry)
    requires DirOk(dir, |d|) && t < 64 && |e.name| == 32 && Live(dir[t]) && !Live(e)
    ensures DirOk(dir[t := e], |d|)
    ensures FilesOf(dir[t := e], d) == FilesOf(dir, d) - {FileName(dir[t])}
  {
    DirOkUpdate(dir, |d|, t, e);
    var dir', name := dir[t := e], FileName(dir[t]);
    var m, m' := FilesOf(dir, d), FilesOf(dir', d);
    forall n: seq<byte> | n != name
      ensures n in m' <==> n in m
      ensures n in m ==> m'[n] == m[n]
    {
      OtherNames(dir, d, t, e, n);
    }
    NameGone(dir, d, t, e);
    MapMinus(m, m', name);
  }

  lemma MapMinus(m: map<seq<byte>, seq<byte>>, m': map<seq<byte>, seq<byte>>, name: seq<byte>)
    requires name !in m'
    requires forall n :: n != name ==> (n in m' <==> n in m) && (n in m ==> m'[n] == m[n])
    ensures m' == m - {name}
  {
  }

  lemma NameGone(dir: Directory, d: Image, t: nat, e: Entry)
    requires t < 64 && |e.name| == 32 && DirOk(dir, |d|) && DirOk(dir[t := e], |d|) && Live(dir[t]) && !Live(e)
    ensures FileName(dir[t]) !in FilesOf(dir[t := e], d)
  {
    var dir', name := dir[t := e], FileName(dir[t]);
    if name in FilesOf(dir', d) {
      MatchUnique(dir, |d|, name, Lookup(dir', name), t);
    }
  }
}
