/**
  What VesperFS promises over whole runs: each call is atomic against crashes and failing
  writes, the image refines a plain map from names to bytes, and the superblock count is right
  after every call that ran to its end.
 */
module FsTheorems {
  import opened Bytes
  import opened FsLayout
  import opened FsPlans

  /** A prefix of a plan that ends inside its first part. */
  lemma PrefixFirst(d: Image, a: nat, secs: seq<Sector>, rest: seq<Write>, k: nat)
    requires k <= |secs| && a + k <= |d|
    ensures ApplyAll(d, (Consecutive(a, secs) + rest)[..k]) == Overwrite(d, a, secs[..k])
  {
    assert (Consecutive(a, secs) + rest)[..k] == Consecutive(a, secs[..k]);
    ConsecutiveOverwrites(d, a, secs[..k]);
  }

  /** A prefix of a plan that ends in or after its second part. */
  lemma PrefixSecond(d: Image, a: nat, secs: seq<Sector>, rest: seq<Write>, k: nat)
    requires |secs| <= k <= |secs| + |rest| && a + |secs| <= |d|
    ensures ApplyAll(d, (Consecutive(a, secs) + rest)[..k]) == ApplyAll(Overwrite(d, a, secs), rest[..k - |secs|])
  {
    assert (Consecutive(a, secs) + rest)[..k] == Consecutive(a, secs) + rest[..k - |secs|];
    ConsecutiveOverwrites(d, a, secs);
    ApplyAllConcat(d, Consecutive(a, secs), rest[..k - |secs|]);
  }

  /** Everything a disk image says: its files, its directory, and the recorded file count. */
  datatype Meaning = Meaning(files: map<seq<byte>, seq<byte>>, dir: Directory, count: word)

  ghost function MeaningOf(d: Image): Meaning
    requires Inv(d)
  {
    Meaning(Files(d), Dir(d), NumFiles(d))
  }

  // ---------------------------------------------------------------- write

  /** The size can be rounded up to sectors, and no other file already has the name the entry will be stored under. */
  ghost predicate Storable(d: Image, name: seq<byte>, data: seq<byte>)
    requires Inv(d)
  {
    |data| <= MAX_SIZE && (Key(name) == name || Key(name) !in Files(d))
  }

  ghost predicate Writable(d: Image, name: seq<byte>, data: seq<byte>) {
    Inv(d) && NameOk(name) && Storable(d, name, data) && Slot(d, name) >= 0
  }

  /** Index of the write that publishes the new directory entry. */
  ghost function WriteCommit(d: Image, name: seq<byte>, data: seq<byte>): nat
    requires Writable(d, name, data)
  {
    SectorsOf(|data|) + Slot(d, name) / 8
  }

  /** The two things a write changes: the map, at the commit point, and the count, at the very end. */
  ghost function AfterWrite(d: Image, name: seq<byte>, data: seq<byte>, committed: bool, done: bool): Meaning
    requires Inv(d) && Slot(d, name) >= 0 && |data| < WORD_LIMIT
  {
    Meaning(if committed then Files(d)[Key(name) := data] else Files(d),
            if committed then Dir(d)[Slot(d, name) := NewEntry(d, name, data)] else Dir(d),
            if done then WriteCount(d, name) else NumFiles(d))
  }

  /** Data sectors land outside every live extent, so they change nothing that can be named. */
  lemma DataInvisible(d: Image, secs: seq<Sector>)
    requires Inv(d) && NextFree(Dir(d)) + |secs| <= |d|
    ensures var x := Overwrite(d, NextFree(Dir(d)), secs);
            && Inv(x) && DirBytes(x) == DirBytes(d) && Dir(x) == Dir(d) && x[SUPER_LBA] == d[SUPER_LBA]
            && Files(x) == Files(d)
  {
    var x := Overwrite(d, NextFree(Dir(d)), secs);
    DirFrame(x, d);
    FilesFrame(Dir(d), d, x);
  }

  /** The new entry keeps the directory well formed wherever the data went. */
  lemma NewEntryFits(d: Image, name: seq<byte>, data: seq<byte>)
    requires Writable(d, name, data) && NextFree(Dir(d)) + SectorsOf(|data|) <= |d|
    ensures var e := NewEntry(d, name, data);
            var t := Slot(d, name);
            && Live(e) && FileName(e) == Key(name) && GoodEntry(e, |d|)
            && (if Overwrites(d, name) then Matches(Dir(d)[t], Key(name)) else !Live(Dir(d)[t]))
            && (forall i :: 0 <= i < 64 && i != t && Live(Dir(d)[i]) ==> Apart(Dir(d)[i], e))
  {
    var dir, e, t := Dir(d), NewEntry(d, name, data), Slot(d, name);
    StoredNameReads(name);
    ScanFinds(dir, name, |dir|);
    if Overwrites(d, name) {
      NameLength(dir[t]);
    }
    forall i | 0 <= i < 64 && i != t && Live(dir[i])
      ensures Apart(dir[i], e)
    {
      if FileName(dir[i]) == Key(name) {
        assert Matches(dir[i], Key(name));
        FilesAt(dir, d, Key(name), i);
        MatchUnique(dir, |d|, name, i, t);
      }
    }
  }

  /** A superblock rewrite that keeps its first twelve bytes keeps every file. */
  lemma SuperInvisible(d: Image, n: word)
    requires Inv(d)
    ensures var x := d[SUPER_LBA := SetCount(d[SUPER_LBA], n)];
            Inv(x) && Dir(x) == Dir(d) && Files(x) == Files(d) && NumFiles(x) == n
  {
    var s := SetCount(d[SUPER_LBA], n);
    var x := d[SUPER_LBA := s];
    SetCountEffect(d[SUPER_LBA], n);
    assert s[..8] == s[..12][..8] && d[SUPER_LBA][..8] == d[SUPER_LBA][..12][..8];
    assert s[8..12] == s[..12][8..12] && d[SUPER_LBA][8..12] == d[SUPER_LBA][..12][8..12];
    DirFrame(x, d);
    FilesFrame(Dir(d), d, x);
  }

  /** Rewriting j of the eight directory sectors with one entry replaced. */
  lemma DirPhase(y: Image, t: nat, raw: seq<byte>, j: nat)
    requires Inv(y) && t < 64 && |raw| == 64 && j <= 8
    requires DirOk(Dir(y)[t := DecodeEntry(raw)], |y|)
    ensures var x := Overwrite(y, DIR_LBA, DirSectors(Patch(DirBytes(y), t, raw))[..j]);
            var e := DecodeEntry(raw);
            && Inv(x) && x[SUPER_LBA] == y[SUPER_LBA]
            && Dir(x) == (if j <= t / 8 then Dir(y) else Dir(y)[t := e])
            && Files(x) == (if j <= t / 8 then Files(y) else FilesOf(Dir(y)[t := e], y))
  {
    DirPrefix(y, t, raw, j);
    var x := Overwrite(y, DIR_LBA, DirSectors(Patch(DirBytes(y), t, raw))[..j]);
    FilesFrame(Dir(x), y, x);
  }

  ghost predicate Published(y: Image, x: Image, t: nat, e: Entry, j: nat, count: word)
    requires Inv(y) && t < 64 && |e.name| == 32 && DirOk(Dir(y)[t := e], |y|)
  {
    && Inv(x)
    && Dir(x) == (if j <= t / 8 then Dir(y) else Dir(y)[t := e])
    && Files(x) == (if j <= t / 8 then Files(y) else FilesOf(Dir(y)[t := e], y))
    && NumFiles(x) == (if j < 9 then NumFiles(y) else count)
  }

  lemma PublishPrefixImage(d: Image, t: nat, raw: seq<byte>, count: word, k: nat)
    requires |d| >= DATA_LBA && t < 64 && |raw| == 64 && k <= 8
    ensures ApplyAll(d, Publish(d, t, raw, count)[..k]) ==
            Overwrite(d, DIR_LBA, DirSectors(Patch(DirBytes(d), t, raw))[..k])
  {
    var last := Write(SUPER_LBA, SetCount(d[SUPER_LBA], count));
    PrefixFirst(d, DIR_LBA, DirSectors(Patch(DirBytes(d), t, raw)), [last], k);
  }

  lemma PublishDir(y: Image, t: nat, raw: seq<byte>, count: word, j: nat)
    requires Inv(y) && t < 64 && |raw| == 64 && j <= 8 && DirOk(Dir(y)[t := DecodeEntry(raw)], |y|)
    ensures ApplyAll(y, Publish(y, t, raw, count)[..j]) ==
            Overwrite(y, DIR_LBA, DirSectors(Patch(DirBytes(y), t, raw))[..j])
    ensures Published(y, ApplyAll(y, Publish(y, t, raw, count)[..j]), t, DecodeEntry(raw), j, count)
  {
    PublishPrefixImage(y, t, raw, count, j);
    DirPhase(y, t, raw, j);
  }

  lemma PublishSuper(y: Image, z: Image, t: nat, e: Entry, count: word)
    requires Inv(y) && t < 64 && |e.name| == 32 && DirOk(Dir(y)[t := e], |y|)
    requires Published(y, z, t, e, 8, count) && z[SUPER_LBA] == y[SUPER_LBA]
    ensures Published(y, z[SUPER_LBA := SetCount(y[SUPER_LBA], count)], t, e, 9, count)
  {
    SuperInvisible(z, count);
  }

  lemma PublishLast(y: Image, t: nat, raw: seq<byte>, count: word)
    requires |y| >= DATA_LBA && t < 64 && |raw| == 64
    ensures ApplyAll(y, Publish(y, t, raw, count)[..9]) ==
            ApplyAll(y, Publish(y, t, raw, count)[..8])[SUPER_LBA := SetCount(y[SUPER_LBA], count)]
  {
    ApplySnoc(y, Publish(y, t, raw, count), 8);
  }

  lemma PublishAll(y: Image, t: nat, raw: seq<byte>, count: word)
    requires Inv(y) && t < 64 && |raw| == 64 && DirOk(Dir(y)[t := DecodeEntry(raw)], |y|)
    ensures Published(y, ApplyAll(y, Publish(y, t, raw, count)[..9]), t, DecodeEntry(raw), 9, count)
  {
    PublishDir(y, t, raw, count, 8);
    PublishLast(y, t, raw, count);
    PublishSuper(y, ApplyAll(y, Publish(y, t, raw, count)[..8]), t, DecodeEntry(raw), count);
  }

  /** After j of the publishing writes the directory has switched exactly when the sector of slot t is among them. */
  lemma PublishPrefix(y: Image, t: nat, raw: seq<byte>, count: word, j: nat)
    requires Inv(y) && t < 64 && |raw| == 64 && j <= 9 && DirOk(Dir(y)[t := DecodeEntry(raw)], |y|)
    ensures Published(y, ApplyAll(y, Publish(y, t, raw, count)[..j]), t, DecodeEntry(raw), j, count)
  {
    if j == 9 {
      PublishAll(y, t, raw, count);
    } else {
      PublishDir(y, t, raw, count, j);
    }
  }

  /** If the first k writes hit existing sectors, so do the data sectors among them. */
  lemma DataInRange(d: Image, base: nat, secs: seq<Sector>, rest: seq<Write>, k: nat)
    requires k <= |secs| + |rest| && base <= |d| && InRange(d, (Consecutive(base, secs) + rest)[..k])
    ensures base + (if k < |secs| then k else |secs|) <= |d|
  {
    var m := if k < |secs| then k else |secs|;
    if m > 0 {
      assert (Consecutive(base, secs) + rest)[..k][m - 1].lba == base + m - 1;
    }
  }

  /** Replacing the slot is the update of the map, by whatever the extent of the new entry holds. */
  lemma EntryUpdates(d: Image, y: Image, name: seq<byte>, data: seq<byte>)
    requires Writable(d, name, data) && NextFree(Dir(d)) + SectorsOf(|data|) <= |d| == |y|
    ensures var dir := Dir(d)[Slot(d, name) := NewEntry(d, name, data)];
            && DirOk(dir, |d|)
            && FilesOf(dir, y) == FilesOf(Dir(d), y)[Key(name) := Content(y, NextFree(Dir(d)), |data|)]
  {
    hide DirOk, FilesOf, Content, SectorsOf, Slot, NextFree, Dir;
    NewEntryFits(d, name, data);
    DirUpdate(Dir(d), y, Slot(d, name), NewEntry(d, name, data));
  }

  /** The publication half of fs_write_new, starting from an image that already holds the data. */
  lemma WritePublishes(d: Image, name: seq<byte>, data: seq<byte>, j: nat)
    requires Writable(d, name, data) && j <= 9 && NextFree(Dir(d)) + SectorsOf(|data|) <= |d|
    ensures SectorsNeeded(|data|) == SectorsOf(|data|)
    ensures var t := Slot(d, name);
            var y := Overwrite(d, NextFree(Dir(d)), DataSectors(data));
            var x := ApplyAll(y, Publish(d, t, EncodeEntry(NewEntry(d, name, data)), WriteCount(d, name))[..j]);
            Inv(x) && MeaningOf(x) == AfterWrite(d, name, data, j > t / 8, j == 9)
  {
    NoSizeWrap(|data|);
    hide DirOk, Dir, DirBytes, EncodeEntry, NewEntry, Slot, FilesOf, SectorsNeeded, SectorsOf, ApplyAll;
    hide Formatted, Content;
    var y, e := Overwrite(d, NextFree(Dir(d)), DataSectors(data)), NewEntry(d, name, data);
    DataInvisible(d, DataSectors(data));
    ContentOfData(d, NextFree(Dir(d)), data);
    EntryUpdates(d, y, name, data);
    EntryRoundTrip(e);
    PublishPrefix(y, Slot(d, name), EncodeEntry(e), WriteCount(d, name), j);
  }

  /**
    fs_write_new is atomic: after any number of its sector writes the disk satisfies the
    invariant and denotes the old map up to the commit point and the new map past it.
   */
  lemma WriteCrashAtomic(d: Image, name: seq<byte>, data: seq<byte>, k: nat)
    requires Writable(d, name, data)
    requires k <= |WritePlan(d, name, data)| && InRange(d, WritePlan(d, name, data)[..k])
    ensures var x := ApplyAll(d, WritePlan(d, name, data)[..k]);
            && Inv(x)
            && MeaningOf(x) ==
               AfterWrite(d, name, data, k > WriteCommit(d, name, data), k == |WritePlan(d, name, data)|)
  {
    var next, secs := NextFree(Dir(d)), DataSectors(data);
    var rest := Publish(d, Slot(d, name), EncodeEntry(NewEntry(d, name, data)), WriteCount(d, name));
    NoSizeWrap(|data|);
    NextLbaBound(Dir(d), |d|);
    DataInRange(d, next, secs, rest, k);
    if k <= |secs| {
      PrefixFirst(d, next, secs, rest, k);
      DataInvisible(d, secs[..k]);
    } else {
      PrefixSecond(d, next, secs, rest, k);
      WritePublishes(d, name, data, k - |secs|);
    }
  }

  // ---------------------------------------------------------------- delete

  /** The directory that fs_delete publishes. */
  function KilledDir(dir: Directory, t: nat): Directory
    requires t < 64
  {
    dir[t := dir[t].(flags := 1)]
  }

  lemma KilledDirRemoves(d: Image, name: seq<byte>)
    requires Inv(d) && Lookup(Dir(d), name) < 64
    ensures var t := Lookup(Dir(d), name);
            var dir := KilledDir(Dir(d), t);
            && DecodeEntry(KilledEntry(DirBytes(d), t)) == dir[t]
            && DirOk(dir, |d|) && FilesOf(dir, d) == Files(d) - {name}
  {
    var t := Lookup(Dir(d), name);
    KilledIsDead(DirBytes(d), t);
    DirRemove(Dir(d), d, t, DecodeEntry(KilledEntry(DirBytes(d), t)));
  }

  /** A prefix of the deletion plan is a prefix of a publication. */
  lemma DeletePrefix(d: Image, name: seq<byte>, k: nat)
    requires |d| >= DATA_LBA && Lookup(Dir(d), name) < 64 && k <= |DeletePlan(d, name)|
    ensures var t := Lookup(Dir(d), name);
            DeletePlan(d, name)[..k] ==
            Publish(d, t, KilledEntry(DirBytes(d), t), if NumFiles(d) > 0 then NumFiles(d) - 1 else 0)[..k]
  {
  }

  ghost function AfterDelete(d: Image, name: seq<byte>, committed: bool, done: bool): Meaning
    requires Inv(d) && Lookup(Dir(d), name) < 64 && (done ==> NumFiles(d) > 0)
  {
    Meaning(if committed then Files(d) - {name} else Files(d),
            if committed then KilledDir(Dir(d), Lookup(Dir(d), name)) else Dir(d),
            if done then NumFiles(d) - 1 else NumFiles(d))
  }

  lemma DeletePublishes(d: Image, name: seq<byte>, count: word, j: nat)
    requires Inv(d) && Lookup(Dir(d), name) < 64 && j <= 9
    requires j == 9 ==> NumFiles(d) > 0 && count == NumFiles(d) - 1
    ensures var t := Lookup(Dir(d), name);
            var x := ApplyAll(d, Publish(d, t, KilledEntry(DirBytes(d), t), count)[..j]);
            Inv(x) && MeaningOf(x) == AfterDelete(d, name, j > t / 8, j == 9)
  {
    var t := Lookup(Dir(d), name);
    KilledDirRemoves(d, name);
    PublishPrefix(d, t, KilledEntry(DirBytes(d), t), count, j);
  }

  /** fs_delete is atomic in the same sense; its commit point is the directory sector of the entry. */
  lemma DeleteCrashAtomic(d: Image, name: seq<byte>, k: nat)
    requires Inv(d) && Lookup(Dir(d), name) < 64 && k <= |DeletePlan(d, name)|
    ensures var x := ApplyAll(d, DeletePlan(d, name)[..k]);
            Inv(x) && MeaningOf(x) == AfterDelete(d, name, k > Lookup(Dir(d), name) / 8, k == 9)
  {
    DeletePrefix(d, name, k);
    DeletePublishes(d, name, if NumFiles(d) > 0 then NumFiles(d) - 1 else 0, k);
  }
}
