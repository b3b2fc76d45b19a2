/**
  VesperFS over whole runs.  A run is any sequence of writes and deletions, each of which may be
  cut short after any number of sector writes and each of which may find the disk or the
  directory full.  The image keeps denoting the map obtained by the committed calls alone.
 */
module FsRuns {
  import opened Bytes
  import opened FsLayout
  import opened FsPlans
  import opened FsTheorems

  // ---------------------------------------------------------------- format

  const FRESH_SUPER: Sector := MAGIC + EncodeWord(1) + EncodeWord(0) + Zeros(496)

  function BlankDirectory(): (secs: seq<Sector>)
    ensures |secs| == 8
  {
    seq(8, s => Zeros(512))
  }

  /** The sector writes of fs_format: the superblock, then eight blank directory sectors. */
  function FormatPlan(): (ws: seq<Write>)
    ensures |ws| == 9
  {
    Consecutive(SUPER_LBA, [FRESH_SUPER]) + Consecutive(DIR_LBA, BlankDirectory())
  }

  lemma FreshSuperReads()
    ensures MagicOk(FRESH_SUPER)
    ensures DecodeWord(FRESH_SUPER[8..12]) == 1 && DecodeWord(FRESH_SUPER[12..16]) == 0
  {
    assert FRESH_SUPER[..8] == MAGIC;
    assert FRESH_SUPER[8..12] == EncodeWord(1);
    assert FRESH_SUPER[12..16] == EncodeWord(0);
    WordRoundTrip(1);
    WordRoundTrip(0);
  }

  /** Whatever was on the disk, formatting leaves the empty map and a count of zero. */
  lemma FormatEmpties(d: Image)
    requires SizeOk(d)
    ensures var x := ApplyAll(d, FormatPlan());
            Inv(x) && Files(x) == map[] && NumFiles(x) == 0
  {
    var y := Overwrite(d, SUPER_LBA, [FRESH_SUPER]);
    var x := Overwrite(y, DIR_LBA, BlankDirectory());
    assert ApplyAll(d, FormatPlan()) == x by {
      ApplyAllConcat(d, Consecutive(SUPER_LBA, [FRESH_SUPER]), Consecutive(DIR_LBA, BlankDirectory()));
      ConsecutiveOverwrites(d, SUPER_LBA, [FRESH_SUPER]);
      ConsecutiveOverwrites(y, DIR_LBA, BlankDirectory());
    }
    FreshSuperReads();
    assert x[SUPER_LBA] == FRESH_SUPER;
    assert DirBytes(x) == Zeros(4096);
    assert forall i :: 0 <= i < 64 ==> !Live(Dir(x)[i]);
    assert Names(Dir(x)) == {};
  }

  // ---------------------------------------------------------------- counting

  /** The names of the first n slots. */
  ghost function NamesBelow(dir: Directory, n: nat): (s: set<seq<byte>>)
    requires n <= 64
    ensures forall m :: m in s <==> exists i :: 0 <= i < n && Matches(dir[i], m)
  {
    if n == 0 then {}
    else if Live(dir[n - 1]) then
      assert Matches(dir[n - 1], FileName(dir[n - 1]));
      NamesBelow(dir, n - 1) + {FileName(dir[n - 1])}
    else NamesBelow(dir, n - 1)
  }

  /** Distinct live slots carry distinct names. */
  lemma {:induction false} NamesCount(dir: Directory, sectors: int, n: nat)
    requires n <= 64 && DirOk(dir, sectors)
    ensures |NamesBelow(dir, n)| == LiveCount(dir, n)
  {
    if n > 0 {
      NamesCount(dir, sectors, n - 1);
      if Live(dir[n - 1]) {
        NameIsNew(dir, sectors, n - 1);
      }
    }
  }

  lemma NameIsNew(dir: Directory, sectors: int, n: nat)
    requires n < 64 && DirOk(dir, sectors) && Live(dir[n])
    ensures FileName(dir[n]) !in NamesBelow(dir, n)
  {
    if i :| 0 <= i < n && Matches(dir[i], FileName(dir[n])) {
      MatchUnique(dir, sectors, FileName(dir[n]), i, n);
    }
  }

  /** The number of live slots is the number of files. */
  lemma FileCount(d: Image)
    requires Inv(d)
    ensures LiveCount(Dir(d), |Dir(d)|) == |Files(d)|
  {
    var dir := Dir(d);
    NamesCount(dir, |d|, |dir|);
    assert NamesBelow(dir, |dir|) == Files(d).Keys by {
      forall m: seq<byte>
        ensures m in NamesBelow(dir, |dir|) <==> m in Files(d)
      {
        InFilesIff(d, m);
      }
    }
  }

  lemma {:induction false} FullIff(dir: Directory, n: nat)
    requires n <= 64
    ensures LiveCount(dir, n) == n <==> forall i :: 0 <= i < n ==> Live(dir[i])
  {
    if n > 0 {
      FullIff(dir, n - 1);
    }
  }

  lemma {:induction false} LiveUpdate(dir: Directory, t: nat, e: Entry, n: nat)
    requires n <= 64 && t < 64 && |e.name| == 32
    ensures LiveCount(dir[t := e], n) ==
            LiveCount(dir, n) + if t >= n || Live(e) == Live(dir[t]) then 0 else if Live(e) then 1 else -1
  {
    if n > 0 {
      LiveUpdate(dir, t, e, n - 1);
    }
  }

  lemma InFilesIff(d: Image, name: seq<byte>)
    requires Inv(d)
    ensures name in Files(d) <==> Lookup(Dir(d), name) < 64
  {
    var t := Lookup(Dir(d), name);
    if t < 64 {
      FilesAt(Dir(d), d, name, t);
    }
  }

  /** A slot is found exactly when the name is already stored or fewer than 64 files are. */
  lemma SlotIff(d: Image, name: seq<byte>)
    requires Inv(d)
    ensures Slot(d, name) >= 0 <==> name in Files(d) || |Files(d)| < 64
    ensures Overwrites(d, name) <==> name in Files(d)
  {
    ScanFinds(Dir(d), name, |Dir(d)|);
    FileCount(d);
    FullIff(Dir(d), |Dir(d)|);
    InFilesIff(d, name);
  }

  // ---------------------------------------------------------------- runs

  /** A call and the number of sector writes after which power or the drive gives out. */
  datatype Op = Put(name: seq<byte>, data: seq<byte>, cut: nat) | Remove(name: seq<byte>, cut: nat)

  /** The arguments as their C types have them: a string without NUL, a 32-bit length. */
  predicate Typed(op: Op) {
    0 !in op.name && (op.Put? ==> |op.data| < WORD_LIMIT)
  }

  /** A write that finds a slot meets the condition under which the format can hold it. */
  ghost predicate OpOk(d: Image, op: Op)
    requires Inv(d)
  {
    Typed(op) && (op.Put? && op.name != [] && Slot(d, op.name) >= 0 ==> Storable(d, op.name, op.data))
  }

  /** How far a plan gets: until the cut, its end, or the first sector the drive does not have. */
  function Reach(d: Image, ws: seq<Write>, cut: nat): (k: nat)
    ensures k <= |ws| && k <= cut && InRange(d, ws[..k])
    ensures k == cut || k == |ws| || ws[k].lba >= |d|
  {
    if cut == 0 || ws == [] || ws[0].lba >= |d| then 0
    else
      var k := Reach(d, ws[1..], cut - 1);
      assert ws[..1 + k] == [ws[0]] + ws[1..][..k];
      1 + k
  }

  /** The call goes as far as writing. */
  ghost predicate Accepts(d: Image, op: Op)
    requires Inv(d)
  {
    op.name != [] && if op.Put? then Slot(d, op.name) >= 0 else Lookup(Dir(d), op.name) < 64
  }

  /** The plan of a call; empty when the name is, or when the call finds no slot or no file. */
  ghost function Plan(d: Image, op: Op): seq<Write>
    requires Inv(d) && Typed(op)
  {
    if !Accepts(d, op) then []
    else if op.Put? then WritePlan(d, op.name, op.data) else DeletePlan(d, op.name)
  }

  /** Writes carried out by a call. */
  ghost function Progress(d: Image, op: Op): nat
    requires Inv(d) && Typed(op)
  {
    Reach(d, Plan(d, op), op.cut)
  }

  ghost function Step(d: Image, op: Op): Image
    requires Inv(d) && Typed(op)
  {
    ApplyAll(d, Plan(d, op)[..Progress(d, op)])
  }

  ghost predicate Committed(d: Image, op: Op)
    requires Inv(d) && OpOk(d, op)
  {
    Accepts(d, op) &&
    Progress(d, op) > if op.Put? then WriteCommit(d, op.name, op.data) else Lookup(Dir(d), op.name) / 8
  }

  /** The one file a call is about. */
  function Target(op: Op): seq<byte> {
    if op.Put? then Key(op.name) else op.name
  }

  /** What a call means on the map. */
  function MapStep(m: map<seq<byte>, seq<byte>>, op: Op): map<seq<byte>, seq<byte>> {
    match op
    case Put(_, data, _) => m[Target(op) := data]
    case Remove(_, _) => m - {Target(op)}
  }

  /** One call, however it ends, either does its map operation or nothing. */
  lemma StepRefines(d: Image, op: Op)
    requires Inv(d) && OpOk(d, op)
    ensures Inv(Step(d, op))
    ensures Files(Step(d, op)) == if Committed(d, op) then MapStep(Files(d), op) else Files(d)
  {
    hide Dir, Slot, Lookup, WritePlan, DeletePlan, FilesOf, WriteCommit, DirOk, NewEntry;
    if Accepts(d, op) {
      if op.Put? {
        WriteCrashAtomic(d, op.name, op.data, Progress(d, op));
      } else {
        DeleteCrashAtomic(d, op.name, Progress(d, op));
      }
    }
  }

  /** Every call of the run meets its condition in the state it finds. */
  ghost predicate OpsOk(d: Image, ops: seq<Op>)
    requires Inv(d)
    decreases |ops|
  {
    ops == [] || (OpOk(d, ops[0]) && (StepRefines(d, ops[0]); OpsOk(Step(d, ops[0]), ops[1..])))
  }

  /** The image after a run, and the calls of that run that committed, in order. */
  ghost function Run(d: Image, ops: seq<Op>): (r: (Image, seq<Op>))
    requires Inv(d) && OpsOk(d, ops)
    ensures Inv(r.0)
    decreases |ops|
  {
    if ops == [] then (d, [])
    else
      StepRefines(d, ops[0]);
      var (x, done) := Run(Step(d, ops[0]), ops[1..]);
      (x, if Committed(d, ops[0]) then [ops[0]] + done else done)
  }

  function MapRun(m: map<seq<byte>, seq<byte>>, ops: seq<Op>): map<seq<byte>, seq<byte>>
    decreases |ops|
  {
    if ops == [] then m else MapRun(MapStep(m, ops[0]), ops[1..])
  }

  /** After any run the disk denotes the map obtained by applying exactly the committed calls. */
  lemma {:induction false} RunRefinesMap(d: Image, ops: seq<Op>)
    requires Inv(d) && OpsOk(d, ops)
    ensures Files(Run(d, ops).0) == MapRun(Files(d), Run(d, ops).1)
    decreases |ops|
  {
    hide Step, Committed, Storable, Slot, FilesOf, DirOk, Dir;
    if ops != [] {
      StepRefines(d, ops[0]);
      var x, rest := Step(d, ops[0]), ops[1..];
      RunRefinesMap(x, rest);
      var done := Run(x, rest).1;
      assert ([ops[0]] + done)[1..] == done;
    }
  }

  // ---------------------------------------------------------------- error-free runs

  /** The call is cut by nothing: its bound is past the longest plan. */
  ghost predicate Uncut(op: Op) {
    op.cut >= (if op.Put? then SectorsOf(|op.data|) + 9 else 9)
  }

  ghost predicate Fits(d: Image, op: Op)
    requires Inv(d) && op.Put?
  {
    op.name != [] && (op.name in Files(d) || |Files(d)| < 64) && NextFree(Dir(d)) + SectorsOf(|op.data|) <= |d|
  }

  lemma {:induction false} ReachAll(d: Image, ws: seq<Write>, cut: nat)
    requires InRange(d, ws) && cut >= |ws|
    ensures Reach(d, ws, cut) == |ws|
  {
    if ws != [] {
      assert forall k :: 0 <= k < |ws| - 1 ==> ws[1..][k] == ws[k + 1];
      ReachAll(d, ws[1..], cut - 1);
    }
  }

  lemma {:induction false} ReachStops(d: Image, ws: seq<Write>, cut: nat, i: nat)
    requires i < |ws| && ws[i].lba >= |d|
    ensures Reach(d, ws, cut) <= i
  {
    if cut > 0 && i > 0 {
      ReachStops(d, ws[1..], cut - 1, i - 1);
    }
  }

  /** Without a fault a write plan stops early only among its data sectors, when the disk is full. */
  lemma UncutWrite(d: Image, op: Op)
    requires Inv(d) && OpOk(d, op) && op.Put? && Uncut(op) && Accepts(d, op)
    ensures Progress(d, op) == |WritePlan(d, op.name, op.data)| <==> NextFree(Dir(d)) + SectorsOf(|op.data|) <= |d|
    ensures Progress(d, op) > WriteCommit(d, op.name, op.data) <==> NextFree(Dir(d)) + SectorsOf(|op.data|) <= |d|
  {
    hide DirOk, Dir, NextFree, Slot, EncodeEntry, NewEntry, WriteCount, Reach, SetCount, DirSectors, DataSectors;
    var next, plan := NextFree(Dir(d)), WritePlan(d, op.name, op.data);
    NoSizeWrap(|op.data|);
    NextLbaBound(Dir(d), |d|);
    if next + SectorsOf(|op.data|) <= |d| {
      ReachAll(d, plan, op.cut);
    } else {
      assert plan[|d| - next].lba == |d|;
      ReachStops(d, plan, op.cut, |d| - next);
    }
  }

  lemma UncutDelete(d: Image, op: Op)
    requires Inv(d) && OpOk(d, op) && op.Remove? && Uncut(op) && Accepts(d, op)
    ensures Progress(d, op) == |DeletePlan(d, op.name)| > Lookup(Dir(d), op.name) / 8
  {
    ReachAll(d, DeletePlan(d, op.name), op.cut);
  }

  lemma UncutPutCommits(d: Image, op: Op)
    requires Inv(d) && OpOk(d, op) && Uncut(op) && op.Put?
    ensures Committed(d, op) <==> Fits(d, op)
  {
    SlotIff(d, op.name);
    if Accepts(d, op) {
      UncutWrite(d, op);
    }
  }

  lemma UncutRemoveCommits(d: Image, op: Op)
    requires Inv(d) && OpOk(d, op) && Uncut(op) && op.Remove?
    ensures Committed(d, op) <==> op.name in Files(d)
  {
    InFilesIff(d, op.name);
    NoEmptyName(d);
    if Accepts(d, op) {
      UncutDelete(d, op);
    }
  }

  lemma NoEmptyName(d: Image)
    requires Inv(d)
    ensures Lookup(Dir(d), []) == 64
  {
  }

  /** An error-free write updates the map exactly when there is room for the name and the data. */
  lemma ErrorFreePut(d: Image, op: Op)
    requires Inv(d) && OpOk(d, op) && Uncut(op) && op.Put?
    ensures Inv(Step(d, op))
    ensures Files(Step(d, op)) == if Fits(d, op) then Files(d)[Key(op.name) := op.data] else Files(d)
  {
    StepRefines(d, op);
    UncutPutCommits(d, op);
  }

  /** An error-free delete removes the name. */
  lemma ErrorFreeRemove(d: Image, op: Op)
    requires Inv(d) && OpOk(d, op) && Uncut(op) && op.Remove?
    ensures Inv(Step(d, op)) && Files(Step(d, op)) == Files(d) - {op.name}
  {
    StepRefines(d, op);
    UncutRemoveCommits(d, op);
  }

  /** An error-free write that finds a slot has either done everything or changed nothing that can be seen. */
  lemma UncutPutMeaning(d: Image, op: Op)
    requires Inv(d) && OpOk(d, op) && Uncut(op) && op.Put? && Accepts(d, op)
    ensures var done := NextFree(Dir(d)) + SectorsOf(|op.data|) <= |d|;
            Inv(Step(d, op)) && MeaningOf(Step(d, op)) == AfterWrite(d, op.name, op.data, done, done)
  {
    hide DirOk, Dir, NextFree, Slot, WritePlan, FilesOf, WriteCommit, SectorsNeeded;
    UncutWrite(d, op);
    PutIsPlan(d, op);
    WriteCrashAtomic(d, op.name, op.data, Progress(d, op));
  }

  lemma PutIsPlan(d: Image, op: Op)
    requires Inv(d) && OpOk(d, op) && op.Put? && Accepts(d, op)
    ensures Plan(d, op) == WritePlan(d, op.name, op.data)
    ensures Step(d, op) == ApplyAll(d, WritePlan(d, op.name, op.data)[..Progress(d, op)])
  {
  }

  /** The recorded count after a finished or refused write. */
  lemma PutCount(d: Image, op: Op)
    requires Inv(d) && OpOk(d, op) && Uncut(op) && op.Put? && NumFiles(d) == LiveCount(Dir(d), |Dir(d)|)
    ensures Inv(Step(d, op)) && NumFiles(Step(d, op)) == LiveCount(Dir(Step(d, op)), |Dir(d)|)
  {
    if Accepts(d, op) {
      UncutPutMeaning(d, op);
      NewCount(d, op.name, op.data);
    }
  }

  lemma NewCount(d: Image, name: seq<byte>, data: seq<byte>)
    requires Inv(d) && NameOk(name) && |data| < WORD_LIMIT
    requires Slot(d, name) >= 0 && NumFiles(d) == LiveCount(Dir(d), |Dir(d)|)
    ensures WriteCount(d, name) == LiveCount(Dir(d)[Slot(d, name) := NewEntry(d, name, data)], |Dir(d)|)
  {
    var t := Slot(d, name);
    NewEntryLives(d, name, data);
    hide Dir, DirOk, NewEntry, LiveCount, Formatted;
    ScanFinds(Dir(d), name, |Dir(d)|);
    LiveUpdate(Dir(d), t, NewEntry(d, name, data), |Dir(d)|);
    WordIncrement(NumFiles(d));
  }

  lemma NewEntryLives(d: Image, name: seq<byte>, data: seq<byte>)
    requires Inv(d) && NameOk(name) && |data| < WORD_LIMIT
    ensures Live(NewEntry(d, name, data))
  {
    hide Dir, DirOk;
  }

  lemma WordIncrement(n: word)
    ensures n <= 64 ==> (n + 1) % WORD_LIMIT == n + 1
  {
  }

  lemma RemoveCount(d: Image, op: Op)
    requires Inv(d) && OpOk(d, op) && Uncut(op) && op.Remove? && NumFiles(d) == LiveCount(Dir(d), |Dir(d)|)
    ensures Inv(Step(d, op)) && NumFiles(Step(d, op)) == LiveCount(Dir(Step(d, op)), |Dir(d)|)
  {
    var t := Lookup(Dir(d), op.name);
    if Accepts(d, op) {
      UncutDelete(d, op);
      DeleteCrashAtomic(d, op.name, Progress(d, op));
      LiveUpdate(Dir(d), t, KilledDir(Dir(d), t)[t], |Dir(d)|);
    }
  }

  /** An error-free call keeps the recorded count equal to the number of files. */
  lemma ErrorFreeCount(d: Image, op: Op)
    requires Inv(d) && OpOk(d, op) && Uncut(op) && NumFiles(d) == |Files(d)|
    ensures Inv(Step(d, op)) && NumFiles(Step(d, op)) == |Files(Step(d, op))|
  {
    FileCount(d);
    if op.Put? {
      PutCount(d, op);
    } else {
      RemoveCount(d, op);
    }
    FileCount(Step(d, op));
  }

  lemma {:induction false} CountOverRun(d: Image, ops: seq<Op>)
    requires Inv(d) && OpsOk(d, ops) && (forall k :: 0 <= k < |ops| ==> Uncut(ops[k])) && NumFiles(d) == |Files(d)|
    ensures NumFiles(Run(d, ops).0) == |Files(Run(d, ops).0)|
    decreases |ops|
  {
    hide Step, Committed, Storable, Slot, FilesOf, DirOk, Dir, Uncut;
    if ops != [] {
      ErrorFreeCount(d, ops[0]);
      CountOverRun(Step(d, ops[0]), ops[1..]);
    }
  }

  /** The calls of a run that have room for what they store, or a file to remove. */
  ghost function Fitting(d: Image, ops: seq<Op>): seq<Op>
    requires Inv(d) && OpsOk(d, ops)
    decreases |ops|
  {
    if ops == [] then []
    else
      StepRefines(d, ops[0]);
      (if (if ops[0].Put? then Fits(d, ops[0]) else ops[0].name in Files(d)) then [ops[0]] else [])
      + Fitting(Step(d, ops[0]), ops[1..])
  }

  /** In an error-free run exactly the calls that fit commit. */
  lemma {:induction false} FittingCommit(d: Image, ops: seq<Op>)
    requires Inv(d) && OpsOk(d, ops) && forall k :: 0 <= k < |ops| ==> Uncut(ops[k])
    ensures Run(d, ops).1 == Fitting(d, ops)
    decreases |ops|
  {
    hide Step, Storable, Slot, FilesOf, DirOk, Dir, Uncut, Fits, Committed;
    if ops != [] {
      StepRefines(d, ops[0]);
      FittingCommit(Step(d, ops[0]), ops[1..]);
      if ops[0].Put? {
        UncutPutCommits(d, ops[0]);
      } else {
        UncutRemoveCommits(d, ops[0]);
      }
      assert [] + Fitting(Step(d, ops[0]), ops[1..]) == Fitting(Step(d, ops[0]), ops[1..]);
    }
  }

  /**
    From a fresh format, every error-free run leaves the map obtained from the calls that fit, in order, and a recorded
    count equal to the number of files.
   */
  lemma ErrorFreeRun(d: Image, ops: seq<Op>)
    requires SizeOk(d) && Inv(ApplyAll(d, FormatPlan())) && OpsOk(ApplyAll(d, FormatPlan()), ops)
    requires forall k :: 0 <= k < |ops| ==> Uncut(ops[k])
    ensures var x := ApplyAll(d, FormatPlan());
            && Files(Run(x, ops).0) == MapRun(map[], Fitting(x, ops))
            && NumFiles(Run(x, ops).0) == |Files(Run(x, ops).0)|
  {
    hide Run, OpsOk, Uncut, MapRun, Fitting, Inv;
    var x := ApplyAll(d, FormatPlan());
    FormatEmpties(d);
    CountOverRun(x, ops);
    RunRefinesMap(x, ops);
    FittingCommit(x, ops);
  }

  // ---------------------------------------------------------------- limits of the format

  /** The bytes of the directory area after a finished write, whatever the name. */
  lemma WrittenDir(d: Image, name: seq<byte>, data: seq<byte>)
    requires Inv(d) && |data| < WORD_LIMIT && Slot(d, name) >= 0 && InRange(d, WritePlan(d, name, data))
    ensures Dir(ApplyAll(d, WritePlan(d, name, data))) == Dir(d)[Slot(d, name) := NewEntry(d, name, data)]
  {
    var t, raw, count := Slot(d, name), EncodeEntry(NewEntry(d, name, data)), WriteCount(d, name);
    var next, secs, plan := NextFree(Dir(d)), DataSectors(data), WritePlan(d, name, data);
    var rest := Publish(d, t, raw, count);
    NextLbaBound(Dir(d), |d|);
    assert plan[..|plan|] == plan && rest[..9] == rest;
    DataInRange(d, next, secs, rest, |plan|);
    PrefixSecond(d, next, secs, rest, |plan|);
    var y := Overwrite(d, next, secs);
    DirFrame(y, d);
    PublishedDir(y, t, raw, count);
    EntryRoundTrip(NewEntry(d, name, data));
  }

  lemma DirRewritten(y: Image, t: nat, raw: seq<byte>, count: word)
    requires |y| >= DATA_LBA && t < 64 && |raw| == 64
    ensures Dir(ApplyAll(y, Publish(y, t, raw, count)[..8])) == Dir(y)[t := DecodeEntry(raw)]
  {
    PublishPrefixImage(y, t, raw, count, 8);
    DirPrefix(y, t, raw, 8);
  }

  lemma PublishedDir(y: Image, t: nat, raw: seq<byte>, count: word)
    requires |y| >= DATA_LBA && t < 64 && |raw| == 64
    ensures Dir(ApplyAll(y, Publish(y, t, raw, count)[..9])) == Dir(y)[t := DecodeEntry(raw)]
  {
    DirRewritten(y, t, raw, count);
    PublishLast(y, t, raw, count);
    var z := ApplyAll(y, Publish(y, t, raw, count)[..8]);
    DirFrame(z[SUPER_LBA := SetCount(y[SUPER_LBA], count)], z);
  }

  /** Slots only ever hold names of at most 31 bytes. */
  lemma NoLongName(dir: Directory, sectors: int, t: nat, e: Entry, name: seq<byte>)
    requires DirOk(dir, sectors) && t < 64 && |e.name| == 32 && e.name[31] == 0 && |name| > NAME_MAX
    ensures Lookup(dir[t := e], name) == 64
  {
    var i := Lookup(dir[t := e], name);
    if i < 64 {
      NameLength(dir[t := e][i]);
    }
  }

  /** A finished write can be opened under its own name exactly when the name has at most 31 bytes. */
  lemma LongNameIsLost(d: Image, name: seq<byte>, data: seq<byte>)
    requires Inv(d) && NameOk(name) && |data| < WORD_LIMIT && Slot(d, name) >= 0
    requires InRange(d, WritePlan(d, name, data))
    ensures var x := ApplyAll(d, WritePlan(d, name, data));
            && (Lookup(Dir(x), name) < 64 <==> |name| <= 31)
            && Lookup(Dir(x), Key(name)) < 64
  {
    WrittenDir(d, name, data);
    var t, e := Slot(d, name), NewEntry(d, name, data);
    StoredNameReads(name);
    assert Matches(Dir(d)[t := e][t], Key(name));
    if |name| > NAME_MAX {
      NoLongName(Dir(d), |d|, t, e, name);
    }
  }

  /** A stored name that another live entry already has, or a size past the limit, breaks the directory. */
  lemma UnstorableBreaks(dir: Directory, sectors: int, t: nat, e: Entry, i: nat)
    requires t < 64 && |e.name| == 32 && Live(e)
    requires e.size > MAX_SIZE || (i < 64 && i != t && Matches(dir[i], FileName(e)))
    ensures !DirOk(dir[t := e], sectors)
  {
    var dir' := dir[t := e];
    assert e.size > MAX_SIZE ==> !GoodEntry(dir'[t], sectors);
    if e.size <= MAX_SIZE && DirOk(dir', sectors) {
      MatchUnique(dir', sectors, FileName(e), i, t);
    }
  }

  /**
    A finished write keeps the file system well formed if and only if its size can be rounded up and its name, as
    stored, is its own; it is then an update of the map under the stored name.
   */
  lemma WriteKeepsIff(d: Image, name: seq<byte>, data: seq<byte>)
    requires Inv(d) && NameOk(name) && |data| < WORD_LIMIT && Slot(d, name) >= 0
    requires InRange(d, WritePlan(d, name, data))
    ensures var x := ApplyAll(d, WritePlan(d, name, data));
            && (Inv(x) <==> Storable(d, name, data))
            && (Storable(d, name, data) ==> Inv(x) && Files(x) == Files(d)[Key(name) := data])
  {
    hide WritePlan, FilesOf, WriteCommit, DirOk, NewEntry;
    var plan := WritePlan(d, name, data);
    if Storable(d, name, data) {
      assert plan[..|plan|] == plan;
      WriteCrashAtomic(d, name, data, |plan|);
      PlanPastCommit(d, name, data);
    } else {
      UnstorableWrite(d, name, data);
    }
  }

  lemma PlanPastCommit(d: Image, name: seq<byte>, data: seq<byte>)
    requires Writable(d, name, data)
    ensures |WritePlan(d, name, data)| > WriteCommit(d, name, data)
  {
    NoSizeWrap(|data|);
  }

  lemma UnstorableWrite(d: Image, name: seq<byte>, data: seq<byte>)
    requires Inv(d) && NameOk(name) && |data| < WORD_LIMIT && Slot(d, name) >= 0 && !Storable(d, name, data)
    requires InRange(d, WritePlan(d, name, data))
    ensures !Inv(ApplyAll(d, WritePlan(d, name, data)))
  {
    hide WritePlan, DirOk;
    var t, e := Slot(d, name), NewEntry(d, name, data);
    WrittenDir(d, name, data);
    StoredNameReads(name);
    if |data| > MAX_SIZE {
      UnstorableBreaks(Dir(d), |d|, t, e, 0);
    } else {
      var i := Lookup(Dir(d), Key(name));
      InFilesIff(d, Key(name));
      LongNeverOverwrites(d, name);
      UnstorableBreaks(Dir(d), |d|, t, e, i);
    }
  }

  lemma LongNeverOverwrites(d: Image, name: seq<byte>)
    requires Inv(d) && |name| > NAME_MAX && Slot(d, name) >= 0
    ensures !Live(Dir(d)[Slot(d, name)])
  {
    ScanFinds(Dir(d), name, |Dir(d)|);
    if Overwrites(d, name) {
      NameLength(Dir(d)[Slot(d, name)]);
    }
  }

  /**
    A size within 511 of 2^32 rounds to no sector at all: the whole plan can always be carried out, so the call
    succeeds; it publishes an entry of that size and writes not one byte of the data area.
   */
  lemma OversizeWritesNothing(d: Image, name: seq<byte>, data: seq<byte>)
    requires Inv(d) && NameOk(name) && MAX_SIZE < |data| < WORD_LIMIT && Slot(d, name) >= 0
    ensures InRange(d, WritePlan(d, name, data))
    ensures var x := ApplyAll(d, WritePlan(d, name, data));
            && !Inv(x) && (forall l :: DATA_LBA <= l < |d| ==> x[l] == d[l])
            && Matches(Dir(x)[Slot(d, name)], Key(name)) && Dir(x)[Slot(d, name)].size == |data|
  {
    hide DirOk, Dir, Slot, WritePlan, ApplyAll, InRange, Files, Formatted;
    OversizePlan(d, name, data);
    WrittenDir(d, name, data);
    UnstorableWrite(d, name, data);
    StoredNameReads(name);
  }

  lemma NoSectors(len: word)
    requires len > MAX_SIZE
    ensures SectorsNeeded(len) == 0
  {
    assert (len + 511) % WORD_LIMIT == len + 511 - WORD_LIMIT;
  }

  lemma OversizePlan(d: Image, name: seq<byte>, data: seq<byte>)
    requires Inv(d) && MAX_SIZE < |data| < WORD_LIMIT && Slot(d, name) >= 0
    ensures InRange(d, WritePlan(d, name, data))
    ensures var x := ApplyAll(d, WritePlan(d, name, data));
            forall l :: DATA_LBA <= l < |d| ==> x[l] == d[l]
  {
    hide DirOk, Dir, NextFree, Slot, EncodeEntry, NewEntry, WriteCount, ApplyAll, InRange, Publish, SectorsNeeded;
    NoSectors(|data|);
    var t, raw, count := Slot(d, name), EncodeEntry(NewEntry(d, name, data)), WriteCount(d, name);
    var rest := Publish(d, t, raw, count);
    assert WritePlan(d, name, data) == rest && rest[..9] == rest;
    PublishSpares(d, t, raw, count);
  }

  lemma PublishSpares(d: Image, t: nat, raw: seq<byte>, count: word)
    requires |d| >= DATA_LBA && t < 64 && |raw| == 64
    ensures InRange(d, Publish(d, t, raw, count))
    ensures forall l :: DATA_LBA <= l < |d| ==> ApplyAll(d, Publish(d, t, raw, count)[..9])[l] == d[l]
  {
    hide Dir, Patch, SetCount, ApplyAll, DirBytes, DirSectors;
    PublishPrefixImage(d, t, raw, count, 8);
    PublishLast(d, t, raw, count);
    DirPrefix(d, t, raw, 8);
  }
}
