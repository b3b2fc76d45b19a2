/**
  The physical frame allocator (kernel/pmm.c) seen as a set of free frames: bit operations on the
  bitmap, the boot memory map, and first-fit allocation.
 */
module Frames {
  import opened Bytes

  const PAGE: int := 4096
  const MAX_PHYS: int := 0x200_0000          // 32 MB
  const TOTAL: nat := 8192                   // frames tracked
  const LOW: nat := 256                      // frames below 1 MB
  const MAPPED: nat := 2048                  // frames below 8 MB, the kernel's identity map
  const WIDE_LIMIT: int := 0x1_0000_0000_0000_0000

  // ---------------------------------------------------------------- bits

  function Bit(b: bv8, k: nat): bool
    requires k < 8
  {
    (b >> k) & 1 == 1
  }

  function SetBit(b: bv8, k: nat): bv8
    requires k < 8
  {
    b | (1 << k)
  }

  function ClearBit(b: bv8, k: nat): bv8
    requires k < 8
  {
    b & !(1 << k)
  }

  function Mask(k: nat): bv8
    requires k < 8
  {
    match k
    case 0 => 1
    case 1 => 2
    case 2 => 4
    case 3 => 8
    case 4 => 16
    case 5 => 32
    case 6 => 64
    case _ => 128
  }

  lemma Eight(k: nat)
    requires k < 8
    ensures k == 0 || k == 1 || k == 2 || k == 3 || k == 4 || k == 5 || k == 6 || k == 7
  {
  }

  lemma ShiftIsMask(b: bv8, k: nat)
    requires k < 8
    ensures (1 as bv8) << k == Mask(k)
    ensures Bit(b, k) <==> b & Mask(k) != 0
  {
    Eight(k);
  }

  lemma MaskSet(b: bv8, k: nat, j: nat)
    requires k < 8 && j < 8
    ensures ((b | Mask(k)) & Mask(j) != 0) == (j == k || b & Mask(j) != 0)
    ensures ((b & !Mask(k)) & Mask(j) != 0) == (j != k && b & Mask(j) != 0)
  {
  }

  /** Setting a bit sets that bit and no other. */
  lemma SetBitEffect(b: bv8, k: nat, j: nat)
    requires k < 8 && j < 8
    ensures Bit(SetBit(b, k), j) <==> j == k || Bit(b, j)
  {
    hide Bit, Mask;
    ShiftIsMask(b, k);
    ShiftIsMask(b, j);
    ShiftIsMask(SetBit(b, k), j);
    MaskSet(b, k, j);
  }

  /** Clearing a bit clears that bit and no other. */
  lemma ClearBitEffect(b: bv8, k: nat, j: nat)
    requires k < 8 && j < 8
    ensures Bit(ClearBit(b, k), j) <==> j != k && Bit(b, j)
  {
    hide Bit, Mask;
    ShiftIsMask(b, k);
    ShiftIsMask(b, j);
    ShiftIsMask(ClearBit(b, k), j);
    MaskSet(b, k, j);
  }

  // ---------------------------------------------------------------- sets of frames

  ghost function Range(lo: nat, hi: nat): (s: set<nat>)
    ensures forall f :: f in s <==> lo <= f < hi
    ensures |s| == if lo <= hi then hi - lo else 0
    decreases hi
  {
    if hi <= lo then {} else Range(lo, hi - 1) + {hi - 1}
  }

  ghost function LeastBelow(s: set<nat>, x: nat): (f: nat)
    requires x in s
    ensures f in s && forall g :: g in s ==> f <= g
    decreases x
  {
    if y: nat :| y in s && y < x then LeastBelow(s, y) else x
  }

  /** The least frame of a set. */
  ghost function Least(s: set<nat>): (f: nat)
    requires s != {}
    ensures f in s && forall g :: g in s ==> f <= g
  {
    var x :| x in s;
    LeastBelow(s, x)
  }

  // ---------------------------------------------------------------- allocation

  ghost function LowPart(s: set<nat>): set<nat> {
    set f | f in s && f < MAPPED
  }

  /** The frames handed out by k successive allocations with no frees between. */
  ghost function Grants(free: set<nat>, k: nat): (fs: set<nat>)
    requires k <= |free|
    ensures fs <= free && |fs| == k
  {
    if k == 0 then {}
    else
      var rest := Grants(free, k - 1);
      assert |free - rest| == |free| - |rest|;
      var f := Least(free - rest);
      assert f in free && f !in rest;
      rest + {f}
  }

  lemma {:induction false} GrantsAreLeast(free: set<nat>, k: nat, f: nat, g: nat)
    requires k <= |free| && f in Grants(free, k) && g in free && g !in Grants(free, k)
    ensures f <= g
  {
    if k > 0 {
      var rest := Grants(free, k - 1);
      if f in rest {
        GrantsAreLeast(free, k - 1, f, g);
      } else {
        assert g in free - rest;
      }
    }
  }

  ghost predicate AllMapped(fs: set<nat>) {
    forall f :: f in fs ==> f < MAPPED
  }

  /** k allocations stay inside the identity map exactly when k frames below 8 MB were free. */
  lemma GrantsStayLow(free: set<nat>, k: nat)
    requires k <= |free|
    ensures AllMapped(Grants(free, k)) <==> |LowPart(free)| >= k
  {
    var fs, low := Grants(free, k), LowPart(free);
    if AllMapped(fs) {
      Subset(fs, low);
    } else {
      var f :| f in fs && f >= MAPPED;
      forall g | g in low
        ensures g in fs - {f}
      {
        if g !in fs {
          GrantsAreLeast(free, k, f, g);
        }
      }
      Subset(low, fs - {f});
      assert |fs - {f}| == k - 1;
    }
  }

  lemma Subset(a: set<nat>, b: set<nat>)
    requires a <= b
    ensures |a| <= |b|
  {
    assert |b| == |a| + |b - a|;
  }

  // ---------------------------------------------------------------- the boot memory map

  datatype E820 = E820(base: nat, length: nat, kind: word)

  predicate WellTyped(e: E820) {
    e.base < WIDE_LIMIT && e.length < WIDE_LIMIT
  }

  predicate Usable(e: E820) {
    e.kind == 1 && e.base < MAX_PHYS
  }

  /** First whole frame of an entry. */
  function FirstFrame(e: E820): nat {
    (e.base + PAGE - 1) / PAGE
  }

  /** One past the last whole frame, clipped to 32 MB; the sum is 64-bit. */
  function LastFrame(e: E820): (f: nat)
    ensures f <= TOTAL
  {
    var end := (e.base + e.length) % WIDE_LIMIT;
    (if end > MAX_PHYS then MAX_PHYS else end) / PAGE
  }

  ghost function FramesOf(e: E820): set<nat> {
    if Usable(e) then Range(FirstFrame(e), LastFrame(e)) else {}
  }

  /** Frames freed by the first n entries, and how often the counter was raised for them. */
  ghost function Freed(es: seq<E820>, n: nat): set<nat>
    requires n <= |es|
  {
    if n == 0 then {} else Freed(es, n - 1) + FramesOf(es[n - 1])
  }

  ghost function Raised(es: seq<E820>, n: nat): nat
    requires n <= |es|
  {
    if n == 0 then 0 else Raised(es, n - 1) + |FramesOf(es[n - 1])|
  }

  /** What one entry adds to the reported total. */
  function Delta(e: E820): int {
    if Usable(e) then LastFrame(e) - FirstFrame(e) else 0
  }

  /** The frame total the source reports, before it is cut to 32 bits; an entry inside one page counts -1. */
  ghost function Reported(es: seq<E820>, n: nat): int
    requires n <= |es|
  {
    if n == 0 then 0
    else Reported(es, n - 1) + Delta(es[n - 1])
  }

  /** The frames pmm_reserve_range goes over: every frame the range touches, with 64-bit sums. */
  function ReserveEnd(base: nat, len: nat): (f: nat)
    ensures f <= TOTAL
  {
    var l := if (base + len) % WIDE_LIMIT > MAX_PHYS && base <= MAX_PHYS then MAX_PHYS - base else len;
    var end := ((base + l + PAGE - 1) % WIDE_LIMIT) / PAGE;
    if end > TOTAL then TOTAL else end
  }

  ghost function Reserved(base: nat, len: nat): set<nat> {
    if base >= MAX_PHYS then {} else Range(base / PAGE, ReserveEnd(base, len))
  }

  lemma DivisionBounds(x: nat, f: nat)
    ensures x / PAGE <= f <==> x < PAGE * (f + 1)
    ensures f < (x + PAGE - 1) / PAGE <==> PAGE * f < x
  {
  }

  lemma ReserveEndIs(base: nat, len: nat)
    requires base < MAX_PHYS && len < WIDE_LIMIT
    ensures var sum := (base + len) % WIDE_LIMIT;
            var x := ((if sum > MAX_PHYS then MAX_PHYS else sum) + PAGE - 1) / PAGE;
            ReserveEnd(base, len) == if x > TOTAL then TOTAL else x
  {
    if base + len >= WIDE_LIMIT {
      assert (base + len) % WIDE_LIMIT == base + len - WIDE_LIMIT;
      assert (base + len + PAGE - 1) % WIDE_LIMIT == base + len - WIDE_LIMIT + PAGE - 1;
    }
  }

  /** These are exactly the tracked frames that share a byte with the range up to its 64-bit end. */
  lemma ReservedExact(base: nat, len: nat, f: nat)
    requires base < WIDE_LIMIT && len < WIDE_LIMIT
    ensures f in Reserved(base, len) <==>
            f < TOTAL && PAGE * f < (base + len) % WIDE_LIMIT && base < PAGE * (f + 1)
  {
    hide ReserveEnd, Range;
    var sum := (base + len) % WIDE_LIMIT;
    DivisionBounds(base, f);
    if base < MAX_PHYS {
      ReserveEndIs(base, len);
      DivisionBounds(if sum > MAX_PHYS then MAX_PHYS else sum, f);
    }
  }

  ghost function From1MB(s: set<nat>): set<nat> {
    set f | f in s && f >= LOW
  }

  ghost function Below1MB(s: set<nat>): set<nat> {
    set f | f in s && f < LOW
  }

  lemma SplitAt1MB(s: set<nat>)
    ensures |s| == |From1MB(s)| + |Below1MB(s)|
  {
    assert s == From1MB(s) + Below1MB(s);
    assert From1MB(s) !! Below1MB(s);
  }

  /** A frame lies wholly inside a usable entry, whose end is a 64-bit address. */
  predicate Inside(e: E820, f: nat) {
    e.kind == 1 && e.base + e.length < WIDE_LIMIT && e.base <= PAGE * f && PAGE * (f + 1) <= e.base + e.length
  }

  /** An entry frees exactly the tracked frames that lie wholly inside it. */
  lemma FramesOfExact(e: E820, f: nat)
    requires WellTyped(e)
    ensures f in FramesOf(e) <==> f < TOTAL && Inside(e, f)
  {
    if e.base + e.length < WIDE_LIMIT {
      NoWideWrap(e);
    } else {
      WideWrap(e);
    }
    assert FirstFrame(e) <= f <==> e.base <= PAGE * f;
  }

  /** An entry whose end wraps frees nothing. */
  lemma WideWrap(e: E820)
    requires WellTyped(e) && e.base + e.length >= WIDE_LIMIT
    ensures LastFrame(e) <= FirstFrame(e)
  {
    assert (e.base + e.length) % WIDE_LIMIT == e.base + e.length - WIDE_LIMIT;
  }

  lemma NoWideWrap(e: E820)
    requires WellTyped(e) && e.base + e.length < WIDE_LIMIT
    ensures LastFrame(e) == (if e.base + e.length > MAX_PHYS then MAX_PHYS else e.base + e.length) / PAGE
  {
  }

  /** The boot map frees exactly the frames lying wholly inside one usable entry. */
  lemma {:induction false} FreedExact(es: seq<E820>, n: nat, f: nat)
    requires n <= |es| && forall i :: 0 <= i < |es| ==> WellTyped(es[i])
    ensures f in Freed(es, n) <==> f < TOTAL && exists i :: 0 <= i < n && Inside(es[i], f)
  {
    hide FramesOf, Inside;
    if n > 0 {
      FreedExact(es, n - 1, f);
      FramesOfExact(es[n - 1], f);
      if Inside(es[n - 1], f) {
        assert exists i :: 0 <= i < n && Inside(es[i], f);
      }
    }
  }

  /** No frame lies in two usable entries. */
  ghost predicate DisjointEntries(es: seq<E820>, n: nat)
    requires n <= |es|
  {
    forall i, j, f :: 0 <= i < j < n && f in FramesOf(es[i]) ==> f !in FramesOf(es[j])
  }

  lemma {:induction false} FreedIn(es: seq<E820>, n: nat, f: nat)
    requires n <= |es|
    ensures f in Freed(es, n) <==> exists i :: 0 <= i < n && f in FramesOf(es[i])
  {
    hide FramesOf;
    if n > 0 {
      FreedIn(es, n - 1, f);
      if f in FramesOf(es[n - 1]) {
        assert exists i :: 0 <= i < n && f in FramesOf(es[i]);
      }
    }
  }

  lemma DisjointStep(es: seq<E820>, n: nat)
    requires 0 < n <= |es|
    ensures DisjointEntries(es, n) <==> DisjointEntries(es, n - 1) && Freed(es, n - 1) !! FramesOf(es[n - 1])
  {
    hide Freed, FramesOf;
    var a, b := Freed(es, n - 1), FramesOf(es[n - 1]);
    if DisjointEntries(es, n) {
      forall f | f in a
        ensures f !in b
      {
        FreedIn(es, n - 1, f);
      }
    } else if a !! b {
      forall i, f | 0 <= i < n - 1 && f in FramesOf(es[i])
        ensures f !in b
      {
        FreedIn(es, n - 1, f);
      }
    }
  }

  /** The counter agrees with the bitmap exactly when no frame lies in two usable entries. */
  lemma {:induction false} CounterExactIff(es: seq<E820>, n: nat)
    requires n <= |es|
    ensures |Freed(es, n)| <= Raised(es, n)
    ensures |Freed(es, n)| == Raised(es, n) <==> DisjointEntries(es, n)
  {
    hide FramesOf;
    if n > 0 {
      CounterExactIff(es, n - 1);
      UnionSize(Freed(es, n - 1), FramesOf(es[n - 1]));
      DisjointStep(es, n);
    }
  }

  lemma UnionSize(a: set<nat>, b: set<nat>)
    ensures |a + b| <= |a| + |b|
    ensures |a + b| == |a| + |b| <==> a !! b
  {
    var c := a * b;
    assert a + b == a + (b - c) && a !! (b - c);
    assert |b| == |c| + |b - c| by {
      assert b == c + (b - c);
    }
  }

  /** After pmm_init the counter equals the number of free frames exactly when the usable entries are disjoint. */
  lemma InitCounterIff(es: seq<E820>)
    ensures Raised(es, |es|) - |Below1MB(Freed(es, |es|))| == |From1MB(Freed(es, |es|))| <==> DisjointEntries(es, |es|)
  {
    CounterExactIff(es, |es|);
    SplitAt1MB(Freed(es, |es|));
  }

  // ---------------------------------------------------------------- the reported total

  function FrameStart(f: nat): nat {
    PAGE * f
  }

  /** Some page starts inside the entry or right at its end, which is a 64-bit address. */
  ghost predicate HoldsBoundary(e: E820) {
    exists f :: e.base <= FrameStart(f) <= (e.base + e.length) % WIDE_LIMIT
  }

  lemma StartsBefore(x: nat, f: nat)
    ensures f <= x / PAGE <==> FrameStart(f) <= x
    ensures (x + PAGE - 1) / PAGE <= f <==> x <= FrameStart(f)
  {
  }

  lemma OrderedIff(e: E820)
    requires WellTyped(e) && Usable(e)
    ensures FirstFrame(e) <= LastFrame(e) <==> HoldsBoundary(e)
  {
    hide FrameStart;
    var end := (e.base + e.length) % WIDE_LIMIT;
    var x, f := if end > MAX_PHYS then MAX_PHYS else end, FirstFrame(e);
    StartsBefore(x, f);
    StartsBefore(e.base, f);
    StartsBefore(e.base, TOTAL);
    FirstTracked(e);
    if HoldsBoundary(e) {
      var g :| e.base <= FrameStart(g) <= end;
      StartsBefore(e.base, g);
      StartsMonotone(f, g);
    }
  }

  lemma FirstTracked(e: E820)
    requires Usable(e)
    ensures FirstFrame(e) <= TOTAL && FrameStart(FirstFrame(e)) <= MAX_PHYS
  {
  }

  lemma StartsMonotone(f: nat, g: nat)
    requires f <= g
    ensures FrameStart(f) <= FrameStart(g)
  {
  }

  /** An entry adds the number of its frames to the total exactly if it is unusable or holds the start of a page. */
  lemma DeltaIff(e: E820)
    requires WellTyped(e)
    ensures Delta(e) <= |FramesOf(e)|
    ensures Delta(e) == |FramesOf(e)| <==> !Usable(e) || HoldsBoundary(e)
  {
    hide Range, FirstFrame, LastFrame, HoldsBoundary;
    if Usable(e) {
      OrderedIff(e);
    }
  }

  /** The total is what the counter was raised by exactly if every usable entry holds the start of a page. */
  lemma {:induction false} TotalIff(es: seq<E820>, n: nat)
    requires n <= |es| && forall i :: 0 <= i < |es| ==> WellTyped(es[i])
    ensures Reported(es, n) <= Raised(es, n)
    ensures Reported(es, n) == Raised(es, n) <==> forall i :: 0 <= i < n && Usable(es[i]) ==> HoldsBoundary(es[i])
  {
    hide FramesOf, HoldsBoundary, Delta, WellTyped, Usable;
    if n > 0 {
      TotalIff(es, n - 1);
      DeltaIff(es[n - 1]);
    }
  }

  /** Whole pages, as firmware reports memory. */
  predicate PageAligned(e: E820) {
    e.base % PAGE == 0 && e.length % PAGE == 0 && e.base + e.length < WIDE_LIMIT
  }

  /** For disjoint entries of whole pages the total, cut to 32 bits, is the number of frames freed. */
  lemma TotalIsFrames(es: seq<E820>)
    requires forall i :: 0 <= i < |es| ==> PageAligned(es[i])
    requires DisjointEntries(es, |es|)
    ensures Reported(es, |es|) % WORD_LIMIT == |Freed(es, |es|)| <= 8192
  {
    hide FramesOf, DisjointEntries, Freed, Raised, Reported, Range, WellTyped, HoldsBoundary, PageAligned, Inside;
    forall i | 0 <= i < |es|
      ensures WellTyped(es[i]) && HoldsBoundary(es[i])
    {
      AlignedHolds(es[i]);
    }
    TotalIff(es, |es|);
    CounterExactIff(es, |es|);
    FreedTracked(es);
  }

  lemma FreedTracked(es: seq<E820>)
    requires forall i :: 0 <= i < |es| ==> WellTyped(es[i])
    ensures |Freed(es, |es|)| <= TOTAL
  {
    hide FramesOf, Freed, Range, WellTyped, Inside;
    forall f | f in Freed(es, |es|)
      ensures f in Range(0, TOTAL)
    {
      FreedExact(es, |es|, f);
    }
    Subset(Freed(es, |es|), Range(0, TOTAL));
  }

  lemma AlignedHolds(e: E820)
    requires PageAligned(e)
    ensures WellTyped(e) && HoldsBoundary(e)
  {
    assert e.base <= FrameStart(e.base / PAGE) <= (e.base + e.length) % WIDE_LIMIT;
  }

  // ---------------------------------------------------------------- runs of the allocator

  datatype AllocOp = Take | Give(addr: word)

  /** The allocator as its callers see it: the free set and the counter. */
  datatype Allocator = Allocator(free: set<nat>, count: nat)

  ghost function TakeResult(p: Allocator): nat {
    if p.free == {} then 0 else PAGE * Least(p.free)
  }

  ghost function AllocStep(p: Allocator, op: AllocOp): Allocator {
    match op
    case Take => if p.free == {} then p else Allocator(p.free - {Least(p.free)}, if p.count > 0 then p.count - 1 else 0)
    case Give(addr) =>
      var f := addr / PAGE;
      if f >= TOTAL || f in p.free then p else Allocator(p.free + {f}, p.count + 1)
  }

  ghost function AllocRun(p: Allocator, ops: seq<AllocOp>): Allocator {
    if ops == [] then p else AllocStep(AllocRun(p, ops[..|ops| - 1]), ops[|ops| - 1])
  }

  /** Over every run the counter is the number of free frames. */
  lemma {:induction false} CounterStaysExact(p: Allocator, ops: seq<AllocOp>)
    requires p.count == |p.free|
    ensures AllocRun(p, ops).count == |AllocRun(p, ops).free|
  {
    if ops != [] {
      CounterStaysExact(p, ops[..|ops| - 1]);
    }
  }

  /** Over every run that never frees an address in frame 0, a zero result means exhaustion and nothing else. */
  lemma {:induction false} ZeroMeansExhausted(p: Allocator, ops: seq<AllocOp>)
    requires 0 !in p.free && forall k :: 0 <= k < |ops| && ops[k].Give? ==> ops[k].addr >= PAGE
    ensures 0 !in AllocRun(p, ops).free
    ensures TakeResult(AllocRun(p, ops)) == 0 <==> AllocRun(p, ops).free == {}
  {
    if ops != [] {
      ZeroMeansExhausted(p, ops[..|ops| - 1]);
    }
  }
}
