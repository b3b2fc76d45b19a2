/** kernel/pmm.c as imperative code: a bitmap in an array of bytes, changed bit by bit in scanning loops. */
module Pmm {
  import opened Bytes
  import opened Frames

  class Pmm {
    const bitmap: array<bv8>
    var free: nat
    var total: word

    /** All frames used; pmm_init fills in the rest. */
    constructor ()
      ensures Valid() && FreeSet() == {} && free == 0 && fresh(bitmap)
    {
      bitmap := new bv8[1024](i => 0xFF);
      free, total := 0, 0;
      new;
      forall f | 0 <= f < TOTAL
        ensures Used(f)
      {
        AllOnes(f % 8);
      }
    }

    ghost predicate Valid() {
      bitmap.Length == 1024
    }

    /** pmm_is_used */
    predicate Used(f: nat)
      requires bitmap.Length == 1024 && f < TOTAL
      reads bitmap
    {
      Bit(bitmap[f / 8], f % 8)
    }

    /** The set the bitmap stands for. */
    ghost function FreeSet(): (s: set<nat>)
      requires Valid()
      reads bitmap
    {
      set f: nat | f < TOTAL && !Used(f)
    }

    /** pmm_set_used */
    method SetUsed(f: nat)
      requires Valid() && f < TOTAL
      modifies bitmap
      ensures FreeSet() == old(FreeSet()) - {f}
    {
      bitmap[f / 8] := SetBit(bitmap[f / 8], f % 8);
      forall g | 0 <= g < TOTAL
        ensures Used(g) <==> g == f || old(Used(g))
      {
        if g / 8 == f / 8 {
          SetBitEffect(old(bitmap[f / 8]), f % 8, g % 8);
        }
      }
    }

    /** pmm_set_free */
    method SetFree(f: nat)
      requires Valid() && f < TOTAL
      modifies bitmap
      ensures FreeSet() == old(FreeSet()) + {f}
    {
      bitmap[f / 8] := ClearBit(bitmap[f / 8], f % 8);
      forall g | 0 <= g < TOTAL
        ensures Used(g) <==> g != f && old(Used(g))
      {
        if g / 8 == f / 8 {
          ClearBitEffect(old(bitmap[f / 8]), f % 8, g % 8);
        }
      }
    }

    /** The loop of pmm_reserve_range: the counter goes down once for each frame that was free, but not below 0. */
    method MarkUsed(lo: nat, hi: nat)
      requires Valid() && hi <= TOTAL
      modifies this`free, bitmap
      ensures FreeSet() == old(FreeSet()) - Range(lo, hi)
      ensures free == Lowered(old(free), |old(FreeSet()) * Range(lo, hi)|)
    {
      hide Range, FreeSet, Lowered;
      ghost var was := FreeSet();
      LoweredNone(free);
      var f := lo;
      Nothing(was, Range(lo, lo));
      while f < hi
        invariant lo <= f && (f <= hi || f == lo)
        invariant FreeSet() == was - Range(lo, f) && free == Lowered(old(free), |was * Range(lo, f)|)
      {
        OneMore(was, lo, f);
        LoweredTwice(old(free), |was * Range(lo, f)|, if f in was then 1 else 0);
        MarkOne(f);
        f := f + 1;
      }
      assert Range(lo, f) == Range(lo, hi);
    }

    method MarkOne(f: nat)
      requires Valid() && f < TOTAL
      modifies this`free, bitmap
      ensures FreeSet() == old(FreeSet()) - {f}
      ensures free == Lowered(old(free), if f in old(FreeSet()) then 1 else 0)
    {
      if !Used(f) {
        assert f in FreeSet();
        SetUsed(f);
        if free > 0 {
          free := free - 1;
        }
      } else {
        assert f !in FreeSet();
        assert FreeSet() == FreeSet() - {f};
      }
    }

    /** pmm_reserve_range */
    method ReserveRange(base: nat, len: nat)
      requires Valid() && base < WIDE_LIMIT && len < WIDE_LIMIT
      modifies this`free, bitmap
      ensures FreeSet() == old(FreeSet()) - Reserved(base, len)
      ensures free == Lowered(old(free), |old(FreeSet()) * Reserved(base, len)|)
    {
      hide Range;
      if base >= MAX_PHYS {
        assert FreeSet() - {} == FreeSet() && FreeSet() * {} == {};
        return;
      }
      MarkUsed(base / PAGE, ReserveEnd(base, len));
    }

    /** Frees the frames [lo, hi) of one boot-map entry; the counter is raised for each, free or not. */
    method FreeRange(lo: nat, hi: nat)
      requires Valid() && hi <= TOTAL
      modifies this`free, bitmap
      ensures forall g :: g in FreeSet() <==> g in old(FreeSet()) || lo <= g < hi
      ensures free == old(free) + if lo <= hi then hi - lo else 0
    {
      var f := lo;
      while f < hi
        invariant lo <= f && (if lo <= hi then f <= hi else f == lo)
        invariant forall g :: g in FreeSet() <==> g in old(FreeSet()) || lo <= g < f
        invariant free == old(free) + f - lo
      {
        SetFree(f);
        free := free + 1;
        f := f + 1;
      }
    }

    /** One boot-map entry. */
    method FreeEntry(e: E820)
      requires Valid()
      modifies this, bitmap
      ensures FreeSet() == old(FreeSet()) + FramesOf(e) && free == old(free) + |FramesOf(e)|
      ensures total == (old(total) + Delta(e)) % WORD_LIMIT
    {
      hide Range;
      if e.kind != 1 || e.base >= MAX_PHYS {
        assert FreeSet() == FreeSet() + {};
        return;
      }
      FreeRange(FirstFrame(e), LastFrame(e));
      assert FreeSet() == old(FreeSet()) + FramesOf(e);
      total := (total + LastFrame(e) - FirstFrame(e)) % WORD_LIMIT;
    }

    /** The memset and the counters pmm_init starts with. */
    method MarkAllUsed()
      requires Valid()
      modifies this, bitmap
      ensures FreeSet() == {} && free == 0 && total == 0
    {
      forall i | 0 <= i < 1024 {
        bitmap[i] := 0xFF;
      }
      free, total := 0, 0;
      forall f | 0 <= f < TOTAL
        ensures Used(f)
      {
        AllOnes(f % 8);
      }
    }

    /** The loop over the boot map. */
    method FreeEntries(es: seq<E820>)
      requires Valid() && FreeSet() == {} && free == 0 && total == 0
      modifies this, bitmap
      ensures FreeSet() == Freed(es, |es|) && free == Raised(es, |es|) && total == Reported(es, |es|) % WORD_LIMIT
    {
      hide FramesOf, Delta;
      for i := 0 to |es|
        invariant FreeSet() == Freed(es, i) && free == Raised(es, i) && total == Reported(es, i) % WORD_LIMIT
      {
        ModStep(Reported(es, i), Delta(es[i]));
        FreeEntry(es[i]);
      }
    }

    /** pmm_init from the boot memory map, or from a fixed layout when there is none. */
    method Init(es: seq<E820>)
      requires Valid() && forall i :: 0 <= i < |es| ==> WellTyped(es[i])
      modifies this, bitmap
      ensures es == [] ==>
        (forall f :: f in FreeSet() <==> 256 <= f < 8192) && free == 7936 && total == 8192
      ensures es != [] ==>
        && FreeSet() == From1MB(Freed(es, |es|))
        && free == Raised(es, |es|) - |Below1MB(Freed(es, |es|))|
        && total == Reported(es, |es|) % WORD_LIMIT
    {
      hide Freed, Raised, Reported, Reserved, Range;
      MarkAllUsed();
      if |es| == 0 {
        FreeRange(LOW, TOTAL);
        total := TOTAL;
        return;
      }
      FreeEntries(es);
      CounterExactIff(es, |es|);
      LowReserved(FreeSet());
      ReserveRange(0, 0x10_0000);
    }

    /** pmm_alloc_frame: the least free frame, or 0 when none is free. */
    method AllocFrame() returns (addr: word)
      requires Valid()
      modifies this`free, bitmap
      ensures old(FreeSet()) == {} ==> addr == 0 && FreeSet() == {} && free == old(free)
      ensures old(FreeSet()) != {} ==>
        && addr == PAGE * Least(old(FreeSet())) && FreeSet() == old(FreeSet()) - {Least(old(FreeSet()))}
        && free == if old(free) > 0 then old(free) - 1 else 0
    {
      for f := 0 to TOTAL
        invariant FreeSet() == old(FreeSet()) && free == old(free)
        invariant forall g :: g in FreeSet() ==> f <= g
      {
        if !Used(f) {
          assert f in FreeSet();
          assert f == Least(FreeSet());
          SetUsed(f);
          if free > 0 {
            free := free - 1;
          }
          return f * PAGE;
        }
      }
      addr := 0;
    }

    /** pmm_free_frame: frames outside the map and frames already free are ignored. */
    method FreeFrame(addr: word)
      requires Valid()
      modifies this`free, bitmap
      ensures addr / PAGE < TOTAL ==> FreeSet() == old(FreeSet()) + {addr / PAGE}
      ensures addr / PAGE >= TOTAL ==> FreeSet() == old(FreeSet())
      ensures free == old(free) + if addr / PAGE < TOTAL && addr / PAGE !in old(FreeSet()) then 1 else 0
    {
      var f := addr / PAGE;
      if f >= TOTAL {
        return;
      }
      if Used(f) {
        SetFree(f);
        free := free + 1;
      } else {
        assert f in FreeSet();
        assert FreeSet() == FreeSet() + {f};
      }
    }
  }

  lemma Nothing(s: set<nat>, e: set<nat>)
    requires forall g :: g !in e
    ensures s - e == s && s * e == {}
  {
  }

  /** Going over one more frame. */
  lemma OneMore(s: set<nat>, lo: nat, f: nat)
    requires lo <= f
    ensures s - Range(lo, f + 1) == s - Range(lo, f) - {f}
    ensures f in s <==> f in s - Range(lo, f)
    ensures |s * Range(lo, f + 1)| == |s * Range(lo, f)| + if f in s then 1 else 0
    ensures f !in s ==> s - Range(lo, f + 1) == s - Range(lo, f)
  {
    hide Range;
    assert s * Range(lo, f + 1) == if f in s then s * Range(lo, f) + {f} else s * Range(lo, f);
  }

  /** A counter lowered n times, never below 0. */
  function Lowered(count: nat, n: nat): nat {
    if n <= count then count - n else 0
  }

  lemma LoweredTwice(count: nat, a: nat, b: nat)
    ensures Lowered(Lowered(count, a), b) == Lowered(count, a + b)
  {
  }

  lemma LoweredNone(count: nat)
    ensures Lowered(count, 0) == count
  {
  }

  /** Reserving the first megabyte. */
  lemma LowReserved(s: set<nat>)
    ensures s - Reserved(0, 0x10_0000) == From1MB(s) && s * Reserved(0, 0x10_0000) == Below1MB(s)
    ensures |Below1MB(s)| <= |s|
  {
    hide Range, ReserveEnd;
    ReserveEndIs(0, 0x10_0000);
    SplitAt1MB(s);
    assert forall g: nat :: g in Reserved(0, 0x10_0000) <==> g < LOW;
  }

  lemma ModStep(a: int, d: int)
    ensures (a % WORD_LIMIT + d) % WORD_LIMIT == (a + d) % WORD_LIMIT
  {
    var q := a / WORD_LIMIT;
    assert a == WORD_LIMIT * q + a % WORD_LIMIT;
  }

  lemma AllOnes(k: nat)
    requires k < 8
    ensures Bit(0xFF, k)
  {
    Eight(k);
  }
}
