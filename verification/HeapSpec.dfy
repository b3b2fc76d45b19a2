/**
  The kernel heap (kernel/kmem.c) as a list of blocks in address order.  The central fact is
  that the block list is a function of the live blocks alone: the allocator keeps a canonical
  form, from which commuting frees, exact undo and full recovery all follow.
 */
module HeapSpec {
  import opened Bytes

  const HEAP_SIZE: int := 0x4_0000
  const HEADER: int := 16

  /** A block: the address of its header, its usable bytes, and whether it is available. */
  datatype Block = Block(addr: nat, size: nat, free: bool)

  function End(b: Block): nat {
    b.addr + HEADER + b.size
  }

  const INITIAL: seq<Block> := [Block(0, HEAP_SIZE - HEADER, true)]

  /** The blocks cover [lo, hi) in address order without gap or overlap. */
  predicate Tiles(bs: seq<Block>, lo: nat, hi: nat) {
    if bs == [] then lo == hi else bs[0].addr == lo && Tiles(bs[1..], End(bs[0]), hi)
  }

  predicate Merged(bs: seq<Block>) {
    forall i :: 0 <= i < |bs| - 1 ==> !(bs[i].free && bs[i + 1].free)
  }

  predicate Aligned(bs: seq<Block>) {
    forall i :: 0 <= i < |bs| ==> bs[i].size % 4 == 0
  }

  /** The heap invariant. */
  predicate Inv(bs: seq<Block>) {
    Tiles(bs, 0, HEAP_SIZE) && Merged(bs) && Aligned(bs)
  }

  // ---------------------------------------------------------------- tiling

  lemma {:induction false} TilesConcat(a: seq<Block>, b: seq<Block>, lo: nat, mid: nat, hi: nat)
    requires Tiles(a, lo, mid) && Tiles(b, mid, hi)
    ensures Tiles(a + b, lo, hi)
  {
    if a == [] {
      assert a + b == b;
    } else {
      TilesConcat(a[1..], b, End(a[0]), mid, hi);
      assert (a + b)[1..] == a[1..] + b;
    }
  }

  /** Where a prefix of a tiling ends. */
  function Cut(bs: seq<Block>, lo: nat, k: nat): nat
    requires k <= |bs|
  {
    if k == 0 then lo else End(bs[k - 1])
  }

  lemma {:induction false} TilesSplit(bs: seq<Block>, lo: nat, hi: nat, k: nat)
    requires Tiles(bs, lo, hi) && k <= |bs|
    ensures Tiles(bs[..k], lo, Cut(bs, lo, k)) && Tiles(bs[k..], Cut(bs, lo, k), hi)
    ensures k < |bs| ==> bs[k].addr == Cut(bs, lo, k)
    ensures lo <= Cut(bs, lo, k) <= hi
  {
    if k == 0 {
      TilesOrder(bs, lo, hi);
    } else {
      TilesSplit(bs[1..], End(bs[0]), hi, k - 1);
      assert bs[1..][..k - 1] == bs[..k][1..] && bs[1..][k - 1..] == bs[k..];
    }
  }

  lemma {:induction false} TilesOrder(bs: seq<Block>, lo: nat, hi: nat)
    requires Tiles(bs, lo, hi)
    ensures lo <= hi
  {
    if bs != [] {
      TilesOrder(bs[1..], End(bs[0]), hi);
    }
  }

  /** Blocks of a tiling never overlap. */
  lemma {:induction false} TilesApart(bs: seq<Block>, lo: nat, hi: nat, i: nat, j: nat)
    requires Tiles(bs, lo, hi) && i < j < |bs|
    ensures lo <= bs[i].addr && End(bs[i]) <= bs[j].addr && End(bs[j]) <= hi
  {
    TilesSplit(bs, lo, hi, i + 1);
    TilesSplit(bs, lo, hi, i);
    TilesSplit(bs[i + 1..], End(bs[i]), hi, j - i - 1);
    TilesSplit(bs, lo, hi, j + 1);
  }

  // ---------------------------------------------------------------- canonical form

  /** The blocks in use. */
  function Live(bs: seq<Block>): (r: seq<Block>) {
    if bs == [] then [] else (if bs[0].free then [] else [bs[0]]) + Live(bs[1..])
  }

  lemma {:induction false} LiveConcat(a: seq<Block>, b: seq<Block>)
    ensures Live(a + b) == Live(a) + Live(b)
  {
    if a == [] {
      assert a + b == b;
    } else {
      var head := if a[0].free then [] else [a[0]];
      LiveConcat(a[1..], b);
      assert (a + b)[1..] == a[1..] + b;
      assert head + (Live(a[1..]) + Live(b)) == (head + Live(a[1..])) + Live(b);
    }
  }

  lemma LiveMiddle(a: seq<Block>, c: seq<Block>, d: seq<Block>)
    ensures Live(a + c + d) == Live(a) + Live(c) + Live(d)
  {
    LiveConcat(a, c);
    LiveConcat(a + c, d);
  }

  lemma LiveOne(b: Block)
    ensures Live([b]) == if b.free then [] else [b]
  {
    assert [b][1..] == [];
  }

  function Gap(lo: nat, hi: nat): seq<Block> {
    if hi < lo + HEADER then [] else [Block(lo, hi - lo - HEADER, true)]
  }

  /** The block list determined by the live blocks: one free block in every gap. */
  function Fill(lo: nat, live: seq<Block>, hi: nat): seq<Block>
    decreases |live|
  {
    if live == [] then Gap(lo, hi) else Gap(lo, live[0].addr) + [live[0]] + Fill(End(live[0]), live[1..], hi)
  }

  /** A merged tiling, taken apart at its first block. */
  lemma HeadAndRest(bs: seq<Block>, lo: nat, hi: nat)
    requires Tiles(bs, lo, hi) && Merged(bs) && bs != []
    ensures bs[0].addr == lo && End(bs[0]) >= lo + HEADER && Tiles(bs[1..], End(bs[0]), hi) && Merged(bs[1..])
    ensures |bs| > 1 ==> !(bs[0].free && bs[1].free)
    ensures Live(bs) == if bs[0].free then Live(bs[1..]) else [bs[0]] + Live(bs[1..])
  {
    assert forall i :: 0 <= i < |bs[1..]| ==> bs[1..][i] == bs[i + 1];
  }

  lemma FillCons(lo: nat, b: Block, live: seq<Block>, hi: nat)
    ensures Fill(lo, [b] + live, hi) == Gap(lo, b.addr) + [b] + Fill(End(b), live, hi)
  {
    assert ([b] + live)[1..] == live;
  }

  lemma FillLast(lo: nat, hi: nat)
    ensures Fill(lo, [], hi) == Gap(lo, hi)
  {
  }

  /** Every merged tiling is the canonical list of its live blocks. */
  lemma {:induction false} Canonical(bs: seq<Block>, lo: nat, hi: nat)
    requires Tiles(bs, lo, hi) && Merged(bs)
    ensures bs == Fill(lo, Live(bs), hi)
    decreases |bs|, 1
  {
    if bs == [] {
      FillLast(lo, hi);
    } else {
      HeadAndRest(bs, lo, hi);
      var b, rest := bs[0], bs[1..];
      if !b.free {
        Canonical(rest, End(b), hi);
        FillCons(lo, b, Live(rest), hi);
      } else if rest == [] {
        FillLast(lo, hi);
      } else {
        CanonicalAfterGap(bs, lo, hi);
      }
    }
  }

  /** A free first block and the live one behind it. */
  lemma {:induction false} CanonicalAfterGap(bs: seq<Block>, lo: nat, hi: nat)
    requires Tiles(bs, lo, hi) && Merged(bs) && |bs| > 1 && bs[0].free
    ensures bs == Fill(lo, Live(bs), hi)
    decreases |bs|, 0
  {
    HeadAndRest(bs, lo, hi);
    HeadAndRest(bs[1..], End(bs[0]), hi);
    hide Tiles, Merged, Live, Fill;
    var g, c, rest := bs[0], bs[1], bs[1..][1..];
    Canonical(rest, End(c), hi);
    FillCons(lo, c, Live(rest), hi);
    assert Gap(lo, c.addr) == [g];
    assert bs == [g] + [c] + rest;
  }

  /** Two heap states with the same live blocks are the same state. */
  lemma LiveDetermines(a: seq<Block>, b: seq<Block>)
    requires Inv(a) && Inv(b) && Live(a) == Live(b)
    ensures a == b
  {
    Canonical(a, 0, HEAP_SIZE);
    Canonical(b, 0, HEAP_SIZE);
  }

  // ---------------------------------------------------------------- coalescing

  function Join(a: Block, b: Block): Block {
    Block(a.addr, a.size + HEADER + b.size, true)
  }

  /** One pass over the list that absorbs every free block into a free predecessor. */
  function Coalesce(bs: seq<Block>): (r: seq<Block>)
    decreases |bs|
  {
    if |bs| < 2 then bs
    else if bs[0].free && bs[1].free then Coalesce([Join(bs[0], bs[1])] + bs[2..])
    else [bs[0]] + Coalesce(bs[1..])
  }

  lemma {:induction false} CoalesceKeeps(bs: seq<Block>, lo: nat, hi: nat)
    requires Tiles(bs, lo, hi) && Aligned(bs)
    ensures Tiles(Coalesce(bs), lo, hi) && Aligned(Coalesce(bs)) && Merged(Coalesce(bs))
    ensures Live(Coalesce(bs)) == Live(bs)
    ensures bs != [] ==> Coalesce(bs) != [] && Coalesce(bs)[0].free == bs[0].free
    decreases |bs|
  {
    if |bs| < 2 {
    } else if bs[0].free && bs[1].free {
      var m := [Join(bs[0], bs[1])] + bs[2..];
      assert m[1..] == bs[2..] == bs[1..][1..];
      CoalesceKeeps(m, lo, hi);
      assert Live(bs) == Live(bs[1..]) == Live(bs[2..]);
    } else {
      CoalesceKeeps(bs[1..], End(bs[0]), hi);
      var r := Coalesce(bs);
      assert r[1..] == Coalesce(bs[1..]);
      assert forall i :: 0 < i < |r| ==> r[i] == Coalesce(bs[1..])[i - 1];
    }
  }

  // ---------------------------------------------------------------- allocation

  /** Rounding up to four bytes in 32-bit arithmetic. */
  function RoundUp(size: word): word {
    ((size + 3) % WORD_LIMIT) / 4 * 4
  }

  /** The first free block of at least n bytes, at or after index i; |bs| when there is none. */
  function FirstFit(bs: seq<Block>, n: nat, i: nat): (k: nat)
    requires i <= |bs|
    ensures i <= k <= |bs|
    ensures k < |bs| ==> bs[k].free && bs[k].size >= n
    ensures forall j :: i <= j < k ==> !(bs[j].free && bs[j].size >= n)
    decreases |bs| - i
  {
    if i == |bs| then i else if bs[i].free && bs[i].size >= n then i else FirstFit(bs, n, i + 1)
  }

  /** What an allocation makes of a block: an exact block and a free remainder, or the whole block. */
  function Carve(b: Block, n: nat): (r: seq<Block>)
    requires b.size >= n
    ensures |r| >= 1
  {
    if b.size >= n + HEADER + 4
    then [Block(b.addr, n, false), Block(b.addr + HEADER + n, b.size - n - HEADER, true)]
    else [b.(free := false)]
  }

  function Take(bs: seq<Block>, k: nat, n: nat): seq<Block>
    requires k < |bs| && bs[k].size >= n
  {
    bs[..k] + Carve(bs[k], n) + bs[k + 1..]
  }

  /** An allocation keeps the invariant and adds exactly one live block in its place. */
  lemma TakeKeeps(bs: seq<Block>, k: nat, n: nat)
    requires Inv(bs) && k < |bs| && bs[k].free && bs[k].size >= n && n % 4 == 0
    ensures Inv(Take(bs, k, n))
    ensures Live(Take(bs, k, n)) == Live(bs[..k]) + [Carve(bs[k], n)[0]] + Live(bs[k + 1..])
    ensures Live(bs) == Live(bs[..k]) + Live(bs[k + 1..])
  {
    hide Live, Tiles, Merged, Aligned;
    var a, c, d := bs[..k], Carve(bs[k], n), bs[k + 1..];
    TakeTiles(bs, k, n);
    TakeMerged(bs, k, n);
    LiveMiddle(a, c, d);
    LiveCarve(bs[k], n);
    assert bs == a + [bs[k]] + d;
    LiveMiddle(a, [bs[k]], d);
    LiveOne(bs[k]);
  }

  lemma LiveCarve(b: Block, n: nat)
    requires b.size >= n
    ensures Live(Carve(b, n)) == [Carve(b, n)[0]]
    ensures Live(Carve(b, n)[1..]) == []
  {
    var c := Carve(b, n);
    if |c| == 2 {
      assert c[1..] == [c[1]];
      LiveOne(c[1]);
    } else {
      LiveOne(c[0]);
    }
  }

  lemma TakeTiles(bs: seq<Block>, k: nat, n: nat)
    requires Tiles(bs, 0, HEAP_SIZE) && k < |bs| && bs[k].size >= n
    ensures Tiles(Take(bs, k, n), 0, HEAP_SIZE)
  {
    var a, c, d := bs[..k], Carve(bs[k], n), bs[k + 1..];
    TilesSplit(bs, 0, HEAP_SIZE, k);
    TilesSplit(bs, 0, HEAP_SIZE, k + 1);
    assert Tiles(c, bs[k].addr, End(bs[k])) by {
      if |c| == 2 {
        assert c[1..] == [c[1]] && c[1..][1..] == [];
      } else {
        assert c[1..] == [];
      }
    }
    TilesConcat(a, c, 0, bs[k].addr, End(bs[k]));
    TilesConcat(a + c, d, 0, End(bs[k]), HEAP_SIZE);
  }

  lemma TakeMerged(bs: seq<Block>, k: nat, n: nat)
    requires Merged(bs) && Aligned(bs) && k < |bs| && bs[k].free && bs[k].size >= n && n % 4 == 0
    ensures Merged(Take(bs, k, n)) && Aligned(Take(bs, k, n))
  {
    var c, r := Carve(bs[k], n), Take(bs, k, n);
    forall i | 0 <= i < |r|
      ensures r[i].size % 4 == 0
      ensures i < |r| - 1 ==> !(r[i].free && r[i + 1].free)
    {
      assert i < k ==> r[i] == bs[i];
      assert i >= k + |c| ==> r[i] == bs[i - |c| + 1];
      assert i >= k + |c| && i < |r| - 1 ==> r[i + 1] == bs[i - |c| + 2];
    }
  }

  // ---------------------------------------------------------------- freeing

  function Release(bs: seq<Block>, k: nat): seq<Block>
    requires k < |bs|
  {
    Coalesce(bs[k := bs[k].(free := true)])
  }

  /** A free keeps the invariant and removes exactly one live block. */
  lemma ReleaseKeeps(bs: seq<Block>, k: nat)
    requires Inv(bs) && k < |bs| && !bs[k].free
    ensures Inv(Release(bs, k))
    ensures Live(Release(bs, k)) == Live(bs[..k]) + Live(bs[k + 1..])
    ensures Live(bs) == Live(bs[..k]) + [bs[k]] + Live(bs[k + 1..])
  {
    hide Live, Coalesce, Merged;
    var a, d, b := bs[..k], bs[k + 1..], bs[k].(free := true);
    var m := bs[k := b];
    assert m == a + [b] + d && bs == a + [bs[k]] + d;
    MarkTiles(bs, k);
    CoalesceKeeps(m, 0, HEAP_SIZE);
    LiveMiddle(a, [b], d);
    LiveMiddle(a, [bs[k]], d);
    LiveOne(b);
    LiveOne(bs[k]);
  }

  lemma MarkTiles(bs: seq<Block>, k: nat)
    requires Tiles(bs, 0, HEAP_SIZE) && k < |bs|
    ensures Tiles(bs[k := bs[k].(free := true)], 0, HEAP_SIZE)
  {
    var a, d, b := bs[..k], bs[k + 1..], bs[k].(free := true);
    TilesSplit(bs, 0, HEAP_SIZE, k);
    TilesSplit(bs, 0, HEAP_SIZE, k + 1);
    assert ([b] + d)[1..] == d;
    TilesConcat(a, [b] + d, 0, b.addr, HEAP_SIZE);
    assert bs[k := b] == a + ([b] + d);
  }

  /** Releasing a block just taken restores the exact block list. */
  lemma ReleaseUndoesTake(bs: seq<Block>, k: nat, n: nat)
    requires Inv(bs) && k < |bs| && bs[k].free && bs[k].size >= n && n % 4 == 0
    ensures !Take(bs, k, n)[k].free && Release(Take(bs, k, n), k) == bs
  {
    var t := Take(bs, k, n);
    TakeKeeps(bs, k, n);
    ReleaseKeeps(t, k);
    var c, d := Carve(bs[k], n), bs[k + 1..];
    assert t[..k] == bs[..k] && t[k + 1..] == c[1..] + d;
    LiveConcat(c[1..], d);
    LiveCarve(bs[k], n);
    LiveDetermines(Release(t, k), bs);
  }

  // ---------------------------------------------------------------- addresses

  /** The live block whose header is at that address, or |bs|. */
  function Find(bs: seq<Block>, addr: int, i: nat): (k: nat)
    requires i <= |bs|
    ensures i <= k <= |bs|
    ensures k < |bs| ==> bs[k].addr == addr && !bs[k].free
    ensures forall j :: i <= j < k ==> !(bs[j].addr == addr && !bs[j].free)
    decreases |bs| - i
  {
    if i == |bs| then i else if bs[i].addr == addr && !bs[i].free then i else Find(bs, addr, i + 1)
  }

  /** kfree on the header at that address; anything that is not a live block is ignored. */
  function FreeAt(bs: seq<Block>, addr: int): seq<Block> {
    var k := Find(bs, addr, 0);
    if k < |bs| then Release(bs, k) else bs
  }

  function Without(live: seq<Block>, addr: int): (r: seq<Block>) {
    if live == [] then []
    else if live[0].addr == addr then Without(live[1..], addr)
    else [live[0]] + Without(live[1..], addr)
  }

  lemma {:induction false} WithoutIn(live: seq<Block>, addr: int)
    ensures forall b :: b in Without(live, addr) <==> b in live && b.addr != addr
  {
    if live != [] {
      WithoutIn(live[1..], addr);
      assert live == [live[0]] + live[1..];
    }
  }

  lemma {:induction false} WithoutConcat(a: seq<Block>, b: seq<Block>, addr: int)
    ensures Without(a + b, addr) == Without(a, addr) + Without(b, addr)
  {
    if a == [] {
      assert a + b == b;
    } else {
      var head := if a[0].addr == addr then [] else [a[0]];
      WithoutConcat(a[1..], b, addr);
      assert (a + b)[1..] == a[1..] + b;
      assert head + (Without(a[1..], addr) + Without(b, addr)) == (head + Without(a[1..], addr)) + Without(b, addr);
    }
  }

  lemma {:induction false} WithoutNothing(a: seq<Block>, addr: int)
    requires forall i :: 0 <= i < |a| ==> a[i].addr != addr
    ensures Without(a, addr) == a
  {
    if a != [] {
      WithoutNothing(a[1..], addr);
    }
  }

  lemma {:induction false} WithoutCommutes(a: seq<Block>, p: int, q: int)
    ensures Without(Without(a, p), q) == Without(Without(a, q), p)
  {
    if a != [] {
      WithoutCommutes(a[1..], p, q);
    }
  }

  lemma {:induction false} LiveIn(bs: seq<Block>, b: Block)
    ensures b in Live(bs) <==> b in bs && !b.free
  {
    if bs != [] {
      LiveIn(bs[1..], b);
      assert bs == [bs[0]] + bs[1..];
    }
  }

  /** On live blocks, freeing an address is removing it. */
  lemma FreeAtIsWithout(bs: seq<Block>, addr: int)
    requires Inv(bs)
    ensures Inv(FreeAt(bs, addr)) && Live(FreeAt(bs, addr)) == Without(Live(bs), addr)
  {
    hide Live, Without, Inv, Release;
    var k := Find(bs, addr, 0);
    if k == |bs| {
      LiveElsewhere(bs, addr);
      WithoutNothing(Live(bs), addr);
    } else {
      var a, d := bs[..k], bs[k + 1..];
      ReleaseKeeps(bs, k);
      OthersElsewhere(bs, k);
      LiveElsewhere(a, addr);
      LiveElsewhere(d, addr);
      WithoutMiddle(Live(a), bs[k], Live(d));
    }
  }

  lemma WithoutMiddle(a: seq<Block>, b: Block, d: seq<Block>)
    requires forall i :: 0 <= i < |a| ==> a[i].addr != b.addr
    requires forall i :: 0 <= i < |d| ==> d[i].addr != b.addr
    ensures Without(a + [b] + d, b.addr) == a + d
  {
    hide Without;
    var n := b.addr;
    WithoutNothing(a, n);
    WithoutNothing(d, n);
    WithoutSelf(b);
    assert Without(a + [b], n) == a by {
      WithoutConcat(a, [b], n);
      assert a + [] == a;
    }
    WithoutConcat(a + [b], d, n);
  }

  lemma WithoutSelf(b: Block)
    ensures Without([b], b.addr) == []
  {
    assert [b][1..] == [];
  }

  lemma LiveElsewhere(bs: seq<Block>, addr: int)
    requires forall j :: 0 <= j < |bs| ==> bs[j].addr != addr || bs[j].free
    ensures forall i :: 0 <= i < |Live(bs)| ==> Live(bs)[i].addr != addr
  {
    forall i | 0 <= i < |Live(bs)|
      ensures Live(bs)[i].addr != addr
    {
      LiveIn(bs, Live(bs)[i]);
    }
  }

  /** No other block of a tiling starts where block k does. */
  lemma OthersElsewhere(bs: seq<Block>, k: nat)
    requires Inv(bs) && k < |bs|
    ensures forall j :: 0 <= j < |bs| && j != k ==> bs[j].addr != bs[k].addr
  {
    forall j | 0 <= j < |bs| && j != k
      ensures bs[j].addr != bs[k].addr
    {
      if j < k {
        TilesApart(bs, 0, HEAP_SIZE, j, k);
      } else {
        TilesApart(bs, 0, HEAP_SIZE, k, j);
      }
    }
  }

  /** Two frees commute: the block list afterwards does not depend on their order. */
  lemma FreesCommute(bs: seq<Block>, p: int, q: int)
    requires Inv(bs)
    ensures FreeAt(FreeAt(bs, p), q) == FreeAt(FreeAt(bs, q), p)
  {
    hide Live, Without, Inv, FreeAt;
    FreeAtIsWithout(bs, p);
    FreeAtIsWithout(bs, q);
    FreeAtIsWithout(FreeAt(bs, p), q);
    FreeAtIsWithout(FreeAt(bs, q), p);
    WithoutCommutes(Live(bs), p, q);
    LiveDetermines(FreeAt(FreeAt(bs, p), q), FreeAt(FreeAt(bs, q), p));
  }

  function FreeAll(bs: seq<Block>, order: seq<int>): seq<Block>
    decreases |order|
  {
    if order == [] then bs else FreeAll(FreeAt(bs, order[0]), order[1..])
  }

  /** Freeing every live block, in any order and with any repetitions, restores the initial block. */
  lemma {:induction false} FreeAllRestores(bs: seq<Block>, order: seq<int>)
    requires Inv(bs) && forall b :: b in Live(bs) ==> b.addr in order
    ensures FreeAll(bs, order) == [Block(0, 0x4_0000 - 16, true)]
    decreases |order|
  {
    if order == [] {
      HeadIsIn(Live(bs));
      Canonical(bs, 0, HEAP_SIZE);
    } else {
      FreeAtIsWithout(bs, order[0]);
      WithoutIn(Live(bs), order[0]);
      assert order == [order[0]] + order[1..];
      FreeAllRestores(FreeAt(bs, order[0]), order[1..]);
    }
  }

  lemma HeadIsIn(s: seq<Block>)
    ensures s == [] || s[0] in s
  {
  }

  // ---------------------------------------------------------------- requests and runs

  /** kmalloc: the new block list and the data pointer, -1 for NULL. */
  function Malloc(bs: seq<Block>, size: word): (r: (seq<Block>, int)) {
    var n := RoundUp(size);
    var k := FirstFit(bs, n, 0);
    if size == 0 || k == |bs| then (bs, -1) else (Take(bs, k, n), bs[k].addr + HEADER)
  }

  lemma RoundUpIs(size: word)
    ensures RoundUp(size) % 4 == 0
    ensures size <= 0xFFFF_FFFC ==> size <= RoundUp(size) < size + 4
    ensures size > 0xFFFF_FFFC ==> RoundUp(size) == 0
  {
    if size <= 0xFFFF_FFFC {
      assert (size + 3) % WORD_LIMIT == size + 3;
    } else {
      assert (size + 3) % WORD_LIMIT == size + 3 - WORD_LIMIT;
    }
  }

  /** The block behind a pointer kmalloc returned. */
  ghost predicate Granted(bs: seq<Block>, size: word, b: Block) {
    var r := Malloc(bs, size);
    r.1 >= 0 && b in Live(r.0) && b.addr == r.1 - HEADER
  }

  /** NULL exactly when nothing fits; otherwise a tight live block, and every older block stays where it is. */
  lemma MallocGrants(bs: seq<Block>, size: word)
    requires Inv(bs)
    ensures var r := Malloc(bs, size);
            && Inv(r.0)
            && (r.1 == -1 <==> size == 0 || forall k :: 0 <= k < |bs| ==> !(bs[k].free && bs[k].size >= RoundUp(size)))
            && (r.1 == -1 ==> r.0 == bs)
            && (forall b :: b in Live(bs) ==> b in Live(r.0))
            && (r.1 != -1 ==> exists b :: Granted(bs, size, b) && RoundUp(size) <= b.size <= RoundUp(size) + 16)
  {
    hide Inv, Live, RoundUp;
    var n := RoundUp(size);
    var k := FirstFit(bs, n, 0);
    if size != 0 && k < |bs| {
      RoundUpIs(size);
      TakeKeeps(bs, k, n);
      CarveIsTight(bs, k, n);
      assert Granted(bs, size, Carve(bs[k], n)[0]);
    }
  }

  lemma CarveIsTight(bs: seq<Block>, k: nat, n: nat)
    requires Inv(bs) && k < |bs| && bs[k].size >= n && n % 4 == 0
    ensures n <= Carve(bs[k], n)[0].size <= n + 16
  {
  }

  /** First fit: no free block below the one granted was large enough. */
  lemma LowestFit(bs: seq<Block>, size: word, k: nat)
    requires Inv(bs) && Malloc(bs, size).1 >= 0 && k < |bs| && bs[k].free && bs[k].size >= RoundUp(size)
    ensures Malloc(bs, size).1 <= bs[k].addr + 16
  {
    hide RoundUp;
    var i := FirstFit(bs, RoundUp(size), 0);
    if i < k {
      TilesApart(bs, 0, HEAP_SIZE, i, k);
    }
  }

  /** Freeing the pointer kmalloc just returned restores the exact block list. */
  lemma FreeUndoesMalloc(bs: seq<Block>, size: word)
    requires Inv(bs) && Malloc(bs, size).1 >= 0
    ensures FreeAt(Malloc(bs, size).0, Malloc(bs, size).1 - HEADER) == bs
  {
    hide Inv, RoundUp, Live, Release;
    var n := RoundUp(size);
    var k := FirstFit(bs, n, 0);
    RoundUpIs(size);
    TakeKeeps(bs, k, n);
    ReleaseUndoesTake(bs, k, n);
    OthersElsewhere(Take(bs, k, n), k);
  }

  /** A granted block can hold what was asked for exactly when rounding the request did not wrap. */
  lemma GrantedIsEnough(bs: seq<Block>, size: word, b: Block)
    requires Inv(bs) && Granted(bs, size, b)
    ensures b.size >= size <==> size <= 0xFFFF_FFFC
  {
    hide Live, RoundUp;
    var n := RoundUp(size);
    var k := FirstFit(bs, n, 0);
    RoundUpIs(size);
    TakeKeeps(bs, k, n);
    var t, c := Take(bs, k, n), Carve(bs[k], n)[0];
    LiveIn(t, b);
    var i :| 0 <= i < |t| && t[i] == b;
    OthersElsewhere(t, k);
    assert t[k] == c;
    CarveIsTight(bs, k, n);
  }

  datatype Op = Alloc(size: word) | Dealloc(addr: int)

  function Step(bs: seq<Block>, op: Op): seq<Block> {
    match op
    case Alloc(size) => Malloc(bs, size).0
    case Dealloc(addr) => FreeAt(bs, addr)
  }

  /** Every call keeps the invariant, and a live block neither moves nor changes size before its own free. */
  lemma StepKeeps(bs: seq<Block>, op: Op)
    requires Inv(bs)
    ensures Inv(Step(bs, op))
    ensures forall b :: b in Live(bs) && op != Dealloc(b.addr) ==> b in Live(Step(bs, op))
  {
    hide Live, Inv, Malloc, FreeAt;
    match op
    case Alloc(size) => MallocGrants(bs, size);
    case Dealloc(addr) =>
      FreeAtIsWithout(bs, addr);
      WithoutIn(Live(bs), addr);
  }

  function Run(bs: seq<Block>, ops: seq<Op>): seq<Block> {
    if ops == [] then bs else Step(Run(bs, ops[..|ops| - 1]), ops[|ops| - 1])
  }

  lemma InitialIsOk()
    ensures Inv(INITIAL) && Live(INITIAL) == []
  {
    assert INITIAL[1..] == [];
  }

  /** Every reachable heap is the canonical list of its live blocks. */
  lemma {:induction false} ReachableCanonical(ops: seq<Op>)
    ensures var bs := Run(INITIAL, ops);
            Inv(bs) && bs == Fill(0, Live(bs), HEAP_SIZE)
  {
    if ops == [] {
      InitialIsOk();
    } else {
      ReachableCanonical(ops[..|ops| - 1]);
      StepKeeps(Run(INITIAL, ops[..|ops| - 1]), ops[|ops| - 1]);
    }
    Canonical(Run(INITIAL, ops), 0, HEAP_SIZE);
  }

  // ---------------------------------------------------------------- no useless blocks

  /** Every block, free or in use, has room for at least four bytes. */
  predicate Roomy(bs: seq<Block>) {
    forall i :: 0 <= i < |bs| ==> bs[i].size >= 4
  }

  /** A request whose rounding wraps round to nothing. */
  predicate Wraps(size: word) {
    size > 0xFFFF_FFFC
  }

  lemma TakeRoomy(bs: seq<Block>, k: nat, n: nat)
    requires Roomy(bs) && k < |bs| && bs[k].size >= n
    ensures Roomy(Take(bs, k, n)) <==> n >= 4 || bs[k].size < n + 20
  {
    var r, c := Take(bs, k, n), Carve(bs[k], n);
    assert r[k] == c[0];
    forall i | 0 <= i < |r| && i != k
      ensures r[i].size >= 4
    {
      assert i < k ==> r[i] == bs[i];
      assert i >= k + |c| ==> r[i] == bs[i - |c| + 1];
      assert i == k + 1 && |c| == 2 ==> r[i] == c[1];
    }
  }

  /** kmalloc makes a block below four bytes exactly when a wrapped request splits the first free block. */
  lemma MallocRoomyIff(bs: seq<Block>, size: word)
    requires Inv(bs) && Roomy(bs)
    ensures Roomy(Malloc(bs, size).0) <==>
            !(Wraps(size) && exists k :: 0 <= k < |bs| && bs[k].free && bs[k].size >= 20 &&
                                         forall j :: 0 <= j < k ==> !bs[j].free)
  {
    hide Roomy, Inv, Take, RoundUp;
    RoundUpIs(size);
    var n := RoundUp(size);
    var k := FirstFit(bs, n, 0);
    if size != 0 && k < |bs| {
      TakeRoomy(bs, k, n);
    }
  }

  lemma {:induction false} CoalesceRoomy(bs: seq<Block>)
    requires Roomy(bs)
    ensures Roomy(Coalesce(bs))
    decreases |bs|
  {
    if |bs| < 2 {
    } else if bs[0].free && bs[1].free {
      CoalesceRoomy([Join(bs[0], bs[1])] + bs[2..]);
    } else {
      CoalesceRoomy(bs[1..]);
    }
  }

  /** Without a wrapped request no block below four bytes ever comes about. */
  lemma {:induction false} RunRoomy(ops: seq<Op>)
    requires forall i :: 0 <= i < |ops| && ops[i].Alloc? ==> !Wraps(ops[i].size)
    ensures Roomy(Run(INITIAL, ops))
  {
    hide Inv, Malloc;
    if ops != [] {
      var front, op := ops[..|ops| - 1], ops[|ops| - 1];
      RunRoomy(front);
      ReachableCanonical(front);
      var bs := Run(INITIAL, front);
      match op
      case Alloc(size) => MallocRoomyIff(bs, size);
      case Dealloc(addr) =>
        var k := Find(bs, addr, 0);
        if k < |bs| {
          CoalesceRoomy(bs[k := bs[k].(free := true)]);
        }
    }
  }
}
