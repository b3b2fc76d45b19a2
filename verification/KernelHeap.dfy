/**
  kernel/kmem.c as imperative code: block headers in memory, linked by address, changed in place
  by list-walking loops.  The ghost block list ties the headers to HeapSpec.
 */
module KernelHeap {
  import opened Bytes
  import opened HeapSpec

  const HEAP_MAGIC: word := 0xDEAD_1337
  const NULL: int := -1

  /** A block header; `next` is the address of the next header or NULL. */
  datatype Header = Header(size: nat, free: bool, magic: word, next: int)

  /** The header that stands for block k of the list. */
  function HeaderOf(bs: seq<Block>, k: nat): Header
    requires k < |bs|
  {
    Header(bs[k].size, bs[k].free, HEAP_MAGIC, if k + 1 < |bs| then bs[k + 1].addr else NULL)
  }

  ghost predicate Linked(mem: map<int, Header>, bs: seq<Block>) {
    forall k :: 0 <= k < |bs| ==> bs[k].addr in mem && mem[bs[k].addr] == HeaderOf(bs, k)
  }

  class Heap {
    var mem: map<int, Header>
    ghost var blocks: seq<Block>

    ghost predicate Valid()
      reads this
    {
      Inv(blocks) && Linked(mem, blocks)
    }

    /** kmem_init */
    constructor ()
      ensures Valid() && blocks == INITIAL
    {
      mem := map[0 := Header(HEAP_SIZE - HEADER, true, HEAP_MAGIC, NULL)];
      blocks := INITIAL;
      InitialIsOk();
    }

    /** kmalloc: first fit, splitting when a header and four bytes remain. */
    method Malloc(size: word) returns (p: int)
      requires Valid()
      modifies this
      ensures Valid()
      ensures (blocks, p) == HeapSpec.Malloc(old(blocks), size)
    {
      hide Tiles, Merged, Aligned, RoundUp, Take, Linked;
      if size == 0 {
        return NULL;
      }
      RoundUpIs(size);
      var n := RoundUp(size);
      var curr := 0;
      ghost var k := 0;
      HeadAtZero(blocks);
      while curr != NULL
        invariant 0 <= k <= |blocks|
        invariant curr == if k < |blocks| then blocks[k].addr else NULL
        invariant FirstFit(blocks, n, 0) == FirstFit(blocks, n, k)
        invariant mem == old(mem) && blocks == old(blocks)
        decreases |blocks| - k
      {
        LinkedAt(mem, blocks, k);
        if mem[curr].free && mem[curr].size >= n {
          TakeAt(curr, k, n);
          return curr + HEADER;
        }
        curr := mem[curr].next;
        k := k + 1;
      }
      p := NULL;
    }

    /** The splitting and marking of one block. */
    method TakeAt(curr: int, ghost k: nat, n: nat)
      requires Valid() && k < |blocks| && curr == blocks[k].addr
      requires blocks[k].free && blocks[k].size >= n && n % 4 == 0
      modifies this
      ensures Valid() && blocks == Take(old(blocks), k, n)
    {
      ghost var bs := blocks;
      TakeKeeps(bs, k, n);
      assert mem[curr] == HeaderOf(bs, k);
      var h := mem[curr];
      if h.size >= n + HEADER + 4 {
        var split := curr + HEADER + n;
        mem := mem[split := Header(h.size - n - HEADER, true, HEAP_MAGIC, h.next)];
        h := h.(next := split, size := n);
      }
      mem := mem[curr := h.(free := false)];
      blocks := Take(bs, k, n);
      TakeLinks(old(mem), mem, bs, k, n);
    }

    /** kfree: mark the block free, then walk the list once and absorb free successors. */
    method Free(p: int)
      requires Valid()
      requires p == NULL || exists k :: 0 <= k < |blocks| && blocks[k].addr == p - HEADER
      modifies this
      ensures Valid()
      ensures blocks == if p == NULL then old(blocks) else FreeAt(old(blocks), p - HEADER)
    {
      if p == NULL {
        return;
      }
      var block := p - HEADER;
      ghost var k :| 0 <= k < |blocks| && blocks[k].addr == block;
      assert mem[block] == HeaderOf(blocks, k);
      OthersElsewhere(blocks, k);
      if mem[block].magic != HEAP_MAGIC || mem[block].free {
        return;
      }
      assert Find(blocks, block, 0) == k;
      ReleaseKeeps(blocks, k);
      MarkTiles(blocks, k);
      MarkLinks(mem, blocks, k);
      mem := mem[block := mem[block].(free := true)];
      blocks := blocks[k := blocks[k].(free := true)];
      Walk();
    }

    /** The coalescing loop. */
    method Walk()
      requires Tiles(blocks, 0, HEAP_SIZE) && Linked(mem, blocks)
      modifies this
      ensures Linked(mem, blocks) && blocks == Coalesce(old(blocks))
    {
      var curr := 0;
      ghost var k := 0;
      HeadAtZero(blocks);
      while mem[curr].next != NULL
        invariant Tiles(blocks, 0, HEAP_SIZE) && Linked(mem, blocks)
        invariant 0 <= k < |blocks| && curr == blocks[k].addr
        invariant Coalesce(old(blocks)) == blocks[..k] + Coalesce(blocks[k..])
        decreases |blocks| - k
      {
        assert mem[curr] == HeaderOf(blocks, k) && k + 1 < |blocks|;
        var next := mem[curr].next;
        assert mem[next] == HeaderOf(blocks, k + 1);
        if mem[curr].free && mem[next].free {
          CoalesceJoins(blocks, k);
          JoinTiles(blocks, k);
          JoinLinks(mem, blocks, k);
          mem := mem[curr := mem[curr].(size := mem[curr].size + HEADER + mem[next].size, next := mem[next].next)];
          blocks := JoinAt(blocks, k);
        } else {
          CoalesceAdvances(blocks, k);
          curr := next;
          k := k + 1;
        }
      }
      assert mem[curr] == HeaderOf(blocks, k) && |blocks[k..]| == 1;
      assert blocks[..k] + blocks[k..] == blocks;
    }

    /** kmem_info: the sums account for every byte of the heap. */
    method Info() returns (used: nat, free: nat, total: nat)
      requires Valid()
      ensures used == SizeSum(blocks, false, |blocks|) && free == SizeSum(blocks, true, |blocks|)
      ensures total == HEAP_SIZE == used + free + HEADER * |blocks|
    {
      used, free, total := 0, 0, HEAP_SIZE;
      var curr := 0;
      ghost var k := 0;
      HeadAtZero(blocks);
      while curr != NULL
        invariant 0 <= k <= |blocks|
        invariant curr == if k < |blocks| then blocks[k].addr else NULL
        invariant used == SizeSum(blocks, false, k) && free == SizeSum(blocks, true, k)
        decreases |blocks| - k
      {
        assert mem[curr] == HeaderOf(blocks, k);
        if mem[curr].free {
          free := free + mem[curr].size;
        } else {
          used := used + mem[curr].size;
        }
        curr := mem[curr].next;
        k := k + 1;
      }
      AllBytes(blocks, |blocks|);
    }
  }

  /** Usable bytes of the free, or of the used, blocks among the first k. */
  function SizeSum(bs: seq<Block>, free: bool, k: nat): nat
    requires k <= |bs|
  {
    if k == 0 then 0 else SizeSum(bs, free, k - 1) + if bs[k - 1].free == free then bs[k - 1].size else 0
  }

  lemma {:induction false} AllBytes(bs: seq<Block>, k: nat)
    requires Tiles(bs, 0, HEAP_SIZE) && k <= |bs|
    ensures SizeSum(bs, true, k) + SizeSum(bs, false, k) + HEADER * k == Cut(bs, 0, k)
    ensures k == |bs| ==> Cut(bs, 0, k) == HEAP_SIZE
  {
    TilesSplit(bs, 0, HEAP_SIZE, k);
    if k > 0 {
      AllBytes(bs, k - 1);
      TilesSplit(bs, 0, HEAP_SIZE, k - 1);
    }
  }

  lemma LinkedAt(mem: map<int, Header>, bs: seq<Block>, k: nat)
    requires Linked(mem, bs) && k < |bs|
    ensures bs[k].addr in mem && mem[bs[k].addr] == HeaderOf(bs, k)
  {
  }

  lemma HeadAtZero(bs: seq<Block>)
    requires Tiles(bs, 0, HEAP_SIZE)
    ensures |bs| > 0 && bs[0].addr == 0
  {
  }

  lemma TakeLinks(mem: map<int, Header>, mem': map<int, Header>, bs: seq<Block>, k: nat, n: nat)
    requires Inv(bs) && Linked(mem, bs) && k < |bs| && bs[k].free && bs[k].size >= n
    requires var h := HeaderOf(bs, k);
             var c := Carve(bs[k], n);
             mem' == if |c| == 2 then mem[c[1].addr := Header(c[1].size, true, HEAP_MAGIC, h.next)]
                                         [bs[k].addr := Header(n, false, HEAP_MAGIC, c[1].addr)]
                     else mem[bs[k].addr := h.(free := false)]
    ensures Linked(mem', Take(bs, k, n))
  {
    hide Tiles, Merged, Aligned;
    var r, c := Take(bs, k, n), Carve(bs[k], n);
    OthersElsewhere(bs, k);
    forall i | 0 <= i < |r|
      ensures r[i].addr in mem' && mem'[r[i].addr] == HeaderOf(r, i)
    {
      if i < k {
        TilesApart(bs, 0, HEAP_SIZE, i, k);
        assert r[i] == bs[i] && r[i + 1].addr == bs[i + 1].addr;
      } else if i >= k + |c| {
        TilesApart(bs, 0, HEAP_SIZE, k, i - |c| + 1);
        assert r[i] == bs[i - |c| + 1] && (i + 1 < |r| ==> r[i + 1] == bs[i - |c| + 2]);
      } else if i == k + |c| - 1 {
        assert r[i] == c[|c| - 1] && (i + 1 < |r| ==> r[i + 1] == bs[k + 1]);
      }
    }
  }

  lemma MarkLinks(mem: map<int, Header>, bs: seq<Block>, k: nat)
    requires Inv(bs) && Linked(mem, bs) && k < |bs|
    ensures Linked(mem[bs[k].addr := mem[bs[k].addr].(free := true)], bs[k := bs[k].(free := true)])
  {
    OthersElsewhere(bs, k);
  }

  function JoinAt(bs: seq<Block>, k: nat): seq<Block>
    requires k + 1 < |bs|
  {
    bs[..k] + [Join(bs[k], bs[k + 1])] + bs[k + 2..]
  }

  /** One turn of the coalescing loop that merges. */
  lemma CoalesceJoins(bs: seq<Block>, k: nat)
    requires k + 1 < |bs| && bs[k].free && bs[k + 1].free
    ensures bs[..k] + Coalesce(bs[k..]) == JoinAt(bs, k)[..k] + Coalesce(JoinAt(bs, k)[k..])
  {
    var r := JoinAt(bs, k);
    assert r[k..] == [Join(bs[k], bs[k + 1])] + bs[k + 2..] && r[..k] == bs[..k];
    assert bs[k..][2..] == bs[k + 2..];
  }

  /** One turn of the coalescing loop that advances. */
  lemma CoalesceAdvances(bs: seq<Block>, k: nat)
    requires k + 1 < |bs| && !(bs[k].free && bs[k + 1].free)
    ensures bs[..k] + Coalesce(bs[k..]) == bs[..k + 1] + Coalesce(bs[k + 1..])
  {
    var rest := Coalesce(bs[k + 1..]);
    assert bs[k..][1..] == bs[k + 1..];
    assert Coalesce(bs[k..]) == [bs[k]] + rest;
    assert bs[..k] + ([bs[k]] + rest) == (bs[..k] + [bs[k]]) + rest;
    assert bs[..k + 1] == bs[..k] + [bs[k]];
  }

  lemma JoinTiles(bs: seq<Block>, k: nat)
    requires Tiles(bs, 0, HEAP_SIZE) && k + 1 < |bs|
    ensures Tiles(JoinAt(bs, k), 0, HEAP_SIZE)
  {
    var j, d := Join(bs[k], bs[k + 1]), bs[k + 2..];
    TilesSplit(bs, 0, HEAP_SIZE, k);
    TilesSplit(bs, 0, HEAP_SIZE, k + 1);
    TilesSplit(bs, 0, HEAP_SIZE, k + 2);
    assert ([j] + d)[1..] == d;
    TilesConcat(bs[..k], [j] + d, 0, j.addr, HEAP_SIZE);
    assert bs[..k] + ([j] + d) == JoinAt(bs, k);
  }

  /** Away from the join the list keeps its blocks, and their headers stay right. */
  lemma JoinElsewhere(mem: map<int, Header>, bs: seq<Block>, k: nat, i: nat)
    requires Tiles(bs, 0, HEAP_SIZE) && Linked(mem, bs) && k + 1 < |bs| && i < |JoinAt(bs, k)| && i != k
    ensures var r := JoinAt(bs, k);
            r[i].addr != bs[k].addr && r[i].addr in mem && mem[r[i].addr] == HeaderOf(r, i)
  {
    hide Tiles;
    var r := JoinAt(bs, k);
    if i < k {
      TilesApart(bs, 0, HEAP_SIZE, i, k);
      assert r[i] == bs[i] && r[i + 1].addr == bs[i + 1].addr;
    } else {
      TilesApart(bs, 0, HEAP_SIZE, k, i + 1);
      assert r[i] == bs[i + 1] && (i + 1 < |r| ==> r[i + 1] == bs[i + 2]);
    }
  }

  lemma JoinLinks(mem: map<int, Header>, bs: seq<Block>, k: nat)
    requires Tiles(bs, 0, HEAP_SIZE) && Linked(mem, bs) && k + 1 < |bs| && bs[k].free && bs[k + 1].free
    ensures var a, b := bs[k].addr, bs[k + 1].addr;
            Linked(mem[a := mem[a].(size := mem[a].size + HEADER + mem[b].size, next := mem[b].next)], JoinAt(bs, k))
  {
    hide Tiles;
    var r := JoinAt(bs, k);
    assert mem[bs[k].addr] == HeaderOf(bs, k) && mem[bs[k + 1].addr] == HeaderOf(bs, k + 1);
    assert r[k] == Join(bs[k], bs[k + 1]) && (k + 1 < |r| ==> r[k + 1] == bs[k + 2]);
    var a, b := bs[k].addr, bs[k + 1].addr;
    var mem' := mem[a := mem[a].(size := mem[a].size + HEADER + mem[b].size, next := mem[b].next)];
    forall i | 0 <= i < |r|
      ensures r[i].addr in mem' && mem'[r[i].addr] == HeaderOf(r, i)
    {
      if i != k {
        JoinElsewhere(mem, bs, k, i);
      }
    }
  }
}
