/** The block list behind the allocator of `lab3/mm.c`, and what each allocator operation
    does to it. The memory is not seen here: `Allocator` proves that the words written to
    memory follow these functions step by step. */
module BlockList {
  import opened Common

  const WSIZE: int := 4
  const DSIZE: int := 8
  const CHUNKSIZE: int := 0x1000

  /** A block: the address of its payload, its size in bytes with header and footer, and
      whether it is allocated. The header is the word before `addr`. */
  datatype Block = Block(addr: int, size: int, alloc: bool) {
    function End(): int { addr + size }
  }

  /** The allocator's state: where the heap starts, the address it may not grow past, its
      blocks in address order with the prologue first, and the next-fit pointer. */
  datatype Heap = Heap(base: int, limit: int, blocks: seq<Block>, rover: int)

  /** The end of the last block, which is also `mem_brk`. */
  function EndOf(bs: seq<Block>): int
    requires bs != []
  {
    bs[|bs| - 1].End()
  }

  function SumSizes(bs: seq<Block>): int {
    if bs == [] then 0 else bs[0].size + SumSizes(bs[1..])
  }

  // ---------------------------------------------------------------- tilings

  /** The blocks cover `[lo, hi)` without gap or overlap. */
  ghost predicate Tiles(lo: int, bs: seq<Block>, hi: int)
    decreases bs
  {
    if bs == [] then lo == hi
    else bs[0].addr == lo && bs[0].size >= DSIZE && Tiles(bs[0].End(), bs[1..], hi)
  }

  /** The address of block `k`, or the end of the list. */
  ghost function AddrAt(bs: seq<Block>, k: nat, hi: int): int
    requires k <= |bs|
  {
    if k < |bs| then bs[k].addr else hi
  }

  lemma {:induction false} TilesSplit(lo: int, bs: seq<Block>, hi: int, k: nat)
    requires Tiles(lo, bs, hi) && k <= |bs|
    ensures lo <= AddrAt(bs, k, hi) <= hi
    ensures Tiles(lo, bs[..k], AddrAt(bs, k, hi)) && Tiles(AddrAt(bs, k, hi), bs[k..], hi)
    decreases bs
  {
    if k == 0 {
      assert bs[..0] == [] && bs[0..] == bs;
      if bs != [] { TilesSplit(bs[0].End(), bs[1..], hi, 0); }
    } else {
      TilesSplit(bs[0].End(), bs[1..], hi, k - 1);
      assert bs[..k][1..] == bs[1..][..k - 1];
      assert bs[k..] == bs[1..][k - 1..];
    }
  }

  lemma {:induction false} TilesJoin(lo: int, xs: seq<Block>, mid: int, ys: seq<Block>, hi: int)
    requires Tiles(lo, xs, mid) && Tiles(mid, ys, hi)
    ensures Tiles(lo, xs + ys, hi)
    decreases xs
  {
    if xs == [] {
      assert xs + ys == ys;
    } else {
      TilesJoin(xs[0].End(), xs[1..], mid, ys, hi);
      assert (xs + ys)[1..] == xs[1..] + ys;
    }
  }

  /** Consecutive blocks touch, and block `k` lies inside the tiled range. */
  lemma TilesAt(lo: int, bs: seq<Block>, hi: int, k: nat)
    requires Tiles(lo, bs, hi) && k < |bs|
    ensures lo <= bs[k].addr && bs[k].size >= DSIZE
    ensures bs[k].End() == AddrAt(bs, k + 1, hi) <= hi
  {
    TilesSplit(lo, bs, hi, k);
    TilesSplit(bs[k].End(), bs[k + 1..], hi, 0);
    assert bs[k..][1..] == bs[k + 1..];
  }

  /** Blocks of a tiling lie in address order, one after the other. */
  lemma TilesOrdered(lo: int, bs: seq<Block>, hi: int, i: nat, j: nat)
    requires Tiles(lo, bs, hi) && i < j < |bs|
    ensures bs[i].End() <= bs[j].addr
  {
    TilesAt(lo, bs, hi, i);
    TilesSplit(lo, bs, hi, i + 1);
    TilesAt(bs[i].End(), bs[i + 1..], hi, j - i - 1);
  }

  lemma {:induction false} TilesSum(lo: int, bs: seq<Block>, hi: int)
    requires Tiles(lo, bs, hi)
    ensures SumSizes(bs) == hi - lo
    decreases bs
  {
    if bs != [] { TilesSum(bs[0].End(), bs[1..], hi); }
  }

  lemma TilesEnd(lo: int, bs: seq<Block>, hi: int)
    requires Tiles(lo, bs, hi) && bs != []
    ensures EndOf(bs) == hi
  {
    TilesAt(lo, bs, hi, |bs| - 1);
  }

  /** Replacing the run of blocks `[i, j)` by another tiling of the same range. */
  lemma TilesSplice(lo: int, bs: seq<Block>, hi: int, i: nat, j: nat, mid: seq<Block>)
    requires Tiles(lo, bs, hi) && i <= j <= |bs|
    requires Tiles(AddrAt(bs, i, hi), mid, AddrAt(bs, j, hi))
    ensures Tiles(lo, bs[..i] + mid + bs[j..], hi)
  {
    TilesSplit(lo, bs, hi, i);
    TilesSplit(lo, bs, hi, j);
    TilesJoin(lo, bs[..i], AddrAt(bs, i, hi), mid, AddrAt(bs, j, hi));
    TilesJoin(lo, bs[..i] + mid, AddrAt(bs, j, hi), bs[j..], hi);
  }

  // ---------------------------------------------------------------- the invariant

  predicate GoodSize(b: Block) {
    b.size >= 2 * DSIZE && b.size % DSIZE == 0
  }

  /** No two neighbours are both free. */
  predicate Coalesced(bs: seq<Block>) {
    forall i {:trigger bs[i]} :: 0 <= i < |bs| - 1 ==> bs[i].alloc || bs[i + 1].alloc
  }

  /** Like `Coalesced`, except around block `k`. */
  predicate CoalescedBut(bs: seq<Block>, k: int) {
    forall i {:trigger bs[i]} :: 0 <= i < |bs| - 1 && i != k - 1 && i != k ==> bs[i].alloc || bs[i + 1].alloc
  }

  predicate IsStart(bs: seq<Block>, p: int) {
    exists i :: 0 <= i < |bs| && bs[i].addr == p
  }

  /** Prologue first, blocks tile the heap up to `brk`, every later block has a legal size,
      and the next-fit pointer is the start of a block. */
  ghost predicate Shaped(h: Heap) {
    && h.base > 0 && h.base % DSIZE == 0 && h.limit - h.base < INT_LIMIT && h.limit <= SIZE_LIMIT
    && h.blocks != [] && h.blocks[0] == Block(h.base + DSIZE, DSIZE, true)
    && Tiles(h.base + DSIZE, h.blocks, EndOf(h.blocks))
    && EndOf(h.blocks) <= h.limit
    && (forall b :: b in h.blocks[1..] ==> GoodSize(b))
    && IsStart(h.blocks, h.rover)
  }

  ghost predicate WellFormed(h: Heap) {
    Shaped(h) && Coalesced(h.blocks)
  }

  /** The heap `mm_init` leaves before its first `extend_heap`: a prologue and nothing else. */
  function EmptyHeap(base: int, limit: int): Heap {
    Heap(base, limit, [Block(base + DSIZE, DSIZE, true)], base + DSIZE)
  }

  // ---------------------------------------------------------------- the operations

  /** The least index whose block starts at `p`, or the number of blocks. */
  function IndexOf(bs: seq<Block>, p: int): (k: nat)
    ensures k <= |bs|
  {
    if bs == [] || bs[0].addr == p then 0 else 1 + IndexOf(bs[1..], p)
  }

  lemma {:induction false} IndexOfIsLeast(bs: seq<Block>, p: int)
    ensures var k := IndexOf(bs, p);
            && (k < |bs| ==> bs[k].addr == p)
            && forall m :: 0 <= m < k ==> bs[m].addr != p
  {
    if bs != [] && bs[0].addr != p {
      IndexOfIsLeast(bs[1..], p);
      forall m | 0 <= m < IndexOf(bs, p) ensures bs[m].addr != p {
        if m > 0 { assert bs[m] == bs[1..][m - 1]; }
      }
    }
  }

  predicate Fits(b: Block, asize: int) {
    !b.alloc && asize <= b.size
  }

  /** The least index in `[i, j)` whose block fits, or `j`. */
  function FirstFit(bs: seq<Block>, i: nat, j: nat, asize: int): (k: nat)
    requires i <= j <= |bs|
    ensures i <= k <= j
    decreases j - i
  {
    if i == j || Fits(bs[i], asize) then i else FirstFit(bs, i + 1, j, asize)
  }

  lemma {:induction false} FirstFitIsLeast(bs: seq<Block>, i: nat, j: nat, asize: int)
    requires i <= j <= |bs|
    ensures var k := FirstFit(bs, i, j, asize);
            && (k < j ==> Fits(bs[k], asize))
            && forall m :: i <= m < k ==> !Fits(bs[m], asize)
    decreases j - i
  {
    if i != j && !Fits(bs[i], asize) { FirstFitIsLeast(bs, i + 1, j, asize); }
  }

  /** Next fit: search from the next-fit pointer to the end, then from the start up to it.
      The result is the number of blocks when nothing fits. */
  function FindFit(h: Heap, asize: int): (k: nat)
    requires h.blocks != []
    ensures k <= |h.blocks|
  {
    var n := |h.blocks|;
    var r := IndexOf(h.blocks, h.rover);
    var k := FirstFit(h.blocks, r, n, asize);
    if k < n then k
    else
      var k' := FirstFit(h.blocks, 0, r, asize);
      if k' < r then k' else n
  }

  /** The block size for a request, in the machine's 32-bit `size_t` arithmetic. */
  function AdjustedSize(size: nat): int {
    if size <= DSIZE then 2 * DSIZE
    else DSIZE * ((size + DSIZE + (DSIZE - 1)) % SIZE_LIMIT / DSIZE)
  }

  /** What `place` leaves of a free block of which the first `asize` bytes are taken. */
  function PlaceIn(b: Block, asize: int): seq<Block> {
    if b.size - asize >= 2 * DSIZE
    then [Block(b.addr, asize, true), Block(b.addr + asize, b.size - asize, false)]
    else [Block(b.addr, b.size, true)]
  }

  function Place(bs: seq<Block>, k: nat, asize: int): seq<Block>
    requires k < |bs|
  {
    bs[..k] + PlaceIn(bs[k], asize) + bs[k + 1..]
  }

  /** The free block to merge with on the left of `k` starts at `MergeLo`; the one on the
      right ends before index `MergeHi`. */
  function MergeLo(bs: seq<Block>, k: nat): (i: nat)
    requires k < |bs|
    ensures i <= k
  {
    if k > 0 && !bs[k - 1].alloc then k - 1 else k
  }

  function MergeHi(bs: seq<Block>, k: nat): (j: nat)
    requires k < |bs|
    ensures k < j <= |bs|
  {
    if k + 1 < |bs| && !bs[k + 1].alloc then k + 2 else k + 1
  }

  /** Block `k` and its free neighbours as one free block. */
  function Merged(bs: seq<Block>, k: nat): Block
    requires k < |bs|
  {
    var lo := bs[MergeLo(bs, k)].addr;
    Block(lo, bs[MergeHi(bs, k) - 1].End() - lo, false)
  }

  function Coalesce(h: Heap, k: nat): Heap
    requires k < |h.blocks|
  {
    var m := Merged(h.blocks, k);
    h.(blocks := h.blocks[..MergeLo(h.blocks, k)] + [m] + h.blocks[MergeHi(h.blocks, k)..],
       rover := if m.addr < h.rover < m.End() then m.addr else h.rover)
  }

  /** `extend_heap` after its `mem_sbrk` succeeded: a new free block at the end, coalesced. */
  function Extend(h: Heap, size: int): Heap
    requires h.blocks != []
  {
    Coalesce(h.(blocks := h.blocks + [Block(EndOf(h.blocks), size, false)]), |h.blocks|)
  }

  /** Whether the break can move up by `size`, which is passed as a C `int`. */
  predicate CanGrow(h: Heap, size: int)
    requires h.blocks != []
  {
    size < INT_LIMIT && EndOf(h.blocks) + size <= h.limit
  }

  /** `mm_malloc`: the new heap and the payload address, 0 for NULL. */
  function Malloc(h: Heap, size: nat): (Heap, int)
    requires h.blocks != []
  {
    var asize := AdjustedSize(size);
    var k := FindFit(h, asize);
    var extendSize := Max(asize, CHUNKSIZE);
    if size == 0 then (h, 0)
    else if k < |h.blocks| then
      (h.(blocks := Place(h.blocks, k, asize), rover := h.blocks[k].addr), h.blocks[k].addr)
    else if CanGrow(h, extendSize) then
      var g := Extend(h, extendSize);
      var last := |g.blocks| - 1;
      (g.(blocks := Place(g.blocks, last, asize)), g.blocks[last].addr)
    else (h, 0)
  }

  /** `p` is the payload address of an allocated block other than the prologue. */
  predicate Live(h: Heap, p: int) {
    exists i :: 1 <= i < |h.blocks| && h.blocks[i].addr == p && h.blocks[i].alloc
  }

  function MarkFree(bs: seq<Block>, k: nat): seq<Block>
    requires k < |bs|
  {
    bs[k := bs[k].(alloc := false)]
  }

  /** `mm_free` of the block that starts at `p`. */
  function Free(h: Heap, p: int): Heap
    requires IndexOf(h.blocks, p) < |h.blocks|
  {
    var k := IndexOf(h.blocks, p);
    Coalesce(h.(blocks := MarkFree(h.blocks, k)), k)
  }

  /** The heap after a successful `mm_init`. */
  function InitialHeap(base: int, limit: int): Heap {
    Extend(EmptyHeap(base, limit), CHUNKSIZE)
  }

  // ---------------------------------------------------------------- every operation keeps the invariant

  /** A free block is not the prologue, has a legal size, and lies in the heap. */
  lemma PlacedBlock(h: Heap, k: nat)
    requires Shaped(h) && k < |h.blocks|
    ensures h.base + DSIZE <= h.blocks[k].addr && h.blocks[k].End() <= EndOf(h.blocks)
    ensures h.blocks[k].size < INT_LIMIT && h.blocks[k].addr % 8 == 0
    ensures k > 0 ==> GoodSize(h.blocks[k])
    ensures !h.blocks[k].alloc ==> k > 0
  {
    TilesAt(h.base + DSIZE, h.blocks, EndOf(h.blocks), k);
    Aligned(h, k);
    if k > 0 { assert h.blocks[k] in h.blocks[1..]; }
  }

  lemma {:induction false} Aligned(h: Heap, k: nat)
    requires Shaped(h) && k < |h.blocks|
    ensures h.blocks[k].addr % 8 == 0
  {
    if k > 0 {
      Aligned(h, k - 1);
      TilesAt(h.base + DSIZE, h.blocks, EndOf(h.blocks), k - 1);
      if k > 1 { assert h.blocks[k - 1] in h.blocks[1..]; }
    }
  }

  /** Replacing a run of blocks after the prologue by a run of legal blocks of the same extent. */
  lemma SpliceShaped(h: Heap, i: nat, j: nat, mid: seq<Block>, r: int)
    requires Shaped(h) && 1 <= i < j <= |h.blocks|
    requires mid != [] && Tiles(h.blocks[i].addr, mid, h.blocks[j - 1].End())
    requires forall b :: b in mid ==> GoodSize(b)
    requires IsStart(h.blocks[..i] + mid + h.blocks[j..], r)
    ensures Shaped(h.(blocks := h.blocks[..i] + mid + h.blocks[j..], rover := r))
    ensures EndOf(h.blocks[..i] + mid + h.blocks[j..]) == EndOf(h.blocks)
  {
    var bs := h.blocks;
    var bs' := bs[..i] + mid + bs[j..];
    var lo, hi := h.base + DSIZE, EndOf(bs);
    TilesAt(lo, bs, hi, j - 1);
    TilesSplice(lo, bs, hi, i, j, mid);
    TilesEnd(lo, bs', hi);
    assert bs'[1..] == bs[1..i] + mid + bs[j..];
    forall b | b in bs'[1..] ensures GoodSize(b) {
      if b in bs[1..i] || b in bs[j..] {
        assert b in bs[1..];
      }
    }
  }

  lemma PlaceInTiles(b: Block, asize: int)
    requires GoodSize(b) && asize <= b.size && asize >= 2 * DSIZE && asize % 8 == 0
    ensures Tiles(b.addr, PlaceIn(b, asize), b.End())
    ensures forall c :: c in PlaceIn(b, asize) ==> GoodSize(c)
  {
  }

  /** A start outside the replaced run, or the start of the run, is still a start. */
  lemma StartsSurvive(bs: seq<Block>, i: nat, j: nat, mid: seq<Block>, p: int)
    requires i < j <= |bs| && mid != [] && mid[0].addr == bs[i].addr
    requires IsStart(bs, p) && forall m :: i < m < j ==> bs[m].addr != p
    ensures IsStart(bs[..i] + mid + bs[j..], p)
  {
    var bs' := bs[..i] + mid + bs[j..];
    var m :| 0 <= m < |bs| && bs[m].addr == p;
    if m < i {
      assert bs'[m] == bs[m];
    } else if m == i {
      assert bs'[i] == mid[0];
    } else {
      assert bs'[m - j + i + |mid|] == bs[m];
    }
  }

  /** The run that `Coalesce` merges: it starts after the prologue, is free throughout, and
      spans the merged block. */
  lemma MergedRun(h: Heap, k: nat)
    requires Shaped(h) && k < |h.blocks| && !h.blocks[k].alloc
    ensures var i, j, m := MergeLo(h.blocks, k), MergeHi(h.blocks, k), Merged(h.blocks, k);
            && 1 <= i < j <= |h.blocks| && m.addr == h.blocks[i].addr && m.End() == h.blocks[j - 1].End()
            && (forall n :: i <= n < j ==> !h.blocks[n].alloc)
            && Tiles(m.addr, [m], m.End()) && GoodSize(m)
  {
    var i, j := MergeLo(h.blocks, k), MergeHi(h.blocks, k);
    PlacedBlock(h, k);
    PlacedBlock(h, i);
    RunSize(h, i, j);
    assert [Merged(h.blocks, k)][1..] == [];
  }

  /** The extent of a run of blocks after the prologue is a legal size. */
  lemma {:induction false} RunSize(h: Heap, i: nat, j: nat)
    requires Shaped(h) && 1 <= i < j <= |h.blocks|
    ensures GoodSize(Block(h.blocks[i].addr, h.blocks[j - 1].End() - h.blocks[i].addr, false))
    decreases j
  {
    PlacedBlock(h, j - 1);
    if i + 1 < j {
      RunSize(h, i, j - 1);
      TilesAt(h.base + DSIZE, h.blocks, EndOf(h.blocks), j - 2);
    }
  }

  /** A block start strictly inside the merged range is the start of a merged block. */
  lemma StartInside(h: Heap, i: nat, j: nat, n: nat)
    requires Shaped(h) && i < j <= |h.blocks| && n < |h.blocks|
    ensures i < n < j <==> h.blocks[i].addr < h.blocks[n].addr < h.blocks[j - 1].End()
    ensures n == i <==> h.blocks[n].addr == h.blocks[i].addr
  {
    var lo, hi := h.base + DSIZE, EndOf(h.blocks);
    TilesAt(lo, h.blocks, hi, n);
    TilesAt(lo, h.blocks, hi, i);
    TilesAt(lo, h.blocks, hi, j - 1);
    if n < i { TilesOrdered(lo, h.blocks, hi, n, i); }
    if i < n { TilesOrdered(lo, h.blocks, hi, i, n); }
    if n < j - 1 { TilesOrdered(lo, h.blocks, hi, n, j - 1); }
    if j - 1 < n { TilesOrdered(lo, h.blocks, hi, j - 1, n); }
  }

  lemma CoalesceShaped(h: Heap, k: nat)
    requires Shaped(h) && k < |h.blocks| && !h.blocks[k].alloc
    ensures Shaped(Coalesce(h, k))
    ensures EndOf(Coalesce(h, k).blocks) == EndOf(h.blocks)
  {
    var i, j, m := MergeLo(h.blocks, k), MergeHi(h.blocks, k), Merged(h.blocks, k);
    MergedRun(h, k);
    var bs' := h.blocks[..i] + [m] + h.blocks[j..];
    var r := Coalesce(h, k).rover;
    var n :| 0 <= n < |h.blocks| && h.blocks[n].addr == h.rover;
    StartInside(h, i, j, n);
    if r == m.addr {
      assert bs'[i] == m;
    } else {
      forall p | i < p < j ensures h.blocks[p].addr != r {
        StartInside(h, i, j, p);
      }
      StartsSurvive(h.blocks, i, j, [m], r);
    }
    SpliceShaped(h, i, j, [m], r);
  }

  lemma CoalesceCoalesces(h: Heap, k: nat)
    requires k < |h.blocks| && CoalescedBut(h.blocks, k)
    ensures Coalesced(Coalesce(h, k).blocks)
  {
  }

  /** The block size for a request is the least multiple of 8 that leaves room for header and
      footer and is at least 16, exactly for the requests whose rounding does not wrap. */
  lemma AdjustedSizeCorrect(size: nat)
    requires size < SIZE_LIMIT
    ensures size + 15 < SIZE_LIMIT <==>
            var a := AdjustedSize(size);
            && a % 8 == 0 && a >= 2 * DSIZE && a >= size + DSIZE
            && forall x :: x % 8 == 0 && x >= 2 * DSIZE && x >= size + DSIZE ==> a <= x
  {
  }

  lemma PlaceCoalesced(bs: seq<Block>, k: nat, asize: int)
    requires Coalesced(bs) && k < |bs| && !bs[k].alloc
    ensures Coalesced(Place(bs, k, asize))
  {
    var bs', mid := Place(bs, k, asize), PlaceIn(bs[k], asize);
    forall p {:trigger bs'[p]} | 0 <= p < |bs'| - 1 ensures bs'[p].alloc || bs'[p + 1].alloc {
      if p + 1 < k {
        assert bs'[p] == bs[p] && bs'[p + 1] == bs[p + 1];
      } else if p + 1 == k || p == k {
        assert bs'[k] == mid[0];
      } else {
        var q := p - |mid| + 1;
        assert bs'[p + 1] == bs[q + 1];
        if q == k { assert !bs[k].alloc; } else { assert bs'[p] == bs[q]; }
      }
    }
  }

  lemma PlaceWellFormed(h: Heap, k: nat, asize: int, r: int)
    requires WellFormed(h) && k < |h.blocks| && Fits(h.blocks[k], asize)
    requires asize >= 2 * DSIZE && asize % 8 == 0
    requires r == h.rover || r == h.blocks[k].addr
    ensures WellFormed(h.(blocks := Place(h.blocks, k, asize), rover := r))
    ensures EndOf(Place(h.blocks, k, asize)) == EndOf(h.blocks)
  {
    var bs, mid := h.blocks, PlaceIn(h.blocks[k], asize);
    PlaceCoalesced(bs, k, asize);
    PlacedBlock(h, k);
    PlaceInTiles(bs[k], asize);
    if r == h.rover {
      StartsSurvive(bs, k, k + 1, mid, r);
    } else {
      assert Place(bs, k, asize)[k] == mid[0];
    }
    SpliceShaped(h, k, k + 1, mid, r);
  }

  /** The block that `place` carves out: its size, and that no allocated block is disturbed. */
  lemma PlaceAllocates(h: Heap, k: nat, asize: int)
    requires Shaped(h) && k < |h.blocks| && Fits(h.blocks[k], asize)
    requires asize >= 2 * DSIZE && asize % 8 == 0
    ensures var bs', b := Place(h.blocks, k, asize), PlaceIn(h.blocks[k], asize)[0];
            && b.alloc && b.addr == h.blocks[k].addr && (b.size == asize || b.size == asize + 8)
            && b.End() <= h.blocks[k].End()
            && k < |bs'| && bs'[k] == b
            && (forall c: Block :: c.alloc ==> (c in bs' <==> c in h.blocks || c == b))
            && (forall c :: c in h.blocks && c.alloc ==> c.End() <= b.addr || b.End() <= c.addr)
  {
    var bs, b := h.blocks, PlaceIn(h.blocks[k], asize)[0];
    var bs' := Place(bs, k, asize);
    PlacedBlock(h, k);
    forall c: Block | c.alloc ensures c in bs' <==> c in bs || c == b {
      assert bs == bs[..k] + [bs[k]] + bs[k + 1..];
    }
    forall c | c in bs && c.alloc ensures c.End() <= b.addr || b.End() <= c.addr {
      var m :| 0 <= m < |bs| && bs[m] == c;
      if m < k { TilesOrdered(h.base + DSIZE, bs, EndOf(bs), m, k); }
      if k < m { TilesOrdered(h.base + DSIZE, bs, EndOf(bs), k, m); }
    }
  }

  /** The list just after `mem_sbrk`: the new block is in place but not yet coalesced. */
  lemma AppendShaped(h: Heap, size: int)
    requires WellFormed(h) && size >= 2 * DSIZE && size % 8 == 0 && CanGrow(h, size)
    ensures var bs' := h.blocks + [Block(EndOf(h.blocks), size, false)];
            && Shaped(h.(blocks := bs')) && EndOf(bs') == EndOf(h.blocks) + size
            && CoalescedBut(bs', |h.blocks|)
  {
    var b := Block(EndOf(h.blocks), size, false);
    var bs' := h.blocks + [b];
    assert [b][1..] == [];
    TilesJoin(h.base + DSIZE, h.blocks, EndOf(h.blocks), [b], b.End());
    assert bs'[1..] == h.blocks[1..] + [b];
    var n :| 0 <= n < |h.blocks| && h.blocks[n].addr == h.rover;
    assert bs'[n] == h.blocks[n];
    forall i {:trigger bs'[i]} | 0 <= i < |bs'| - 1 && i != |h.blocks| - 1
      ensures bs'[i].alloc || bs'[i + 1].alloc
    {
      assert bs'[i] == h.blocks[i] && bs'[i + 1] == h.blocks[i + 1];
    }
  }

  /** `extend_heap` ends the list with a free block of at least `size` bytes and leaves the
      allocated blocks alone. */
  lemma ExtendWellFormed(h: Heap, size: int)
    requires WellFormed(h) && size >= 2 * DSIZE && size % 8 == 0 && CanGrow(h, size)
    ensures var g := Extend(h, size);
            && WellFormed(g) && EndOf(g.blocks) == EndOf(h.blocks) + size
            && g.base == h.base && g.limit == h.limit
            && g.blocks[|g.blocks| - 1] == Merged(h.blocks + [Block(EndOf(h.blocks), size, false)], |h.blocks|)
            && Fits(g.blocks[|g.blocks| - 1], size)
            && (forall c: Block :: c.alloc ==> (c in g.blocks <==> c in h.blocks))
  {
    var h' := h.(blocks := h.blocks + [Block(EndOf(h.blocks), size, false)]);
    var k := |h.blocks|;
    AppendShaped(h, size);
    CoalesceShaped(h', k);
    CoalesceCoalesces(h', k);
    MergedRun(h', k);
    CoalesceKeepsAllocated(h', k);
    TilesAt(h.base + DSIZE, h'.blocks, EndOf(h'.blocks), MergeLo(h'.blocks, k));
    TilesAt(h.base + DSIZE, h'.blocks, EndOf(h'.blocks), k);
  }

  lemma CoalesceKeepsAllocated(h: Heap, k: nat)
    requires Shaped(h) && k < |h.blocks| && !h.blocks[k].alloc
    ensures forall c: Block :: c.alloc ==> (c in Coalesce(h, k).blocks <==> c in h.blocks)
  {
  }

  /** What a caller may rely on: a new heap that is well formed, and either NULL with nothing
      changed, or an aligned block with room for `size` bytes that overlaps no allocated block
      and joins them. */
  lemma MallocCorrect(h: Heap, size: nat)
    requires WellFormed(h) && size + 15 < SIZE_LIMIT
    ensures var (g, p) := Malloc(h, size);
            && WellFormed(g) && g.base == h.base && g.limit == h.limit
            && (p == 0 ==> g == h)
            && (p != 0 ==> exists k :: IsNewBlock(h, g, p, size, k))
  {
    hide FindFit, Extend, Place, CanGrow, AdjustedSize, Tiles, Coalesced;
    var asize := AdjustedSize(size);
    var k := FindFit(h, asize);
    var extendSize := Max(asize, CHUNKSIZE);
    AdjustedSizeCorrect(size);
    if size != 0 {
      if k < |h.blocks| {
        FindFitFits(h, asize);
        PlaceAnswers(h, h, k, size, h.blocks[k].addr);
      } else if CanGrow(h, extendSize) {
        ExtendWellFormed(h, extendSize);
        var g := Extend(h, extendSize);
        PlaceAnswers(h, g, |g.blocks| - 1, size, g.rover);
      }
    }
  }

  /** Placing a request in a free block of `g`, which has the allocated blocks of `h`. */
  lemma PlaceAnswers(h: Heap, g: Heap, k: nat, size: nat, r: int)
    requires WellFormed(g) && size + 15 < SIZE_LIMIT
    requires k < |g.blocks| && Fits(g.blocks[k], AdjustedSize(size))
    requires r == g.rover || r == g.blocks[k].addr
    requires forall c: Block :: c.alloc ==> (c in g.blocks <==> c in h.blocks)
    ensures var g' := g.(blocks := Place(g.blocks, k, AdjustedSize(size)), rover := r);
            WellFormed(g') && IsNewBlock(h, g', g.blocks[k].addr, size, k)
  {
    AdjustedSizeCorrect(size);
    hide AdjustedSize;
    PlaceWellFormed(g, k, AdjustedSize(size), r);
    PlaceAllocates(g, k, AdjustedSize(size));
    PlacedBlock(g, k);
    BlocksBefore(g, k);
    TilesAt(g.base + DSIZE, g.blocks, EndOf(g.blocks), 0);
    TilesOrdered(g.base + DSIZE, g.blocks, EndOf(g.blocks), 0, k);
  }

  /** Block `k` of `g` is the answer to a request for `size` bytes on `h`. */
  ghost predicate IsNewBlock(h: Heap, g: Heap, p: int, size: nat, k: int) {
    && 1 <= k < |g.blocks|
    && var b := g.blocks[k];
    && b.alloc && b.addr == p && p % 8 == 0
    && (b.size == AdjustedSize(size) || b.size == AdjustedSize(size) + 8)
    && g.base + 2 * DSIZE <= p && p + size <= b.End() - DSIZE && b.End() <= EndOf(g.blocks)
    && (forall c: Block :: c.alloc ==> (c in g.blocks <==> c in h.blocks || c == b))
    && (forall c :: c in h.blocks && c.alloc ==> c.End() <= b.addr || b.End() <= c.addr)
  }

  lemma FindFitFits(h: Heap, asize: int)
    requires h.blocks != [] && FindFit(h, asize) < |h.blocks|
    ensures Fits(h.blocks[FindFit(h, asize)], asize)
  {
    var r := IndexOf(h.blocks, h.rover);
    FirstFitIsLeast(h.blocks, r, |h.blocks|, asize);
    FirstFitIsLeast(h.blocks, 0, r, asize);
  }

  /** The next-fit pointer is the start of the block found for it. */
  lemma RoverIndex(h: Heap)
    requires Shaped(h)
    ensures h.blocks != []
    ensures var r := IndexOf(h.blocks, h.rover);
            r < |h.blocks| && h.blocks[r].addr == h.rover && h.blocks[0].addr == h.base + DSIZE
  {
    IndexOfIsLeast(h.blocks, h.rover);
  }

  /** Blocks before block `r` start at lower addresses. */
  lemma BlocksBefore(h: Heap, r: nat)
    requires Shaped(h) && r < |h.blocks|
    ensures h.blocks[0].addr == h.base + DSIZE
    ensures forall i :: 0 <= i < r ==> h.blocks[i].addr < h.blocks[r].addr
  {
    forall i | 0 <= i < r ensures h.blocks[i].addr < h.blocks[r].addr {
      TilesOrdered(h.base + DSIZE, h.blocks, EndOf(h.blocks), i, r);
      TilesAt(h.base + DSIZE, h.blocks, EndOf(h.blocks), i);
    }
  }

  /** The next-fit pointer may be moved to any block. */
  lemma RoverMoves(h: Heap, k: nat)
    requires WellFormed(h) && k < |h.blocks|
    ensures WellFormed(h.(rover := h.blocks[k].addr)) && h.blocks[k].addr > 0
  {
    PlacedBlock(h, k);
  }

  /** The two-word prologue and nothing else. */
  lemma EmptyWellFormed(base: int, limit: int)
    requires 0 < base && base % 8 == 0 && base + 16 <= limit <= SIZE_LIMIT && limit - base < INT_LIMIT
    ensures WellFormed(EmptyHeap(base, limit)) && EndOf(EmptyHeap(base, limit).blocks) == base + 16
  {
  }

  /** Freeing marks one block; only around it may two free blocks now meet. */
  lemma MarkFreeShaped(h: Heap, k: nat)
    requires WellFormed(h) && 1 <= k < |h.blocks|
    ensures Shaped(h.(blocks := MarkFree(h.blocks, k))) && CoalescedBut(MarkFree(h.blocks, k), k)
    ensures EndOf(MarkFree(h.blocks, k)) == EndOf(h.blocks)
    ensures var b := MarkFree(h.blocks, k)[k];
            Tiles(b.addr, [b], b.End()) && MarkFree(h.blocks, k) == h.blocks[..k] + [b] + h.blocks[k + 1..]
  {
    var b := h.blocks[k].(alloc := false);
    PlacedBlock(h, k);
    assert [b][1..] == [];
    assert MarkFree(h.blocks, k) == h.blocks[..k] + [b] + h.blocks[k + 1..];
    var n :| 0 <= n < |h.blocks| && h.blocks[n].addr == h.rover;
    assert MarkFree(h.blocks, k)[n].addr == h.rover;
    SpliceShaped(h, k, k + 1, [b], h.rover);
  }

  /** A live payload address names one block, which is not the prologue. */
  lemma LiveIndex(h: Heap, p: int)
    requires Shaped(h) && Live(h, p)
    ensures var k := IndexOf(h.blocks, p);
            1 <= k < |h.blocks| && h.blocks[k].addr == p && h.blocks[k].alloc
  {
    var i :| 1 <= i < |h.blocks| && h.blocks[i].addr == p && h.blocks[i].alloc;
    IndexIs(h, i);
  }

  /** Blocks are told apart by their addresses. */
  lemma IndexIs(h: Heap, i: nat)
    requires Shaped(h) && i < |h.blocks|
    ensures IndexOf(h.blocks, h.blocks[i].addr) == i
  {
    var k := IndexOf(h.blocks, h.blocks[i].addr);
    IndexOfIsLeast(h.blocks, h.blocks[i].addr);
    if k < i { StartInside(h, i, i + 1, k); }
  }

  lemma FreeWellFormed(h: Heap, p: int)
    requires WellFormed(h) && Live(h, p)
    ensures IndexOf(h.blocks, p) < |h.blocks|
    ensures var g := Free(h, p);
            && WellFormed(g) && EndOf(g.blocks) == EndOf(h.blocks)
            && g.base == h.base && g.limit == h.limit
            && forall c: Block :: c.alloc ==> (c in g.blocks <==> c in h.blocks && c.addr != p)
  {
    LiveIndex(h, p);
    var k := IndexOf(h.blocks, p);
    var h' := h.(blocks := MarkFree(h.blocks, k));
    MarkFreeShaped(h, k);
    CoalesceShaped(h', k);
    CoalesceCoalesces(h', k);
    CoalesceKeepsAllocated(h', k);
    MarkFreeRemoves(h, k);
  }

  lemma MarkFreeRemoves(h: Heap, k: nat)
    requires Shaped(h) && 1 <= k < |h.blocks|
    ensures forall c: Block :: c.alloc ==> (c in MarkFree(h.blocks, k) <==> c in h.blocks && c.addr != h.blocks[k].addr)
  {
    var bs := MarkFree(h.blocks, k);
    forall c: Block | c.alloc ensures c in bs <==> c in h.blocks && c.addr != h.blocks[k].addr {
      if c in bs {
        var n :| 0 <= n < |bs| && bs[n] == c;
        IndexIs(h, n);
        IndexIs(h, k);
      }
      if c in h.blocks && c.addr != h.blocks[k].addr {
        var n :| 0 <= n < |h.blocks| && h.blocks[n] == c;
        assert bs[n] == c;
      }
    }
  }

  /** After `extend_heap` the request fits in the last block. */
  lemma PlaceLast(h: Heap, asize: int, extendSize: int)
    requires WellFormed(h) && CanGrow(h, extendSize)
    requires 2 * DSIZE <= asize <= extendSize && asize % 8 == 0 && extendSize % 8 == 0
    ensures var g := Extend(h, extendSize);
            var last := |g.blocks| - 1;
            && WellFormed(g) && Fits(g.blocks[last], asize)
            && WellFormed(g.(blocks := Place(g.blocks, last, asize)))
  {
    ExtendWellFormed(h, extendSize);
    var g := Extend(h, extendSize);
    PlaceWellFormed(g, |g.blocks| - 1, asize, g.rover);
  }

  /** A block that is live stays live, with the same size, when another one is allocated. */
  lemma StillLive(h: Heap, p: int, size: nat)
    requires WellFormed(h) && Live(h, p) && size + 15 < SIZE_LIMIT
    ensures var g := Malloc(h, size).0;
            var i, j := IndexOf(h.blocks, p), IndexOf(g.blocks, p);
            && Live(g, p) && i < |h.blocks| && 1 <= j < |g.blocks| && g.blocks[j] == h.blocks[i]
  {
    hide Malloc;
    var (g, q) := Malloc(h, size);
    LiveIndex(h, p);
    var b := h.blocks[IndexOf(h.blocks, p)];
    MallocCorrect(h, size);
    assert b in g.blocks;
    var n :| 0 <= n < |g.blocks| && g.blocks[n] == b;
    IndexIs(g, n);
    IndexIs(h, 0);
  }

  /** `mm_realloc`: the new heap and the payload address, 0 for NULL. */
  function Realloc(h: Heap, p: int, size: nat): (Heap, int)
    requires WellFormed(h) && (p == 0 || Live(h, p)) && size + 15 < SIZE_LIMIT
  {
    if size == 0 then
      if p == 0 then (h, 0) else LiveIndex(h, p); (Free(h, p), 0)
    else
      var (g, q) := Malloc(h, size);
      if p == 0 || q == 0 then (g, q) else StillLive(h, p, size); (Free(g, p), q)
  }

  /** What `mm_init` leaves of a fresh heap with room for its first 16 bytes, whether or not
      there is room for a block. */
  function FirstHeap(base: int, limit: int): Heap {
    if base + 16 + CHUNKSIZE <= limit then InitialHeap(base, limit) else EmptyHeap(base, limit)
  }

  lemma FirstWellFormed(base: int, limit: int)
    requires 0 < base && base % 8 == 0 && base + 16 <= limit <= SIZE_LIMIT && limit - base < INT_LIMIT
    ensures WellFormed(FirstHeap(base, limit)) && FirstHeap(base, limit).rover == base + 8
    ensures FirstHeap(base, limit).blocks ==
              [Block(base + 8, 8, true)] + if base + 4112 <= limit then [Block(base + 16, 4096, false)] else []
  {
    EmptyWellFormed(base, limit);
    if base + 16 + CHUNKSIZE <= limit { InitialWellFormed(base, limit); }
  }

  lemma InitialWellFormed(base: int, limit: int)
    requires 0 < base && base % 8 == 0 && base + 16 + CHUNKSIZE <= limit <= SIZE_LIMIT && limit - base < INT_LIMIT
    ensures WellFormed(InitialHeap(base, limit))
    ensures InitialHeap(base, limit).blocks == [Block(base + 8, 8, true), Block(base + 16, 4096, false)]
    ensures InitialHeap(base, limit).rover == base + 8
  {
  }
}
