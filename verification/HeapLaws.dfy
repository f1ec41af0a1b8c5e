/** Laws of the allocator operations of `BlockList`, for every well-formed heap. */
module HeapLaws {
  import opened Common
  import opened BlockList

  // ---------------------------------------------------------------- next fit

  /** How many blocks the search passes from block `r` before it looks at block `m`. */
  function Distance(r: nat, m: nat, n: nat): int {
    if r <= m then m - r else m - r + n
  }

  /** `find_fit` returns the first fitting block in circular order from the next-fit pointer,
      and fails exactly when no block of the heap fits. */
  lemma FindFitIsNearest(h: Heap, asize: int)
    requires Shaped(h)
    ensures var n, r, k := |h.blocks|, IndexOf(h.blocks, h.rover), FindFit(h, asize);
            && r < n && h.blocks[r].addr == h.rover
            && (k == n <==> forall m :: 0 <= m < n ==> !Fits(h.blocks[m], asize))
            && (k < n ==>
                  && Fits(h.blocks[k], asize)
                  && forall m :: 0 <= m < n && Fits(h.blocks[m], asize) ==> Distance(r, k, n) <= Distance(r, m, n))
  {
    var n, r := |h.blocks|, IndexOf(h.blocks, h.rover);
    RoverIndex(h);
    FirstFitIsLeast(h.blocks, r, n, asize);
    FirstFitIsLeast(h.blocks, 0, r, asize);
  }

  // ---------------------------------------------------------------- failure

  /** `mm_malloc` returns NULL exactly for size 0, or when no block fits and the break cannot
      move; then nothing has changed. */
  lemma MallocFailsExactly(h: Heap, size: nat)
    requires WellFormed(h) && size + 15 < SIZE_LIMIT
    ensures var asize := AdjustedSize(size);
            Malloc(h, size).1 == 0 <==>
              || size == 0
              || ((forall m :: 0 <= m < |h.blocks| ==> !Fits(h.blocks[m], asize))
                  && h.limit < EndOf(h.blocks) + Max(asize, CHUNKSIZE))
    ensures Malloc(h, size).1 == 0 ==> Malloc(h, size).0 == h
  {
    var asize := AdjustedSize(size);
    FindFitIsNearest(h, asize);
    PlacedBlock(h, 0);
    AdjustedSizeCorrect(size);
    var k := FindFit(h, asize);
    if k < |h.blocks| {
      PlacedBlock(h, k);
    } else if CanGrow(h, Max(asize, CHUNKSIZE)) {
      ExtendWellFormed(h, Max(asize, CHUNKSIZE));
      var g := Extend(h, Max(asize, CHUNKSIZE));
      PlacedBlock(g, |g.blocks| - 1);
    }
  }

  /** The free block in which `mm_malloc` places a request: the one `find_fit` finds, or the
      last one of the grown heap. */
  function ChosenBlock(h: Heap, size: nat): Block
    requires h.blocks != []
  {
    var k := FindFit(h, AdjustedSize(size));
    if k < |h.blocks| then h.blocks[k]
    else
      var bs := Extend(h, Max(AdjustedSize(size), CHUNKSIZE)).blocks;
      bs[|bs| - 1]
  }

  /** Whenever `mm_malloc` does not return NULL, the free block it chose has room for the request
      exactly when rounding the request up did not wrap. */
  lemma FitHoldsRequest(h: Heap, size: nat)
    requires WellFormed(h) && size < SIZE_LIMIT && Malloc(h, size).1 != 0
    ensures var b := ChosenBlock(h, size);
            && !b.alloc && b.addr == Malloc(h, size).1
            && (size <= b.size - DSIZE <==> size + 15 < SIZE_LIMIT)
  {
    hide FindFit, Extend, AdjustedSize, Place;
    var asize := AdjustedSize(size);
    var k, e := FindFit(h, asize), Max(asize, CHUNKSIZE);
    AdjustedSizeCorrect(size);
    if k < |h.blocks| {
      FindFitFits(h, asize);
      PlacedBlock(h, k);
    } else {
      assert asize % 8 == 0 by { AdjustedSizeAligned(size); }
      ExtendWellFormed(h, e);
      var g := Extend(h, e);
      PlacedBlock(g, |g.blocks| - 1);
    }
  }

  lemma AdjustedSizeAligned(size: nat)
    ensures AdjustedSize(size) % 8 == 0
  {
  }

  /** A request that wraps: on every fresh heap, `mm_malloc` answers a request for 4294967288
      bytes with its 4096-byte block. */
  lemma WrappedRequestAccepted(base: int, limit: int)
    requires 0 < base && base % 8 == 0 && base + 16 + CHUNKSIZE <= limit <= SIZE_LIMIT && limit - base < INT_LIMIT
    ensures var h := InitialHeap(base, limit);
            && |h.blocks| == 2 && FindFit(h, AdjustedSize(0xFFFF_FFF8)) == 1 && h.blocks[1].size == CHUNKSIZE
            && Malloc(h, 0xFFFF_FFF8).1 == base + 16
  {
  }

  // ---------------------------------------------------------------- the next-fit pointer

  predicate AnyFits(h: Heap, asize: int) {
    exists b :: b in h.blocks && !b.alloc && asize <= b.size
  }

  lemma AnyFitsFound(h: Heap, asize: int)
    requires Shaped(h)
    ensures AnyFits(h, asize) <==> FindFit(h, asize) < |h.blocks|
  {
    hide FindFit;
    FindFitIsNearest(h, asize);
    if FindFit(h, asize) < |h.blocks| { assert h.blocks[FindFit(h, asize)] in h.blocks; }
  }

  /** Where `mm_malloc` leaves the next-fit pointer and the break: on the new block, with the
      break unmoved, when a block fitted; otherwise the pointer stays, and the heap has grown by
      the block size or by 4096 bytes. */
  lemma MallocMovesPointer(h: Heap, size: nat)
    requires WellFormed(h) && size + 15 < SIZE_LIMIT && Malloc(h, size).1 != 0
    ensures var (g, p), asize := Malloc(h, size), AdjustedSize(size);
            && g.blocks != []
            && (AnyFits(h, asize) ==> g.rover == p && EndOf(g.blocks) == EndOf(h.blocks))
            && (!AnyFits(h, asize) ==> g.rover == h.rover && EndOf(g.blocks) == EndOf(h.blocks) + Max(asize, 4096))
  {
    hide FindFit, Place, Coalesce, AdjustedSize;
    var asize := AdjustedSize(size);
    AdjustedSizeCorrect(size);
    AnyFitsFound(h, asize);
    var k, e := FindFit(h, asize), Max(asize, CHUNKSIZE);
    if k < |h.blocks| {
      FindFitFits(h, asize);
      PlaceWellFormed(h, k, asize, h.blocks[k].addr);
    } else {
      ExtendWellFormed(h, e);
      var g := Extend(h, e);
      PlaceWellFormed(g, |g.blocks| - 1, asize, g.rover);
      ExtendKeepsPointer(h, e);
    }
  }

  /** Growing the heap never moves the pointer: it was not inside the block that grew. */
  lemma ExtendKeepsPointer(h: Heap, size: int)
    requires WellFormed(h) && size >= 2 * DSIZE && size % 8 == 0 && CanGrow(h, size)
    ensures Extend(h, size).rover == h.rover
  {
    var h' := h.(blocks := h.blocks + [Block(EndOf(h.blocks), size, false)]);
    var k := |h.blocks|;
    AppendShaped(h, size);
    var n :| 0 <= n < |h.blocks| && h.blocks[n].addr == h.rover;
    assert h'.blocks[n] == h.blocks[n];
    StartInside(h', MergeLo(h'.blocks, k), k + 1, n);
  }

  /** The pointer stays where it is if that is still a block, and otherwise falls back to the
      start of the block around it. */
  ghost predicate PointerFollows(bs: seq<Block>, was: int, now: int) {
    if IsStart(bs, was) then now == was else exists b :: b in bs && b.addr == now < was < b.End()
  }

  lemma CoalesceMovesPointer(h: Heap, k: nat)
    requires Shaped(h) && k < |h.blocks| && !h.blocks[k].alloc
    ensures PointerFollows(Coalesce(h, k).blocks, h.rover, Coalesce(h, k).rover)
  {
    var i, m, g := MergeLo(h.blocks, k), Merged(h.blocks, k), Coalesce(h, k);
    CoalesceShaped(h, k);
    MergedRun(h, k);
    assert g.blocks[i] == m;
    if m.addr < h.rover < m.End() {
      if IsStart(g.blocks, h.rover) {
        var n :| 0 <= n < |g.blocks| && g.blocks[n].addr == h.rover;
        StartInside(g, i, i + 1, n);
      }
    }
  }

  /** Where `mm_free` leaves the next-fit pointer. */
  lemma FreeMovesPointer(h: Heap, p: int)
    requires WellFormed(h) && Live(h, p)
    ensures IndexOf(h.blocks, p) < |h.blocks|
    ensures PointerFollows(Free(h, p).blocks, h.rover, Free(h, p).rover)
  {
    LiveIndex(h, p);
    var k := IndexOf(h.blocks, p);
    MarkFreeShaped(h, k);
    CoalesceMovesPointer(h.(blocks := MarkFree(h.blocks, k)), k);
  }

  // ---------------------------------------------------------------- realloc

  /** Block `b` of `f` answers a request for `size` bytes in place of the block at `p` of `h`,
      and nothing else that is allocated has changed. */
  ghost predicate IsReplacement(h: Heap, f: Heap, p: int, q: int, size: nat, b: Block) {
    && b.alloc && b.addr == q && q % 8 == 0
    && (b.size == AdjustedSize(size) || b.size == AdjustedSize(size) + 8)
    && h.base + 16 <= q && q + size <= b.End() - 8
    && f.blocks != [] && b.End() <= EndOf(f.blocks)
    && (forall c: Block :: c.alloc ==> (c in f.blocks <==> c == b || (c in h.blocks && c.addr != p)))
    && (forall c :: c in h.blocks && c.alloc ==> c.End() <= q || b.End() <= c.addr)
  }

  /** `mm_realloc` in all its cases. Size 0 frees the block, if there is one; NULL for another
      size means that `mm_malloc` failed and nothing has changed; and otherwise a new block has
      taken the place of the old one, or has joined the others when there was no old one. */
  lemma ReallocCorrect(h: Heap, p: int, size: nat)
    requires WellFormed(h) && (p == 0 || Live(h, p)) && size + 15 < SIZE_LIMIT
    ensures var (f, q) := Realloc(h, p, size);
            && WellFormed(f) && f.base == h.base && f.limit == h.limit
            && (size == 0 ==> q == 0 && (p == 0 ==> f == h) && !Live(f, p) && EndOf(f.blocks) == EndOf(h.blocks)
                              && forall c: Block :: c.alloc ==> (c in f.blocks <==> c in h.blocks && c.addr != p))
            && (size != 0 ==> (q == 0 <==> Malloc(h, size).1 == 0))
            && (size != 0 && q == 0 ==> f == h)
            && (q != 0 ==> exists b :: IsReplacement(h, f, p, q, size, b))
  {
    hide Malloc, Free, AdjustedSize, Coalesced, Tiles;
    NoneAtNull(h);
    if size == 0 {
      if p != 0 {
        FreeWellFormed(h, p);
        NotLive(Free(h, p), p);
      }
    } else {
      MallocCorrect(h, size);
      var (g, q) := Malloc(h, size);
      if q != 0 {
        var k :| IsNewBlock(h, g, q, size, k);
        var b := g.blocks[k];
        if p != 0 {
          StillLive(h, p, size);
          FreeWellFormed(g, p);
          LiveIndex(h, p);
          assert h.blocks[IndexOf(h.blocks, p)] in h.blocks;
          BlockThere(h, p);
        }
        assert IsReplacement(h, Realloc(h, p, size).0, p, q, size, b);
      }
    }
  }

  /** No block is at address 0. */
  lemma NoneAtNull(h: Heap)
    requires Shaped(h)
    ensures !Live(h, 0) && forall c :: c in h.blocks ==> c.addr > 0 && c.size >= DSIZE
  {
    forall c | c in h.blocks ensures c.addr > 0 && c.size >= DSIZE {
      var n :| 0 <= n < |h.blocks| && h.blocks[n] == c;
      PlacedBlock(h, n);
    }
  }

  lemma NotLive(h: Heap, p: int)
    requires Shaped(h) && forall c :: c in h.blocks && c.alloc ==> c.addr != p
    ensures !Live(h, p)
  {
  }

  lemma BlockThere(h: Heap, p: int)
    requires Shaped(h) && Live(h, p)
    ensures exists c :: c in h.blocks && c.alloc && c.addr == p && c.size >= DSIZE
  {
    NoneAtNull(h);
    var i :| 1 <= i < |h.blocks| && h.blocks[i].addr == p && h.blocks[i].alloc;
    assert h.blocks[i] in h.blocks;
  }

  /** Where `mm_realloc` of a live block leaves the next-fit pointer: on the new block when a
      free block fitted; otherwise it only follows the merging of the old block. */
  lemma ReallocMovesPointer(h: Heap, p: int, size: nat)
    requires WellFormed(h) && Live(h, p) && p != 0 && 0 < size && size + 15 < SIZE_LIMIT
    requires Realloc(h, p, size).1 != 0
    ensures var (f, q) := Realloc(h, p, size);
            if AnyFits(h, AdjustedSize(size)) then f.rover == q
            else PointerFollows(f.blocks, h.rover, f.rover)
  {
    hide Malloc, Free, AdjustedSize, Coalesced, Tiles, AnyFits;
    var (g, q) := Malloc(h, size);
    ReallocCorrect(h, p, size);
    MallocMovesPointer(h, size);
    MallocCorrect(h, size);
    StillLive(h, p, size);
    FreeMovesPointer(g, p);
    var f := Realloc(h, p, size).0;
    var b :| IsReplacement(h, f, p, q, size, b);
    assert b in f.blocks;
    var n :| 0 <= n < |f.blocks| && f.blocks[n] == b;
    assert IsStart(f.blocks, q);
  }

  // ---------------------------------------------------------------- free undoes malloc

  /** Coalescing what `place` left of a free block rebuilds that block, split or not. */
  lemma MergeUndoesPlace(h: Heap, k: nat, asize: int)
    requires 0 < k < |h.blocks| && !h.blocks[k].alloc
    requires h.blocks[k - 1].alloc && (k + 1 < |h.blocks| ==> h.blocks[k + 1].alloc)
    ensures var bs' := Place(h.blocks, k, asize);
            k < |bs'| && Coalesce(h.(blocks := MarkFree(bs', k)), k).blocks == h.blocks
  {
  }

  lemma FreeUndoesPlace(h: Heap, k: nat, asize: int, r: int)
    requires WellFormed(h) && k < |h.blocks| && Fits(h.blocks[k], asize)
    requires asize >= 2 * DSIZE && asize % 8 == 0
    requires r == h.rover || r == h.blocks[k].addr
    ensures var g := h.(blocks := Place(h.blocks, k, asize), rover := r);
            && IndexOf(g.blocks, h.blocks[k].addr) == k < |g.blocks|
            && Free(g, h.blocks[k].addr).blocks == h.blocks
  {
    hide Coalesce;
    var g := h.(blocks := Place(h.blocks, k, asize), rover := r);
    PlacedBlock(h, k);
    PlaceWellFormed(h, k, asize, r);
    assert g.blocks[k] == PlaceIn(h.blocks[k], asize)[0];
    IndexIs(g, k);
    assert h.blocks[k - 1].alloc;
    MergeUndoesPlace(h.(rover := r), k, asize);
  }

  /** Freeing what `mm_malloc` just returned gives back the block list it started from; when
      the heap had to grow, the grown list. */
  lemma FreeUndoesMalloc(h: Heap, size: nat)
    requires WellFormed(h) && size + 15 < SIZE_LIMIT && Malloc(h, size).1 != 0
    ensures var (g, p) := Malloc(h, size);
            && IndexOf(g.blocks, p) < |g.blocks|
            && Free(g, p).blocks ==
               if FindFit(h, AdjustedSize(size)) < |h.blocks| then h.blocks
               else Extend(h, Max(AdjustedSize(size), CHUNKSIZE)).blocks
  {
    var asize := AdjustedSize(size);
    var k := FindFit(h, asize);
    AdjustedSizeCorrect(size);
    if k < |h.blocks| {
      FindFitFits(h, asize);
      FreeUndoesPlace(h, k, asize, h.blocks[k].addr);
    } else {
      var e := Max(asize, CHUNKSIZE);
      ExtendWellFormed(h, e);
      var g := Extend(h, e);
      FreeUndoesPlace(g, |g.blocks| - 1, asize, g.rover);
    }
  }

  // ---------------------------------------------------------------- conservation

  /** The blocks after the prologue fill the heap but for 16 bytes. */
  lemma SizesFillHeap(h: Heap)
    requires Shaped(h)
    ensures SumSizes(h.blocks[1..]) == EndOf(h.blocks) - h.base - 16
  {
    TilesSum(h.base + DSIZE, h.blocks, EndOf(h.blocks));
  }

  /** A heap with nothing allocated is one free block (or has never grown). */
  lemma AllFreeIsOneBlock(h: Heap)
    requires WellFormed(h) && EndOf(h.blocks) > h.base + 16
    requires forall i :: 1 <= i < |h.blocks| ==> !h.blocks[i].alloc
    ensures h.blocks == [Block(h.base + 8, 8, true), Block(h.base + 16, EndOf(h.blocks) - h.base - 16, false)]
  {
    TilesAt(h.base + DSIZE, h.blocks, EndOf(h.blocks), 0);
    TilesAt(h.base + DSIZE, h.blocks, EndOf(h.blocks), 1);
    if |h.blocks| > 2 {
      assert false;
    }
  }
}
