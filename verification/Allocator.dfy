/** `lab3/mm.c`: an implicit-list allocator whose headers and footers are words in the same
    memory as the payloads. Each method is proved against a function of `BlockList`. */
module Allocator {
  import opened Common
  import opened RawMemory
  import opened BlockList
  import MemLib
  import HeapLaws

  // ---------------------------------------------------------------- words and blocks

  /** `PACK`: the bitwise or of a size and an allocated bit. */
  function Pack(size: int, alloc: bool): (w: int)
    ensures size % 8 == 0 ==> SizeOf(w) == size && AllocOf(w) == alloc
    ensures size <= w <= size + 1
  {
    if alloc && size % 2 == 0 then size + 1 else size
  }

  /** `GET_SIZE` of a word: all but its low three bits. */
  function SizeOf(w: int): int { w - w % 8 }

  /** `GET_ALLOC` of a word: its lowest bit. */
  function AllocOf(w: int): bool { w % 2 == 1 }

  /** Header and footer of `b`, the words around its payload, both record `b`. */
  ghost predicate Tagged(s: seq<byte>, b: Block) {
    && 4 <= b.addr && b.size >= DSIZE && b.addr + b.size - 4 <= |s|
    && WordAt(s, b.addr - 4) == Pack(b.size, b.alloc)
    && WordAt(s, b.addr + b.size - 8) == Pack(b.size, b.alloc)
  }

  ghost predicate AllTagged(s: seq<byte>, bs: seq<Block>) {
    forall b :: b in bs ==> Tagged(s, b)
  }

  /** The memory `s` holds the block list `bs`, closed by the epilogue header. */
  ghost predicate Represents(s: seq<byte>, bs: seq<Block>) {
    && bs != []
    && AllTagged(s, bs)
    && 4 <= EndOf(bs) <= |s|
    && WordAt(s, EndOf(bs) - 4) == Pack(0, true)
  }

  /** Every allocated block of `bs` is still a block of `bs'`, with the same payload bytes. */
  ghost predicate LiveKept(s: seq<byte>, bs: seq<Block>, t: seq<byte>, bs': seq<Block>) {
    forall b :: b in bs && b.alloc ==> b in bs' && SameInside(s, t, b.addr, b.End() - DSIZE)
  }

  lemma SameEverywhere(s: seq<byte>, lo: int, hi: int)
    ensures SameOutside(s, s, lo, hi)
  {
  }

  lemma OutsideTrans(s: seq<byte>, t: seq<byte>, u: seq<byte>, lo1: int, hi1: int, lo2: int, hi2: int, lo: int, hi: int)
    requires SameOutside(s, t, lo1, hi1) && SameOutside(t, u, lo2, hi2)
    requires lo <= lo1 && hi1 <= hi && lo <= lo2 && hi2 <= hi
    ensures SameOutside(s, u, lo, hi) && |s| == |t| == |u|
  {
  }

  lemma WordFrame(s: seq<byte>, t: seq<byte>, p: int, lo: int, hi: int)
    requires 0 <= p && p + 4 <= |s| && SameOutside(s, t, lo, hi)
    requires p + 4 <= lo || hi <= p
    ensures WordAt(t, p) == WordAt(s, p)
  {
    DigitsFrame(s, t, p, p + 4);
  }

  /** A tag lies inside its block's extent, so bytes changed elsewhere do not matter. */
  lemma TaggedFrame(s: seq<byte>, t: seq<byte>, b: Block, lo: int, hi: int)
    requires Tagged(s, b) && SameOutside(s, t, lo, hi)
    requires b.End() - 4 <= lo || hi <= b.addr - 4
    ensures Tagged(t, b)
  {
    WordFrame(s, t, b.addr - 4, lo, hi);
    WordFrame(s, t, b.End() - 8, lo, hi);
  }

  /** Blocks outside the run `[i, j)` keep their tags when only the run's extent is written. */
  lemma OutsideKeepsTags(s: seq<byte>, t: seq<byte>, bs: seq<Block>, i: nat, j: nat, m: nat)
    requires bs != [] && Tiles(bs[0].addr, bs, EndOf(bs)) && i < j <= |bs|
    requires m < |bs| && (m < i || j <= m) && Tagged(s, bs[m])
    requires SameOutside(s, t, bs[i].addr - 4, bs[j - 1].End() - 4)
    ensures Tagged(t, bs[m])
  {
    if m < i {
      TilesOrdered(bs[0].addr, bs, EndOf(bs), m, i);
    } else {
      TilesOrdered(bs[0].addr, bs, EndOf(bs), j - 1, m);
    }
    TaggedFrame(s, t, bs[m], bs[i].addr - 4, bs[j - 1].End() - 4);
  }

  /** Writing inside a payload leaves every header and footer alone. */
  lemma TagsSurvivePayloadWrites(s: seq<byte>, t: seq<byte>, bs: seq<Block>, k: nat, lo: int, hi: int)
    requires Represents(s, bs) && Tiles(bs[0].addr, bs, EndOf(bs)) && k < |bs|
    requires SameOutside(s, t, lo, hi) && bs[k].addr <= lo && hi <= bs[k].End() - DSIZE
    ensures Represents(t, bs)
  {
    TilesAt(bs[0].addr, bs, EndOf(bs), k);
    WordFrame(s, t, EndOf(bs) - 4, lo, hi);
    forall b | b in bs ensures Tagged(t, b) {
      var m :| 0 <= m < |bs| && bs[m] == b;
      if m != k {
        OutsideKeepsTags(s, t, bs, k, k + 1, m);
      } else {
        WordFrame(s, t, b.addr - 4, lo, hi);
        WordFrame(s, t, b.End() - 8, lo, hi);
      }
    }
  }

  /** The heart of every operation: rewriting a run of blocks `[i, j)` in place, when the new
      run `mid` is tagged and nothing outside the run's extent was written. */
  lemma Splice(s: seq<byte>, t: seq<byte>, bs: seq<Block>, i: nat, j: nat, mid: seq<Block>)
    requires Represents(s, bs) && Tiles(bs[0].addr, bs, EndOf(bs)) && i < j <= |bs|
    requires mid != [] && Tiles(bs[i].addr, mid, bs[j - 1].End()) && AllTagged(t, mid)
    requires SameOutside(s, t, bs[i].addr - 4, bs[j - 1].End() - 4)
    ensures var bs' := bs[..i] + mid + bs[j..];
            && Tiles(bs[0].addr, bs', EndOf(bs)) && EndOf(bs') == EndOf(bs)
            && Represents(t, bs')
  {
    var lo, hi := bs[0].addr, EndOf(bs);
    var bs' := bs[..i] + mid + bs[j..];
    assert Tiles(lo, bs', hi) && EndOf(bs') == hi by {
      TilesAt(lo, bs, hi, j - 1);
      TilesSplice(lo, bs, hi, i, j, mid);
      TilesEnd(lo, bs', hi);
    }
    assert WordAt(t, hi - 4) == WordAt(s, hi - 4) by {
      TilesAt(lo, bs, hi, j - 1);
      WordFrame(s, t, hi - 4, bs[i].addr - 4, bs[j - 1].End() - 4);
    }
    forall b | b in bs' ensures Tagged(t, b) {
      if b in bs[..i] {
        var m :| 0 <= m < i && bs[m] == b;
        OutsideKeepsTags(s, t, bs, i, j, m);
      } else if b in bs[j..] {
        var m :| j <= m < |bs| && bs[m] == b;
        OutsideKeepsTags(s, t, bs, i, j, m);
      }
    }
  }

  /** Blocks outside the run `[i, j)` keep their payloads when only the run's extent is written. */
  lemma OutsideKeepsPayload(s: seq<byte>, t: seq<byte>, bs: seq<Block>, i: nat, j: nat, m: nat)
    requires bs != [] && Tiles(bs[0].addr, bs, EndOf(bs)) && i < j <= |bs|
    requires m < |bs| && (m < i || j <= m)
    requires SameOutside(s, t, bs[i].addr - 4, bs[j - 1].End() - 4)
    ensures SameInside(s, t, bs[m].addr, bs[m].End() - DSIZE)
  {
    hide Tiles;
    if m < i {
      TilesOrdered(bs[0].addr, bs, EndOf(bs), m, i);
    } else {
      TilesOrdered(bs[0].addr, bs, EndOf(bs), j - 1, m);
    }
  }

  /** Rewriting a run of free blocks keeps every allocated block and its payload. */
  lemma SpliceKeepsLive(s: seq<byte>, t: seq<byte>, bs: seq<Block>, i: nat, j: nat, mid: seq<Block>)
    requires bs != [] && Tiles(bs[0].addr, bs, EndOf(bs)) && i < j <= |bs|
    requires forall m :: i <= m < j ==> !bs[m].alloc
    requires SameOutside(s, t, bs[i].addr - 4, bs[j - 1].End() - 4)
    ensures LiveKept(s, bs, t, bs[..i] + mid + bs[j..])
  {
    hide Tiles, SameInside, SameOutside;
    forall b | b in bs && b.alloc
      ensures b in bs[..i] + mid + bs[j..] && SameInside(s, t, b.addr, b.End() - DSIZE)
    {
      var m :| 0 <= m < |bs| && bs[m] == b;
      assert m < i || j <= m;
      assert b in bs[..i] || b in bs[j..] by {
        if m < i { assert bs[..i][m] == b; } else { assert bs[j..][m - j] == b; }
      }
      OutsideKeepsPayload(s, t, bs, i, j, m);
    }
  }

  // ---------------------------------------------------------------- the pointer macros

  /** `HDRP`: the header of the block at `bp`. */
  function Hdrp(bp: int): int { bp - WSIZE }

  /** `FTRP`: the footer of the block at `bp`, found through its header. */
  function Ftrp(m: array<byte>, bp: int): int
    requires 4 <= bp <= m.Length
    reads m
  {
    bp + SizeOf(Get(m, Hdrp(bp))) - DSIZE
  }

  /** `NEXT_BLKP`: the next block, found through the header. */
  function NextBlkp(m: array<byte>, bp: int): int
    requires 4 <= bp <= m.Length
    reads m
  {
    bp + SizeOf(Get(m, bp - WSIZE))
  }

  /** `PREV_BLKP`: the previous block, found through its footer. */
  function PrevBlkp(m: array<byte>, bp: int): int
    requires 8 <= bp && bp - 4 <= m.Length
    reads m
  {
    bp - SizeOf(Get(m, bp - DSIZE))
  }

  /** `PUT(HDRP(bp), PACK(size, alloc)); PUT(FTRP(bp), PACK(size, alloc))` */
  method PutTags(m: array<byte>, bp: int, size: int, alloc: bool)
    requires 4 <= bp && size >= DSIZE && size % 8 == 0 && bp + size - 4 <= m.Length
    requires size < INT_LIMIT
    modifies m
    ensures Tagged(m[..], Block(bp, size, alloc))
    ensures SameOutside(old(m[..]), m[..], bp - 4, bp + size - 4)
  {
    hide WordAt, SizeOf, AllocOf, Pack;
    Put(m, Hdrp(bp), Pack(size, alloc));
    ghost var s := m[..];
    assert Ftrp(m, bp) == bp + size - 8;
    Put(m, Ftrp(m, bp), Pack(size, alloc));
    WordFrame(s, m[..], bp - 4, bp + size - 8, bp + size - 4);
  }

  lemma MultiplesOf8(x: int, y: int)
    requires x % 8 == 0 && y % 8 == 0
    ensures (x + y) % 8 == 0 && (x - y) % 8 == 0
  {
  }

  /** Reading a tag gives back the block's size and allocated bit. */
  lemma TagReads(s: seq<byte>, b: Block)
    requires Tagged(s, b) && b.size % 8 == 0
    ensures SizeOf(WordAt(s, b.addr - 4)) == b.size && AllocOf(WordAt(s, b.addr - 4)) == b.alloc
    ensures SizeOf(WordAt(s, b.addr + b.size - 8)) == b.size && AllocOf(WordAt(s, b.addr + b.size - 8)) == b.alloc
  {
  }

  /** The memory writes of `place`. */
  method PlaceTags(m: array<byte>, bp: int, asize: int, ghost b: Block)
    requires Tagged(m[..], b) && b.addr == bp && Fits(b, asize) && GoodSize(b) && b.size < INT_LIMIT
    requires asize >= 2 * DSIZE && asize % 8 == 0
    modifies m
    ensures AllTagged(m[..], PlaceIn(b, asize))
    ensures SameOutside(old(m[..]), m[..], b.addr - 4, b.End() - 4)
  {
    hide WordAt, SizeOf, AllocOf, Pack;
    TagReads(m[..], b);
    var csize := SizeOf(Get(m, Hdrp(bp)));
    assert csize == b.size;
    if csize - asize >= 2 * DSIZE {
      PutTags(m, bp, asize, true);
      ghost var s1 := m[..];
      TagReads(s1, Block(bp, asize, true));
      MultiplesOf8(csize, asize);
      var next := NextBlkp(m, bp);
      assert next == bp + asize;
      PutTags(m, next, csize - asize, false);
      TaggedFrame(s1, m[..], Block(bp, asize, true), next - 4, bp + csize - 4);
    } else {
      PutTags(m, bp, csize, true);
    }
  }

  /** The free block `b` together with those of its neighbours `l` and `r` that are free. */
  function Joined(l: Block, b: Block, r: Block): Block {
    var lo := if l.alloc then b.addr else l.addr;
    var hi := if r.alloc then b.End() else r.End();
    Block(lo, hi - lo, false)
  }

  /** The reads and writes of `coalesce`, in its order; `r` may be the epilogue. The
      block pointer returned is that of the merged block, and `merged` is false in case 1. */
  method CoalesceTags(m: array<byte>, bp0: int, ghost l: Block, ghost b: Block, ghost r: Block)
    returns (bp: int, merged: bool)
    requires Tagged(m[..], l) && Tagged(m[..], b) && !b.alloc && b.addr == bp0
    requires l.End() == b.addr && b.End() == r.addr <= m.Length
    requires l.size % 8 == 0 && b.size % 8 == 0 && r.size % 8 == 0
    requires WordAt(m[..], r.addr - 4) == Pack(r.size, r.alloc)
    requires !r.alloc ==> Tagged(m[..], r)
    requires l.size >= DSIZE && b.size >= DSIZE && r.End() - l.addr < INT_LIMIT
    modifies m
    ensures bp == Joined(l, b, r).addr
    ensures merged <==> Joined(l, b, r) != b
    ensures Tagged(m[..], Joined(l, b, r))
    ensures SameOutside(old(m[..]), m[..], bp - 4, Joined(l, b, r).End() - 4)
  {
    hide WordAt, SizeOf, AllocOf, Pack, SameOutside;
    bp := bp0;
    TagReads(m[..], l);
    TagReads(m[..], b);
    assert SizeOf(Pack(r.size, r.alloc)) == r.size && AllocOf(Pack(r.size, r.alloc)) == r.alloc;
    assert PrevBlkp(m, bp) == l.addr;
    var prevAlloc := AllocOf(Get(m, Ftrp(m, PrevBlkp(m, bp))));
    var nextAlloc := AllocOf(Get(m, Hdrp(NextBlkp(m, bp))));
    var size := SizeOf(Get(m, Hdrp(bp)));
    assert prevAlloc == l.alloc && nextAlloc == r.alloc && size == b.size;
    SameEverywhere(m[..], bp - 4, b.End() - 4);
    if prevAlloc && nextAlloc {
      assert Joined(l, b, r) == b;
      return bp, false;
    } else if prevAlloc && !nextAlloc {
      size := size + SizeOf(Get(m, Hdrp(NextBlkp(m, bp))));
      MultiplesOf8(b.size, r.size);
      PutTags(m, bp, size, false);
    } else if !prevAlloc && nextAlloc {
      size := size + SizeOf(Get(m, Hdrp(PrevBlkp(m, bp))));
      bp := CoalescePrev(m, bp, size, l, b);
    } else {
      TagReads(m[..], r);
      size := size + SizeOf(Get(m, Hdrp(PrevBlkp(m, bp)))) + SizeOf(Get(m, Ftrp(m, NextBlkp(m, bp))));
      bp := CoalesceBoth(m, bp, size, l, b, r);
    }
    merged := true;
    assert Joined(l, b, r) == Block(bp, size, false);
  }

  /** The writes of case 3: the footer of `bp` first, then the header of the block before it. */
  method CoalescePrev(m: array<byte>, bp0: int, size: int, ghost l: Block, ghost b: Block) returns (bp: int)
    requires Tagged(m[..], l) && Tagged(m[..], b) && b.addr == bp0 && l.End() == b.addr
    requires l.size % 8 == 0 && b.size % 8 == 0 && size == l.size + b.size < INT_LIMIT
    modifies m
    ensures bp == l.addr && Tagged(m[..], Block(bp, size, false))
    ensures SameOutside(old(m[..]), m[..], bp - 4, bp + size - 4)
  {
    hide WordAt, SizeOf, AllocOf, Pack, SameOutside;
    ghost var s0 := m[..];
    TagReads(s0, l);
    TagReads(s0, b);
    var ftr := Ftrp(m, bp0);
    assert ftr == b.End() - 8;
    Put(m, ftr, Pack(size, false));
    ghost var s1 := m[..];
    WordFrame(s0, s1, bp0 - 8, ftr, ftr + 4);
    bp := PrevBlkp(m, bp0);
    assert bp == l.addr;
    Put(m, Hdrp(bp), Pack(size, false));
    ghost var s2 := m[..];
    WordFrame(s1, s2, bp0 - 8, bp - 4, bp);
    WordFrame(s1, s2, ftr, bp - 4, bp);
    OutsideTrans(s0, s1, s2, ftr, ftr + 4, bp - 4, bp, bp - 4, bp + size - 4);
    bp := PrevBlkp(m, bp0);
  }

  /** The writes of case 4: the header of the block before, then the footer of the block after. */
  method CoalesceBoth(m: array<byte>, bp0: int, size: int, ghost l: Block, ghost b: Block, ghost r: Block)
    returns (bp: int)
    requires Tagged(m[..], l) && Tagged(m[..], b) && Tagged(m[..], r) && b.addr == bp0
    requires l.End() == b.addr && b.End() == r.addr
    requires l.size % 8 == 0 && b.size % 8 == 0 && r.size % 8 == 0
    requires size == l.size + b.size + r.size < INT_LIMIT
    modifies m
    ensures bp == l.addr && Tagged(m[..], Block(bp, size, false))
    ensures SameOutside(old(m[..]), m[..], bp - 4, bp + size - 4)
  {
    hide WordAt, SizeOf, AllocOf, Pack, SameOutside;
    ghost var s0 := m[..];
    TagReads(s0, l);
    TagReads(s0, b);
    TagReads(s0, r);
    bp := PrevBlkp(m, bp0);
    assert bp == l.addr;
    Put(m, Hdrp(bp), Pack(size, false));
    ghost var s1 := m[..];
    WordFrame(s0, s1, bp0 - 8, bp - 4, bp);
    WordFrame(s0, s1, bp0 - 4, bp - 4, bp);
    var next := NextBlkp(m, bp0);
    assert next == r.addr;
    WordFrame(s0, s1, next - 4, bp - 4, bp);
    var ftr := Ftrp(m, next);
    assert ftr == r.End() - 8;
    Put(m, ftr, Pack(size, false));
    ghost var s2 := m[..];
    WordFrame(s1, s2, bp0 - 8, ftr, ftr + 4);
    WordFrame(s1, s2, bp - 4, ftr, ftr + 4);
    OutsideTrans(s0, s1, s2, bp - 4, bp, ftr, ftr + 4, bp - 4, bp + size - 4);
    bp := PrevBlkp(m, bp0);
  }

  /** The memory writes of `extend_heap`: the new block, then the new epilogue header. */
  method ExtendTags(m: array<byte>, bp: int, size: int)
    requires 4 <= bp && 2 * DSIZE <= size < INT_LIMIT && size % 8 == 0 && bp + size <= m.Length
    modifies m
    ensures Tagged(m[..], Block(bp, size, false))
    ensures WordAt(m[..], bp + size - 4) == Pack(0, true)
    ensures SameOutside(old(m[..]), m[..], bp - 4, bp + size)
  {
    hide WordAt, Pack, SizeOf, AllocOf;
    ghost var b := Block(bp, size, false);
    PutTags(m, bp, size, false);
    ghost var s1 := m[..];
    TagReads(s1, b);
    var next := NextBlkp(m, bp);
    assert next == bp + size;
    Put(m, Hdrp(next), Pack(0, true));
    TaggedFrame(s1, m[..], b, next - 4, next);
  }

  // ---------------------------------------------------------------- the allocator

  /** What `place` must have written: the tags of the run that replaces the free block. */
  lemma PlaceStep(h: Heap, s: seq<byte>, t: seq<byte>, k: nat, asize: int)
    requires Shaped(h) && Represents(s, h.blocks) && k < |h.blocks| && Fits(h.blocks[k], asize)
    requires asize >= 2 * DSIZE && asize % 8 == 0
    requires AllTagged(t, PlaceIn(h.blocks[k], asize))
    requires SameOutside(s, t, h.blocks[k].addr - 4, h.blocks[k].End() - 4)
    ensures var bs' := BlockList.Place(h.blocks, k, asize);
            && Shaped(h.(blocks := bs')) && EndOf(bs') == EndOf(h.blocks)
            && Represents(t, bs') && LiveKept(s, h.blocks, t, bs')
  {
    var mid := PlaceIn(h.blocks[k], asize);
    PlacedBlock(h, k);
    PlaceInTiles(h.blocks[k], asize);
    StartsSurvive(h.blocks, k, k + 1, mid, h.rover);
    SpliceShaped(h, k, k + 1, mid, h.rover);
    Splice(s, t, h.blocks, k, k + 1, mid);
    SpliceKeepsLive(s, t, h.blocks, k, k + 1, mid);
  }

  /** The block after `k`, or the epilogue. */
  ghost function RightOf(bs: seq<Block>, k: nat): Block
    requires k < |bs|
  {
    if k + 1 < |bs| then bs[k + 1] else Block(EndOf(bs), 0, true)
  }

  /** `Merged` is what `coalesce` computes from the tags of the two neighbours. */
  lemma NeighbourTags(h: Heap, s: seq<byte>, k: nat)
    requires Shaped(h) && Represents(s, h.blocks) && k < |h.blocks| && !h.blocks[k].alloc
    ensures k > 0
    ensures var l, b, r := h.blocks[k - 1], h.blocks[k], RightOf(h.blocks, k);
            && Tagged(s, l) && Tagged(s, b) && l.End() == b.addr && b.End() == r.addr <= |s|
            && l.size % 8 == 0 && b.size % 8 == 0 && r.size % 8 == 0
            && WordAt(s, r.addr - 4) == Pack(r.size, r.alloc) && (!r.alloc ==> Tagged(s, r))
            && l.size >= DSIZE && b.size >= DSIZE && r.End() - l.addr < INT_LIMIT
            && Merged(h.blocks, k) == Joined(l, b, r)
  {
    hide WordAt, SizeOf, AllocOf, Pack, SameOutside;
    var lo, hi := h.base + DSIZE, EndOf(h.blocks);
    PlacedBlock(h, k);
    PlacedBlock(h, k - 1);
    TilesAt(lo, h.blocks, hi, k - 1);
    TilesAt(lo, h.blocks, hi, k);
    if k + 1 < |h.blocks| {
      PlacedBlock(h, k + 1);
      assert Tagged(s, h.blocks[k + 1]);
    }
  }

  lemma CoalesceStep(h: Heap, s: seq<byte>, t: seq<byte>, k: nat)
    requires Shaped(h) && Represents(s, h.blocks) && k < |h.blocks| && !h.blocks[k].alloc
    requires CoalescedBut(h.blocks, k)
    requires var m := Merged(h.blocks, k);
             Tagged(t, m) && SameOutside(s, t, m.addr - 4, m.End() - 4)
    ensures var g := BlockList.Coalesce(h, k);
            && WellFormed(g) && EndOf(g.blocks) == EndOf(h.blocks)
            && Represents(t, g.blocks) && LiveKept(s, h.blocks, t, g.blocks)
    ensures var m, g := Merged(h.blocks, k), BlockList.Coalesce(h, k);
            && m.size % 8 == 0
            && g == h.(blocks := g.blocks, rover := if m.addr < h.rover < m.End() then m.addr else h.rover)
            && (m == h.blocks[k] ==> g.rover == h.rover)
  {
    hide WordAt, SizeOf, AllocOf, Pack, SameOutside, LiveKept, Tagged, Tiles, MergeLo, MergeHi, Merged;
    var i, j, m := MergeLo(h.blocks, k), MergeHi(h.blocks, k), Merged(h.blocks, k);
    MergedRun(h, k);
    CoalesceShaped(h, k);
    CoalesceCoalesces(h, k);
    Splice(s, t, h.blocks, i, j, [m]);
    SpliceKeepsLive(s, t, h.blocks, i, j, [m]);
    var n :| 0 <= n < |h.blocks| && h.blocks[n].addr == h.rover;
    StartInside(h, k, k + 1, n);
  }

  /** What the tags at position `i` of the walk say; past the last block, the epilogue. */
  ghost predicate WalkFacts(h: Heap, s: seq<byte>, i: nat) {
    && h.blocks != [] && i <= |h.blocks|
    && var p := AddrAt(h.blocks, i, EndOf(h.blocks));
    && 4 <= p <= |s|
    && if i == |h.blocks| then SizeOf(WordAt(s, p - 4)) == 0
       else
         && SizeOf(WordAt(s, p - 4)) == h.blocks[i].size > 0
         && AllocOf(WordAt(s, p - 4)) == h.blocks[i].alloc
         && h.blocks[i].End() == AddrAt(h.blocks, i + 1, EndOf(h.blocks))
  }

  lemma Walk(h: Heap, s: seq<byte>, i: nat)
    requires Shaped(h) && Represents(s, h.blocks) && i <= |h.blocks|
    ensures WalkFacts(h, s, i)
  {
    hide WordAt, Pack, SizeOf, AllocOf;
    if i < |h.blocks| {
      PlacedBlock(h, i);
      assert Tagged(s, h.blocks[i]);
      TagReads(s, h.blocks[i]);
      TilesAt(h.base + DSIZE, h.blocks, EndOf(h.blocks), i);
    } else {
      assert SizeOf(Pack(0, true)) == 0;
    }
  }

  /** `checkblock` and `mm_check` have nothing to report on a heap that the operations leave:
      every block is aligned and has equal tags, and prologue and epilogue are intact. */
  lemma HeapPassesCheck(h: Heap, s: seq<byte>)
    requires WellFormed(h) && Represents(s, h.blocks)
    ensures var end := EndOf(h.blocks);
            && 0 <= h.base && h.base + 8 <= |s| && 4 <= end <= |s|
            && WordAt(s, h.base + 4) == 8 + 1 && WordAt(s, end - 4) == 0 + 1
    ensures forall k :: 0 <= k < |h.blocks| ==>
              var bp := h.blocks[k].addr;
              && bp % 8 == 0 && 8 <= bp <= |s|
              && var ftr := bp + h.blocks[k].size - 8;
              && 0 <= ftr && ftr + 4 <= |s| && WordAt(s, bp - 4) == WordAt(s, ftr)
              && WordAt(s, bp - 4) == h.blocks[k].size + if h.blocks[k].alloc then 1 else 0
  {
    hide WordAt;
    assert Tagged(s, h.blocks[0]);
    assert Pack(0, true) == 1 && Pack(8, true) == 9;
    forall k | 0 <= k < |h.blocks|
      ensures var bp := h.blocks[k].addr;
              && bp % 8 == 0 && 8 <= bp <= |s|
              && var ftr := bp + h.blocks[k].size - 8;
              && 0 <= ftr && ftr + 4 <= |s| && WordAt(s, bp - 4) == WordAt(s, ftr)
              && WordAt(s, bp - 4) == h.blocks[k].size + if h.blocks[k].alloc then 1 else 0
    {
      assert Tagged(s, h.blocks[k]);
      PlacedBlock(h, k);
    }
  }

  /** C's conversion of an unsigned size to the `int` that `mem_sbrk` takes. */
  function AsInt(size: int): int {
    if size >= INT_LIMIT then size - SIZE_LIMIT else size
  }

  /** The even number of words that `extend_heap` asks for. */
  function RoundedWords(words: int): int {
    words + words % 2
  }

  /** What `mm_free` writes before it coalesces: the tags of its own block. */
  lemma FreeStep(h: Heap, s: seq<byte>, t: seq<byte>, k: nat)
    requires WellFormed(h) && Represents(s, h.blocks) && 1 <= k < |h.blocks|
    requires Tagged(t, MarkFree(h.blocks, k)[k])
    requires SameOutside(s, t, h.blocks[k].addr - 4, h.blocks[k].End() - 4)
    ensures var bs' := MarkFree(h.blocks, k);
            && Shaped(h.(blocks := bs')) && CoalescedBut(bs', k) && EndOf(bs') == EndOf(h.blocks)
            && Represents(t, bs') && LiveKept(s, bs', t, bs')
  {
    hide WordAt, Pack;
    var bs' := MarkFree(h.blocks, k);
    MarkFreeShaped(h, k);
    Splice(s, t, h.blocks, k, k + 1, [bs'[k]]);
    SpliceKeepsLive(s, t, bs', k, k + 1, [bs'[k]]);
    assert bs' == bs'[..k] + [bs'[k]] + bs'[k + 1..];
  }

  /** Keeping the live payloads composes. */
  lemma LiveKeptTrans(s: seq<byte>, bs: seq<Block>, s1: seq<byte>, bs1: seq<Block>, t: seq<byte>, bs2: seq<Block>)
    requires LiveKept(s, bs, s1, bs1) && LiveKept(s1, bs1, t, bs2)
    ensures LiveKept(s, bs, t, bs2)
  {
  }

  /** The `n` bytes at `q` in `t` are those at `p` in `s`. */
  ghost predicate CopiedPayload(s: seq<byte>, p: int, t: seq<byte>, q: int, n: int) {
    && 0 <= n && 0 <= p && p + n <= |s| && 0 <= q && q + n <= |t|
    && t[q..q + n] == s[p..p + n]
  }

  /** The `memcpy` of `mm_realloc` stays in the heap, fits in the new payload, and does not
      overlap its source, although it may read 8 bytes past the old payload. */
  lemma CopyBounds(h: Heap, g: Heap, s: seq<byte>, p: int, q: int, size: nat)
    requires WellFormed(h) && Live(h, p) && size + 15 < SIZE_LIMIT && (g, q) == BlockList.Malloc(h, size) && q != 0
    requires Represents(s, g.blocks)
    ensures 4 <= p <= |s|
    ensures var n := Min(size, SizeOf(WordAt(s, p - 4)));
            && SizeOf(WordAt(s, p - 4)) == h.blocks[LiveAt(h, p)].size
            && 0 <= n && 0 <= p && p + n <= EndOf(g.blocks) <= |s| && 0 <= q && q + n <= |s|
            && (p + n <= q || q + n <= p)
  {
    hide WordAt, Pack, SizeOf, AllocOf, BlockList.Malloc;
    LiveIndex(h, p);
    StillLive(h, p, size);
    MallocCorrect(h, size);
    var i := IndexOf(g.blocks, p);
    var b := g.blocks[i];
    PlacedBlock(g, i);
    TagReads(s, b);
    assert b in h.blocks;
  }

  lemma CopyCopied(s1: seq<byte>, s2: seq<byte>, p: int, q: int, n: nat)
    requires 0 <= p && p + n <= |s1| && 0 <= q && q + n <= |s2| && s2[q..q + n] == s1[p..p + n]
    ensures CopiedPayload(s1, p, s2, q, n)
  {
  }

  /** The index of the live block at `p`. */
  ghost function LiveAt(h: Heap, p: int): (k: nat)
    requires Shaped(h) && Live(h, p)
    ensures 1 <= k < |h.blocks| && h.blocks[k].addr == p && h.blocks[k].alloc
  {
    LiveIndex(h, p);
    IndexOf(h.blocks, p)
  }

  /** The copy touches the new payload only. */
  lemma CopyStep(h: Heap, g: Heap, s1: seq<byte>, s2: seq<byte>, q: int, size: nat, n: nat)
    requires WellFormed(h) && size + 15 < SIZE_LIMIT && (g, q) == BlockList.Malloc(h, size) && q != 0
    requires Represents(s1, g.blocks) && SameOutside(s1, s2, q, q + n) && n <= size
    ensures Represents(s2, g.blocks)
    ensures LiveKept(s1, h.blocks, s2, g.blocks)
  {
    hide WordAt, Pack, SizeOf, AllocOf, BlockList.Malloc;
    MallocCorrect(h, size);
    var k :| IsNewBlock(h, g, q, size, k);
    TagsSurvivePayloadWrites(s1, s2, g.blocks, k, q, q + n);
  }

  lemma ReallocStep(h: Heap, g: Heap, s: seq<byte>, s1: seq<byte>, s2: seq<byte>, t: seq<byte>, bs: seq<Block>,
                    p: int, q: int, size: nat, n: nat)
    requires WellFormed(h) && Live(h, p) && size + 15 < SIZE_LIMIT && (g, q) == BlockList.Malloc(h, size) && q != 0
    requires WellFormed(g) && Live(g, p)
    requires LiveKept(s, h.blocks, s1, g.blocks) && LiveKept(s1, h.blocks, s2, g.blocks)
    requires LiveKept(s2, MarkFree(g.blocks, LiveAt(g, p)), t, bs)
    requires n == Min(size, h.blocks[LiveAt(h, p)].size) && CopiedPayload(s1, p, s2, q, n)
    ensures LiveKept(s, MarkFree(h.blocks, LiveAt(h, p)), t, bs)
    ensures CopiedPayload(s, p, t, q, Min(size, h.blocks[LiveAt(h, p)].size - DSIZE))
  {
    hide WordAt, Pack, SizeOf, AllocOf, BlockList.Malloc, Tiles, Coalesced, CopiedPayload;
    var b := h.blocks[LiveAt(h, p)];
    StillLive(h, p, size);
    MarkFreeRemoves(h, LiveAt(h, p));
    MarkFreeRemoves(g, LiveAt(g, p));
    var bs1, bs2 := MarkFree(h.blocks, LiveAt(h, p)), MarkFree(g.blocks, LiveAt(g, p));
    forall c | c in bs1 && c.alloc ensures c in bs && SameInside(s, t, c.addr, c.End() - DSIZE) {
      assert c in h.blocks && c in bs2;
    }
    MallocCorrect(h, size);
    var k :| IsNewBlock(h, g, q, size, k);
    var nb := g.blocks[k];
    PlacedBlock(g, k);
    PlacedBlock(h, LiveAt(h, p));
    assert b in h.blocks && nb.addr != p;
    assert nb in bs2;
    CopySurvives(s, s1, s2, t, b, nb, Min(size, b.size - DSIZE), n);
  }

  lemma CopySurvives(s: seq<byte>, s1: seq<byte>, s2: seq<byte>, t: seq<byte>, b: Block, nb: Block, m: nat, n: nat)
    requires SameInside(s, s1, b.addr, b.End() - DSIZE) && SameInside(s2, t, nb.addr, nb.End() - DSIZE)
    requires CopiedPayload(s1, b.addr, s2, nb.addr, n)
    requires m <= n && m <= b.size - DSIZE && m <= nb.size - DSIZE
    ensures CopiedPayload(s, b.addr, t, nb.addr, m)
  {
    var p, q := b.addr, nb.addr;
    assert s2[q..q + m] == s2[q..q + n][..m] == s1[p..p + n][..m] == s1[p..p + m];
    assert t[q..q + m] == s2[q..q + m];
    assert s1[p..p + m] == s[p..p + m];
  }

  lemma ExtendWords(size: int)
    requires 2 * DSIZE <= size < SIZE_LIMIT && size % 8 == 0
    ensures RoundedWords(size / WSIZE) * WSIZE == size
    ensures 4 <= size / WSIZE && (size / WSIZE + 1) * WSIZE < SIZE_LIMIT
  {
    var k := size / 8;
    assert size == 8 * k && size / WSIZE == 2 * k && 2 * k % 2 == 0;
  }

  /** A heap just initialized has no allocated block but the prologue, whose payload is empty. */
  lemma FirstLive(base: int, limit: int, s: seq<byte>, t: seq<byte>)
    requires |s| == |t|
    ensures LiveKept(s, FirstHeap(base, limit).blocks, t, FirstHeap(base, limit).blocks)
  {
  }

  lemma ExtendStep(h: Heap, s: seq<byte>, t: seq<byte>, size: int)
    requires WellFormed(h) && Represents(s, h.blocks) && CanGrow(h, size)
    requires size >= 2 * DSIZE && size % 8 == 0 && EndOf(h.blocks) + size <= |s| == |t|
    requires 4 <= EndOf(h.blocks) && Tagged(t, Block(EndOf(h.blocks), size, false))
    requires WordAt(t, EndOf(h.blocks) + size - 4) == Pack(0, true)
    requires SameOutside(s, t, EndOf(h.blocks) - 4, EndOf(h.blocks) + size)
    ensures var bs' := h.blocks + [Block(EndOf(h.blocks), size, false)];
            && Shaped(h.(blocks := bs')) && CoalescedBut(bs', |h.blocks|)
            && EndOf(bs') == EndOf(h.blocks) + size
            && Represents(t, bs') && LiveKept(s, h.blocks, t, bs')
  {
    hide WordAt, Pack;
    AppendShaped(h, size);
    var lo, hi := h.base + DSIZE, EndOf(h.blocks);
    forall b | b in h.blocks ensures Tagged(t, b) && b.End() <= hi {
      var m :| 0 <= m < |h.blocks| && h.blocks[m] == b;
      TilesAt(lo, h.blocks, hi, m);
      TaggedFrame(s, t, b, hi - 4, hi + size);
    }
  }

  class Mm {
    const mem: MemLib.MemoryModel
    var heapListp: int
    var nextFit: int
    ghost var blocks: seq<Block>

    ghost function Abs(): Heap
      reads this
    {
      Heap(mem.start, mem.maxAddr, blocks, nextFit)
    }

    /** The memory holds `blocks`; neighbours may both be free. */
    ghost predicate Consistent()
      reads this, mem, mem.bytes
    {
      && mem.Valid()
      && heapListp == mem.start + DSIZE
      && Shaped(Abs())
      && EndOf(blocks) == mem.brk
      && Represents(mem.bytes[..], blocks)
    }

    ghost predicate Valid()
      reads this, mem, mem.bytes
    {
      Consistent() && Coalesced(blocks)
    }

    /** The static variables before the first call. */
    constructor (mem: MemLib.MemoryModel)
      ensures this.mem == mem && heapListp == 0
    {
      this.mem := mem;
      heapListp := 0;
      nextFit := 0;
      blocks := [];
    }

    /** `place` */
    method Place(bp: int, asize: int, ghost k: nat)
      requires Consistent()
      requires k < |blocks| && blocks[k].addr == bp && Fits(blocks[k], asize)
      requires asize >= 2 * DSIZE && asize % 8 == 0
      modifies this`blocks, mem.bytes
      ensures Consistent()
      ensures blocks == BlockList.Place(old(blocks), k, asize)
      ensures LiveKept(old(mem.bytes[..]), old(blocks), mem.bytes[..], blocks)
    {
      ghost var s, h := mem.bytes[..], Abs();
      PlacedBlock(h, k);
      PlaceTags(mem.bytes, bp, asize, blocks[k]);
      PlaceStep(h, s, mem.bytes[..], k, asize);
      blocks := BlockList.Place(blocks, k, asize);
    }

    /** `coalesce` of the free block `bp`, which is block `k`. */
    method Coalesce(bp0: int, ghost k: nat) returns (bp: int)
      requires Consistent()
      requires k < |blocks| && blocks[k].addr == bp0 && !blocks[k].alloc && CoalescedBut(blocks, k)
      modifies this`blocks, this`nextFit, mem.bytes
      ensures Valid()
      ensures Abs() == BlockList.Coalesce(old(Abs()), k)
      ensures bp == Merged(old(blocks), k).addr
      ensures LiveKept(old(mem.bytes[..]), old(blocks), mem.bytes[..], blocks)
    {
      hide WordAt, SizeOf, AllocOf, Pack, SameOutside, LiveKept, BlockList.Coalesce, Merged, Joined;
      ghost var s, h := mem.bytes[..], Abs();
      NeighbourTags(h, s, k);
      ghost var l, b, r, m := blocks[k - 1], blocks[k], RightOf(blocks, k), Merged(blocks, k);
      var merged;
      bp, merged := CoalesceTags(mem.bytes, bp0, l, b, r);
      CoalesceStep(h, s, mem.bytes[..], k);
      if merged {
        TagReads(mem.bytes[..], m);
        if nextFit > bp && nextFit < NextBlkp(mem.bytes, bp) {
          nextFit := bp;
        }
      }
      blocks := BlockList.Coalesce(h, k).blocks;
    }

    /** `find_fit`: 0 when nothing fits, and then the next-fit pointer is where it was. */
    method FindFit(asize: int) returns (bp: int)
      requires Valid()
      modifies this`nextFit
      ensures Valid()
      ensures var k := BlockList.FindFit(old(Abs()), asize);
              if k < |blocks| then bp == nextFit == blocks[k].addr && bp != 0
              else bp == 0 && nextFit == old(nextFit)
    {
      hide WordAt, Pack, SizeOf, AllocOf, Shaped, Represents, Coalesced;
      ghost var n, r := |blocks|, IndexOf(blocks, nextFit);
      ghost var h, s := Abs(), mem.bytes[..];
      RoverIndex(h);
      var oldNextFit := nextFit;
      ghost var i := r;
      Walk(h, s, i);
      while SizeOf(Get(mem.bytes, Hdrp(nextFit))) > 0
        invariant r <= i <= n && nextFit == AddrAt(blocks, i, EndOf(blocks))
        invariant WalkFacts(h, s, i)
        invariant FirstFit(blocks, r, n, asize) == FirstFit(blocks, i, n, asize)
        decreases n - i
      {
        if !AllocOf(Get(mem.bytes, Hdrp(nextFit))) && asize <= SizeOf(Get(mem.bytes, Hdrp(nextFit))) {
          RoverMoves(h, i);
          return nextFit;
        }
        nextFit := NextBlkp(mem.bytes, nextFit);
        i := i + 1;
        Walk(h, s, i);
      }
      assert FirstFit(blocks, r, n, asize) == n;
      RoverMoves(h, 0);
      nextFit := heapListp;
      bp := FindFitFromStart(asize, oldNextFit, r);
    }

    /** The second loop of `find_fit`: from the start of the list to the old next-fit pointer. */
    method FindFitFromStart(asize: int, oldNextFit: int, ghost r: nat) returns (bp: int)
      requires Valid() && nextFit == heapListp
      requires r < |blocks| && blocks[r].addr == oldNextFit
      modifies this`nextFit
      ensures Valid()
      ensures var f := FirstFit(blocks, 0, r, asize);
              if f < r then bp == nextFit == blocks[f].addr && bp != 0 else bp == 0 && nextFit == oldNextFit
    {
      hide WordAt, Pack, SizeOf, AllocOf, Shaped, Represents, Coalesced;
      ghost var h, s := Abs(), mem.bytes[..];
      ghost var i := 0;
      Walk(h, s, 0);
      BlocksBefore(h, r);
      while nextFit < oldNextFit
        invariant 0 <= i <= r && nextFit == blocks[i].addr
        invariant WalkFacts(h, s, i)
        invariant FirstFit(blocks, 0, r, asize) == FirstFit(blocks, i, r, asize)
        decreases r - i
      {
        if !AllocOf(Get(mem.bytes, Hdrp(nextFit))) && asize <= SizeOf(Get(mem.bytes, Hdrp(nextFit))) {
          RoverMoves(h, i);
          return nextFit;
        }
        nextFit := NextBlkp(mem.bytes, nextFit);
        i := i + 1;
        Walk(h, s, i);
      }
      RoverMoves(h, r);
      bp := 0;
    }

    /** `extend_heap` */
    method ExtendHeap(words: int) returns (bp: int)
      requires Valid()
      requires 4 <= words && (words + 1) * WSIZE < SIZE_LIMIT
      modifies this`blocks, this`nextFit, mem`brk, mem.bytes
      ensures Valid()
      ensures var size := RoundedWords(words) * WSIZE;
              if CanGrow(old(Abs()), size)
              then Abs() == Extend(old(Abs()), size) && bp == blocks[|blocks| - 1].addr && bp != 0
              else bp == 0 && Abs() == old(Abs()) && mem.bytes[..] == old(mem.bytes[..])
      ensures LiveKept(old(mem.bytes[..]), old(blocks), mem.bytes[..], blocks)
    {
      hide WordAt, Pack, SizeOf, AllocOf, Represents, Extend;
      ghost var h := Abs();
      var size := if words % 2 == 1 then (words + 1) * WSIZE else words * WSIZE;
      assert size == RoundedWords(words) * WSIZE && size % 8 == 0;
      bp := mem.Sbrk(AsInt(size));
      assert bp != -1 <==> CanGrow(h, size);
      hide RoundedWords, AsInt;
      if bp == -1 {
        return 0;
      }
      bp := InstallBlock(bp, size);
    }

    /** The rest of `extend_heap`, once the break has moved up by `size`. */
    method InstallBlock(brk: int, size: int) returns (bp: int)
      requires mem.Valid() && heapListp == mem.start + DSIZE && WellFormed(Abs())
      requires Represents(mem.bytes[..], blocks) && EndOf(blocks) == brk && mem.brk == brk + size
      requires size >= 2 * DSIZE && size % 8 == 0 && CanGrow(Abs(), size)
      modifies this`blocks, this`nextFit, mem.bytes
      ensures Valid() && Abs() == Extend(old(Abs()), size)
      ensures bp == blocks[|blocks| - 1].addr && bp != 0
      ensures LiveKept(old(mem.bytes[..]), old(blocks), mem.bytes[..], blocks)
    {
      hide WordAt, Pack, SizeOf, AllocOf, BlockList.Coalesce, Merged, Represents, LiveKept, Tiles, Coalesced;
      ghost var h, s := Abs(), mem.bytes[..];
      PlacedBlock(h, 0);
      ExtendTags(mem.bytes, brk, size);
      ghost var s1, bs := mem.bytes[..], h.blocks + [Block(brk, size, false)];
      ExtendStep(h, s, s1, size);
      blocks := bs;
      ExtendWellFormed(h, size);
      bp := Coalesce(brk, |h.blocks|);
      LiveKeptTrans(s, h.blocks, s1, bs, mem.bytes[..], blocks);
      PlacedBlock(Abs(), |blocks| - 1);
    }

    /** An unused heap with room for the 16 bytes that `mm_init` writes first. */
    ghost predicate Fresh()
      reads this, mem
    {
      mem.Valid() && mem.brk == mem.start && mem.start + 16 <= mem.maxAddr
    }

    /** Before the first call `mm_malloc` initializes the heap itself, and goes on whether or not
        there was room for a block. */
    ghost predicate Ready()
      reads this, mem, mem.bytes
    {
      if heapListp == 0 then Fresh() else Valid()
    }

    /** The heap that the next `mm_malloc` works on. */
    ghost function Current(): Heap
      reads this, mem
    {
      if heapListp == 0 then FirstHeap(mem.start, mem.maxAddr) else Abs()
    }

    /** `mm_init` on an empty heap. */
    method Init() returns (r: int)
      requires mem.Valid() && mem.brk == mem.start
      modifies this, mem`brk, mem.bytes
      ensures mem.Valid()
      ensures r == 0 || r == -1
      ensures r == 0 <==> mem.start + 16 + CHUNKSIZE <= mem.maxAddr
      ensures mem.start + 16 <= mem.maxAddr ==> Valid() && Abs() == FirstHeap(mem.start, mem.maxAddr)
      ensures mem.start + 16 > mem.maxAddr ==> blocks == [] && heapListp == -1 && mem.brk == mem.start
    {
      hide WordAt, Pack, SizeOf, AllocOf, Coalesced;
      heapListp := mem.Sbrk(4 * WSIZE);
      if heapListp == -1 {
        blocks := [];
        return -1;
      }
      WriteEmptyHeap();
      r := ExtendHeap(CHUNKSIZE / WSIZE);
      if r == 0 {
        return -1;
      }
      return 0;
    }

    /** The padding, prologue and epilogue words of `mm_init`. */
    method WriteEmptyHeap()
      requires mem.Valid() && heapListp == mem.start && mem.brk == mem.start + 16
      modifies this, mem.bytes
      ensures Valid() && Abs() == EmptyHeap(mem.start, mem.maxAddr)
    {
      hide WordAt, Pack, SizeOf, AllocOf;
      var p := heapListp;
      Put(mem.bytes, p, 0);
      Put(mem.bytes, p + 1 * WSIZE, Pack(DSIZE, true));
      ghost var s1 := mem.bytes[..];
      Put(mem.bytes, p + 2 * WSIZE, Pack(DSIZE, true));
      ghost var s2 := mem.bytes[..];
      Put(mem.bytes, p + 3 * WSIZE, Pack(0, true));
      WordFrame(s1, s2, p + 4, p + 8, p + 12);
      WordFrame(s2, mem.bytes[..], p + 4, p + 12, p + 16);
      WordFrame(s2, mem.bytes[..], p + 8, p + 12, p + 16);
      heapListp := p + 2 * WSIZE;
      nextFit := heapListp;
      blocks := EmptyHeap(mem.start, mem.maxAddr).blocks;
      EmptyWellFormed(mem.start, mem.maxAddr);
    }

    /** `mm_malloc` */
    method Malloc(size: nat) returns (p: int)
      requires Ready() && size + 15 < SIZE_LIMIT
      modifies this, mem`brk, mem.bytes
      ensures Valid()
      ensures (Abs(), p) == BlockList.Malloc(old(Current()), size)
      ensures LiveKept(old(mem.bytes[..]), old(Current()).blocks, mem.bytes[..], blocks)
      ensures p == 0 && old(heapListp) != 0 ==> mem.bytes[..] == old(mem.bytes[..])
    {
      hide WordAt, Pack, SizeOf, AllocOf, Represents, Shaped, Coalesced, BlockList.Malloc;
      if heapListp == 0 {
        var _ := Init();
        FirstLive(mem.start, mem.maxAddr, old(mem.bytes[..]), mem.bytes[..]);
      }
      p := Allocate(size);
    }

    /** `mm_malloc` on an initialized heap. */
    method Allocate(size: nat) returns (p: int)
      requires Valid() && size + 15 < SIZE_LIMIT
      modifies this`blocks, this`nextFit, mem`brk, mem.bytes
      ensures Valid()
      ensures (Abs(), p) == BlockList.Malloc(old(Abs()), size)
      ensures LiveKept(old(mem.bytes[..]), old(blocks), mem.bytes[..], blocks)
      ensures p == 0 ==> mem.bytes[..] == old(mem.bytes[..])
    {
      hide WordAt, Pack, SizeOf, AllocOf, Represents, Shaped, Coalesced, BlockList.FindFit, Extend, BlockList.Place, CanGrow, Fits;
      ghost var h, s := Abs(), mem.bytes[..];
      if size == 0 {
        return 0;
      }
      var asize: int;
      if size <= DSIZE {
        asize := 2 * DSIZE;
      } else {
        asize := DSIZE * ((size + DSIZE + (DSIZE - 1)) % SIZE_LIMIT / DSIZE);
      }
      assert asize == AdjustedSize(size);
      AdjustedSizeCorrect(size);
      hide AdjustedSize;
      p := FindFit(asize);
      if p != 0 {
        ghost var k := BlockList.FindFit(h, asize);
        FindFitFits(h, asize);
        PlaceWellFormed(Abs(), k, asize, nextFit);
        Place(p, asize, k);
        return;
      }
      assert Abs() == h;
      var extendSize := Max(asize, CHUNKSIZE);
      ExtendWords(extendSize);
      p := ExtendHeap(extendSize / WSIZE);
      if p == 0 {
        assert Abs() == h;
        return 0;
      }
      RoverIndex(Abs());
      PlaceLast(h, asize, extendSize);
      Place(p, asize, |blocks| - 1);
    }

    /** `mm_free`; freeing NULL does nothing. */
    method Free(bp: int)
      requires Valid() && (bp == 0 || Live(Abs(), bp))
      modifies this`blocks, this`nextFit, mem.bytes
      ensures Valid()
      ensures bp == 0 ==> Abs() == old(Abs()) && mem.bytes[..] == old(mem.bytes[..])
      ensures bp != 0 ==>
                var k := IndexOf(old(blocks), bp);
                && k < |old(blocks)| && Abs() == BlockList.Free(old(Abs()), bp)
                && LiveKept(old(mem.bytes[..]), MarkFree(old(blocks), k), mem.bytes[..], blocks)
    {
      hide WordAt, Pack, SizeOf, AllocOf, BlockList.Coalesce;
      if bp == 0 {
        return;
      }
      ghost var h, s, k := Abs(), mem.bytes[..], IndexOf(blocks, bp);
      LiveIndex(h, bp);
      PlacedBlock(h, k);
      TagReads(s, blocks[k]);
      var size := SizeOf(Get(mem.bytes, Hdrp(bp)));
      PutTags(mem.bytes, bp, size, false);
      ghost var s1 := mem.bytes[..];
      FreeStep(h, s, s1, k);
      blocks := MarkFree(blocks, k);
      assert Abs() == h.(blocks := MarkFree(h.blocks, k));
      var _ := Coalesce(bp, k);
      LiveKeptTrans(s, MarkFree(h.blocks, k), s1, MarkFree(h.blocks, k), mem.bytes[..], blocks);
    }

    /** `mm_realloc`. The copy may run over the old block's footer and the next header, but
        only the bytes of the old payload are promised. */
    method Realloc(p: int, size: nat) returns (q: int)
      requires if p == 0 then Ready() else Valid() && Live(Abs(), p)
      requires size + 15 < SIZE_LIMIT
      modifies this, mem`brk, mem.bytes
      ensures size == 0 ==> q == 0 && (p != 0 ==> !Live(Abs(), p))
      ensures p == 0 && size == 0 ==> q == 0 && Ready() && Abs() == old(Abs()) && heapListp == old(heapListp)
      ensures p != 0 || size != 0 ==>
                && Valid() && WellFormed(old(Current()))
                && (Abs(), q) == BlockList.Realloc(old(Current()), p, size)
      ensures p != 0 && size != 0 && q == 0 ==> Abs() == old(Abs()) && mem.bytes[..] == old(mem.bytes[..])
      ensures p != 0 && (size == 0 || q != 0) ==>
                var k := IndexOf(old(blocks), p);
                k < |old(blocks)| && LiveKept(old(mem.bytes[..]), MarkFree(old(blocks), k), mem.bytes[..], blocks)
      ensures p != 0 && q != 0 ==>
                var k := IndexOf(old(blocks), p);
                && k < |old(blocks)|
                && CopiedPayload(old(mem.bytes[..]), p, mem.bytes[..], q, Min(size, old(blocks)[k].size - DSIZE))
    {
      hide WordAt, Pack, SizeOf, AllocOf, Represents, Shaped, Coalesced, BlockList.Malloc, BlockList.Free;
      if size == 0 {
        if p != 0 {
          LiveIndex(Abs(), p);
        } else if heapListp == 0 {
          return 0;
        }
        ghost var h := Abs();
        Free(p);
        if p != 0 { HeapLaws.ReallocCorrect(h, p, 0); }
        return 0;
      }
      if p == 0 {
        if heapListp == 0 { FirstWellFormed(mem.start, mem.maxAddr); }
        q := Malloc(size);
        return;
      }
      q := ReallocLive(p, size);
    }

    /** `mm_realloc` of a live block to a nonzero size: allocate, copy, free. */
    method ReallocLive(p: int, size: nat) returns (q: int)
      requires Valid() && p != 0 && Live(Abs(), p)
      requires 0 < size && size + 15 < SIZE_LIMIT
      modifies this, mem`brk, mem.bytes
      ensures Valid() && (Abs(), q) == BlockList.Realloc(old(Abs()), p, size)
      ensures q == 0 ==> Abs() == old(Abs()) && mem.bytes[..] == old(mem.bytes[..])
      ensures q != 0 ==>
                var k := LiveAt(old(Abs()), p);
                && LiveKept(old(mem.bytes[..]), MarkFree(old(blocks), k), mem.bytes[..], blocks)
                && CopiedPayload(old(mem.bytes[..]), p, mem.bytes[..], q, Min(size, old(blocks)[k].size - DSIZE))
    {
      hide WordAt, Pack, SizeOf, AllocOf, Represents, Shaped, Coalesced, BlockList.Malloc, BlockList.Free, Live, LiveKept, CopiedPayload;
      ghost var h, s := Abs(), mem.bytes[..];
      StillLive(h, p, size);
      MallocCorrect(h, size);
      q := Malloc(size);
      if q == 0 {
        return 0;
      }
      ghost var g, s1 := Abs(), mem.bytes[..];
      CopyBounds(h, g, s1, p, q, size);
      var oldSize := SizeOf(Get(mem.bytes, Hdrp(p)));
      if size < oldSize {
        oldSize := size;
      }
      Copy(mem.bytes, q, p, oldSize);
      ghost var s2 := mem.bytes[..];
      CopyStep(h, g, s1, s2, q, size, oldSize);
      CopyCopied(s1, s2, p, q, oldSize);
      Free(p);
      ReallocStep(h, g, s, s1, s2, mem.bytes[..], blocks, p, q, size, oldSize);
    }
  }
}
