/** Running a trace of `lab3/mdriver.c` against the block-list model of the allocator. */
module TraceModel {
  import opened Common
  import opened BlockList
  import HeapLaws

  /** One request of a trace: which of the trace's ids it concerns and how many bytes. */
  datatype TraceOp = ALLOC(index: nat, size: nat) | FREE(index: nat) | REALLOC(index: nat, size: nat)

  /** A payload: where it starts and how many bytes were asked for. */
  datatype Span = Span(addr: int, size: nat)

  /** The allocator and the payloads the trace has been given and not freed. */
  datatype Run = Run(heap: Heap, live: map<nat, Span>)

  predicate GoodRequest(size: nat) {
    0 < size < INT_LIMIT
  }

  /** What a request may assume of the ids that are live: only free ids are allocated, only
      live ones freed or reallocated, and sizes are positive C `int`s. */
  predicate Legal(ids: set<nat>, op: TraceOp) {
    match op
    case ALLOC(i, size) => i !in ids && GoodRequest(size)
    case FREE(i) => i in ids
    case REALLOC(i, size) => i in ids && GoodRequest(size)
  }

  function IdsAfter(ids: set<nat>, op: TraceOp): set<nat> {
    if op.FREE? then ids - {op.index} else ids + {op.index}
  }

  predicate LegalTrace(ids: set<nat>, ops: seq<TraceOp>)
    decreases |ops|
  {
    ops != [] ==> Legal(ids, ops[0]) && LegalTrace(IdsAfter(ids, ops[0]), ops[1..])
  }

  // ---------------------------------------------------------------- the invariant of a run

  /** `b` is an allocated block that holds the payload `s`. */
  predicate Holds(b: Block, s: Span) {
    b.alloc && b.addr == s.addr && 0 < s.size <= b.size - DSIZE
  }

  ghost predicate HasPayload(bs: seq<Block>, s: Span) {
    exists b :: b in bs && Holds(b, s)
  }

  ghost predicate HasOwner(live: map<nat, Span>, addr: int) {
    exists i :: i in live && live[i].addr == addr
  }

  /** Every live payload sits in its own allocated block, and nothing else is allocated. */
  ghost predicate Owned(h: Heap, live: map<nat, Span>)
    requires h.blocks != []
  {
    && (forall i :: i in live ==> HasPayload(h.blocks[1..], live[i]))
    && (forall i, j :: i in live && j in live && i != j ==> live[i].addr != live[j].addr)
    && (forall b :: b in h.blocks[1..] && b.alloc ==> HasOwner(live, b.addr))
  }

  ghost predicate Inv(d: Run) {
    WellFormed(d.heap) && Owned(d.heap, d.live)
  }

  lemma LivePayload(d: Run, i: nat)
    requires Inv(d) && i in d.live
    ensures var k := IndexOf(d.heap.blocks, d.live[i].addr);
            && Live(d.heap, d.live[i].addr)
            && 1 <= k < |d.heap.blocks| && Holds(d.heap.blocks[k], d.live[i])
            && d.live[i].addr != 0
  {
    assert HasPayload(d.heap.blocks[1..], d.live[i]);
    var b :| b in d.heap.blocks[1..] && Holds(b, d.live[i]);
    var n :| 1 <= n < |d.heap.blocks| && d.heap.blocks[n] == b;
    IndexIs(d.heap, n);
    PlacedBlock(d.heap, n);
  }

  // ---------------------------------------------------------------- steps

  /** One request; `None` when the allocator returns NULL. */
  function Step(d: Run, op: TraceOp): Option<Run>
    requires Inv(d) && Legal(d.live.Keys, op)
  {
    match op
    case ALLOC(i, size) =>
      var (g, p) := Malloc(d.heap, size);
      if p == 0 then None else Some(Run(g, d.live[i := Span(p, size)]))
    case FREE(i) =>
      LivePayload(d, i);
      Some(Run(Free(d.heap, d.live[i].addr), d.live - {i}))
    case REALLOC(i, size) =>
      LivePayload(d, i);
      var (g, p) := Realloc(d.heap, d.live[i].addr, size);
      if p == 0 then None else Some(Run(g, d.live[i := Span(p, size)]))
  }

  /** Allocated blocks after the prologue are the allocated blocks but the first. */
  lemma AllocatedTail(h: Heap)
    requires WellFormed(h)
    ensures h.blocks[0] == Block(h.base + DSIZE, DSIZE, true)
    ensures forall b :: b in h.blocks[1..] ==> b in h.blocks && b != h.blocks[0]
    ensures forall b :: b in h.blocks && b != h.blocks[0] ==> b in h.blocks[1..]
    ensures forall b :: b in h.blocks ==> b.size > 0
  {
  }

  lemma AllocOwned(h: Heap, g: Heap, live: map<nat, Span>, i: nat, size: nat)
    requires WellFormed(h) && Owned(h, live) && i !in live && 0 < size && size + 15 < SIZE_LIMIT
    requires g == Malloc(h, size).0 && Malloc(h, size).1 != 0
    ensures WellFormed(g) && Owned(g, live[i := Span(Malloc(h, size).1, size)])
    ensures g.base == h.base && g.limit == h.limit && EndOf(h.blocks) <= EndOf(g.blocks)
  {
    hide Malloc;
    var p := Malloc(h, size).1;
    MallocCorrect(h, size);
    MallocGrows(h, size);
    var k :| IsNewBlock(h, g, p, size, k);
    AddOwner(h, g, live, i, Span(p, size), k);
  }

  lemma AddOwner(h: Heap, g: Heap, live: map<nat, Span>, i: nat, s: Span, k: int)
    requires WellFormed(h) && WellFormed(g) && Owned(h, live) && i !in live
    requires IsNewBlock(h, g, s.addr, s.size, k) && s.size > 0 && h.base == g.base
    ensures Owned(g, live[i := s])
  {
    hide WellFormed;
    var live', nb := live[i := s], g.blocks[k];
    assert nb in g.blocks[1..] by { assert nb == g.blocks[1..][k - 1]; }
    AllocatedTail(h);
    AllocatedTail(g);
    forall j | j in live' ensures HasPayload(g.blocks[1..], live'[j]) {
      if j == i {
        assert Holds(nb, live'[i]);
      } else {
        assert HasPayload(h.blocks[1..], live[j]);
        var b :| b in h.blocks[1..] && Holds(b, live[j]);
        assert b in g.blocks;
        assert b in g.blocks[1..];
      }
    }
    forall j | j in live ensures live[j].addr != s.addr {
      assert HasPayload(h.blocks[1..], live[j]);
      var b :| b in h.blocks[1..] && Holds(b, live[j]);
      assert b in h.blocks;
    }
    forall b | b in g.blocks[1..] && b.alloc ensures HasOwner(live', b.addr) {
      if b == nb {
        assert live'[i].addr == b.addr;
      } else {
        assert b in h.blocks && HasOwner(live, b.addr);
        var j :| j in live && live[j].addr == b.addr;
        assert live'[j].addr == b.addr;
      }
    }
  }

  /** The break never moves down. */
  lemma MallocGrows(h: Heap, size: nat)
    requires WellFormed(h) && size + 15 < SIZE_LIMIT
    ensures EndOf(h.blocks) <= EndOf(Malloc(h, size).0.blocks)
  {
    hide FindFit;
    var asize := AdjustedSize(size);
    AdjustedSizeCorrect(size);
    var k, e := FindFit(h, asize), Max(asize, CHUNKSIZE);
    if k < |h.blocks| {
      FindFitFits(h, asize);
      PlaceWellFormed(h, k, asize, h.rover);
    } else if CanGrow(h, e) {
      ExtendWellFormed(h, e);
      var g := Extend(h, e);
      PlaceWellFormed(g, |g.blocks| - 1, asize, g.rover);
    }
  }

  lemma FreeOwned(h: Heap, live: map<nat, Span>, i: nat)
    requires WellFormed(h) && Owned(h, live) && i in live
    ensures Live(h, live[i].addr) && IndexOf(h.blocks, live[i].addr) < |h.blocks|
    ensures var g := Free(h, live[i].addr);
            && WellFormed(g) && Owned(g, live - {i})
            && g.base == h.base && g.limit == h.limit && EndOf(g.blocks) == EndOf(h.blocks)
  {
    hide Free;
    LivePayload(Run(h, live), i);
    FreeWellFormed(h, live[i].addr);
    var g, live' := Free(h, live[i].addr), live - {i};
    AllocatedTail(h);
    AllocatedTail(g);
    forall j | j in live' ensures HasPayload(g.blocks[1..], live'[j]) {
      assert HasPayload(h.blocks[1..], live[j]);
      var b :| b in h.blocks[1..] && Holds(b, live[j]);
      assert b in g.blocks[1..];
    }
    forall b | b in g.blocks[1..] && b.alloc ensures HasOwner(live', b.addr) {
      assert b in h.blocks[1..] && HasOwner(live, b.addr);
      var j :| j in live && live[j].addr == b.addr;
      assert j in live';
    }
  }

  /** Every request keeps the invariant. */
  lemma StepKeepsInv(d: Run, op: TraceOp)
    requires Inv(d) && Legal(d.live.Keys, op) && Step(d, op).Some?
    ensures var e := Step(d, op).value;
            && Inv(e) && e.live.Keys == IdsAfter(d.live.Keys, op)
            && e.heap.base == d.heap.base && e.heap.limit == d.heap.limit
            && EndOf(d.heap.blocks) <= EndOf(e.heap.blocks)
  {
    hide Malloc, Free, Realloc, Owned;
    match op
    case ALLOC(i, size) =>
      AllocOwned(d.heap, Malloc(d.heap, size).0, d.live, i, size);
    case FREE(i) =>
      FreeOwned(d.heap, d.live, i);
    case REALLOC(i, size) =>
      LivePayload(d, i);
      ReallocOwned(d.heap, d.live, i, size);
  }

  /** `mm_realloc` is an allocation under a spare id followed by freeing the old block. */
  lemma ReallocOwned(h: Heap, live: map<nat, Span>, i: nat, size: nat)
    requires WellFormed(h) && Owned(h, live) && i in live && GoodRequest(size)
    requires Live(h, live[i].addr) && live[i].addr != 0
    requires Realloc(h, live[i].addr, size).1 != 0
    ensures var (f, p) := Realloc(h, live[i].addr, size);
            && WellFormed(f) && Owned(f, live[i := Span(p, size)])
            && f.base == h.base && f.limit == h.limit && EndOf(h.blocks) <= EndOf(f.blocks)
  {
    hide Malloc, Free, Owned;
    var (g, p) := Malloc(h, size);
    var spare := SpareId(live.Keys);
    var live1 := live[spare := Span(p, size)];
    StillLive(h, live[i].addr, size);
    AllocOwned(h, g, live, spare, size);
    FreeOwned(g, live1, i);
    RenameOwner(Free(g, live[i].addr), live1 - {i}, spare, i);
    assert (live1 - {i} - {spare})[i := live1[spare]] == live[i := Span(p, size)];
  }

  lemma RenameOwner(h: Heap, live: map<nat, Span>, i: nat, j: nat)
    requires h.blocks != [] && Owned(h, live) && i in live && j !in live
    ensures Owned(h, (live - {i})[j := live[i]])
  {
    var live' := (live - {i})[j := live[i]];
    forall k | k in live' ensures HasPayload(h.blocks[1..], live'[k]) {
      assert k != j ==> k in live;
    }
    forall b | b in h.blocks[1..] && b.alloc ensures HasOwner(live', b.addr) {
      assert HasOwner(live, b.addr);
      var k :| k in live && live[k].addr == b.addr;
      assert live'[if k == i then j else k].addr == b.addr;
    }
  }

  /** An id that is not in use. */
  ghost function SpareId(ids: set<nat>): (i: nat)
    ensures i !in ids
  {
    SpareIdExists(ids);
    var i: nat :| i !in ids;
    i
  }

  lemma SpareIdExists(ids: set<nat>)
    ensures exists i: nat :: i !in ids
  {
    var n := UpperBound(ids);
    assert n !in ids;
  }

  ghost function UpperBound(ids: set<nat>): (n: nat)
    ensures forall i :: i in ids ==> i < n
  {
    if ids == {} then 0
    else
      var x :| x in ids;
      assert forall i :: i in ids ==> i == x || i in ids - {x};
      Max(x + 1, UpperBound(ids - {x}))
  }

  // ---------------------------------------------------------------- whole runs

  /** Runs `ops` from `d`; `None` as soon as a request fails. */
  function RunTrace(d: Run, ops: seq<TraceOp>): Option<Run>
    requires Inv(d) && LegalTrace(d.live.Keys, ops)
    decreases |ops|
  {
    if ops == [] then Some(d)
    else if Step(d, ops[0]).None? then None
    else
      StepKeepsInv(d, ops[0]);
      RunTrace(Step(d, ops[0]).value, ops[1..])
  }

  /** The run just after `mm_init`. */
  function Start(base: int, limit: int): Run {
    Run(InitialHeap(base, limit), map[])
  }

  predicate Room(base: int, limit: int) {
    0 < base && base % 8 == 0 && base + 16 + CHUNKSIZE <= limit <= SIZE_LIMIT && limit - base < INT_LIMIT
  }

  lemma StartInv(base: int, limit: int)
    requires Room(base, limit)
    ensures Start(base, limit).live.Keys == {}
    ensures Inv(Start(base, limit)) && EndOf(Start(base, limit).heap.blocks) == base + 16 + CHUNKSIZE
  {
    InitialWellFormed(base, limit);
  }

  function RunFromStart(base: int, limit: int, ops: seq<TraceOp>): Option<Run>
    requires Room(base, limit) && LegalTrace({}, ops)
  {
    StartInv(base, limit);
    RunTrace(Start(base, limit), ops)
  }

  lemma {:induction false} RunKeepsInv(d: Run, ops: seq<TraceOp>)
    requires Inv(d) && LegalTrace(d.live.Keys, ops) && RunTrace(d, ops).Some?
    ensures var e := RunTrace(d, ops).value;
            && Inv(e) && e.heap.base == d.heap.base && e.heap.limit == d.heap.limit
            && EndOf(d.heap.blocks) <= EndOf(e.heap.blocks)
    decreases |ops|
  {
    if ops != [] {
      StepKeepsInv(d, ops[0]);
      RunKeepsInv(Step(d, ops[0]).value, ops[1..]);
    }
  }

  /** A run that has freed everything it allocated, in whatever order, leaves a heap that is
      one free block of all but 16 bytes. */
  lemma EverythingFreed(base: int, limit: int, ops: seq<TraceOp>)
    requires Room(base, limit) && LegalTrace({}, ops) && RunFromStart(base, limit, ops).Some?
    requires RunFromStart(base, limit, ops).value.live == map[]
    ensures var h := RunFromStart(base, limit, ops).value.heap;
            && h.blocks != []
            && h.blocks == [Block(base + 8, 8, true), Block(base + 16, EndOf(h.blocks) - base - 16, false)]
  {
    hide Inv, RunTrace;
    StartInv(base, limit);
    RunKeepsInv(Start(base, limit), ops);
    NothingLive(RunFromStart(base, limit, ops).value);
  }

  lemma NothingLive(d: Run)
    requires Inv(d) && d.live == map[] && EndOf(d.heap.blocks) > d.heap.base + 16
    ensures d.heap.blocks != []
    ensures d.heap.blocks == [Block(d.heap.base + 8, 8, true),
                              Block(d.heap.base + 16, EndOf(d.heap.blocks) - d.heap.base - 16, false)]
  {
    forall k | 1 <= k < |d.heap.blocks| ensures !d.heap.blocks[k].alloc {
      assert d.heap.blocks[k] in d.heap.blocks[1..];
    }
    HeapLaws.AllFreeIsOneBlock(d.heap);
  }

  // ---------------------------------------------------------------- utilization

  /** The sum of the values of a map. */
  ghost function Total(m: map<nat, nat>): nat {
    if m == map[] then 0 else var k := Pick(m); m[k] + Total(m - {k})
  }

  ghost function Pick(m: map<nat, nat>): (k: nat)
    requires m != map[]
    ensures k in m
  {
    var k :| k in m;
    k
  }

  lemma {:induction false} TotalRemove(m: map<nat, nat>, k: nat)
    requires k in m
    ensures Total(m) == m[k] + Total(m - {k})
    decreases |m|
  {
    var x := Pick(m);
    if x != k {
      TotalRemove(m - {x}, k);
      TotalRemove(m - {k}, x);
      assert m - {x} - {k} == m - {k} - {x};
    }
  }

  lemma TotalUpdate(m: map<nat, nat>, k: nat, v: nat)
    ensures Total(m[k := v]) == Total(m) - (if k in m then m[k] else 0) + v
  {
    TotalRemove(m[k := v], k);
    assert m[k := v] - {k} == m - {k};
    if k in m { TotalRemove(m, k); } else { assert m - {k} == m; }
  }

  function Sizes(live: map<nat, Span>): map<nat, nat> {
    map i | i in live :: live[i].size
  }

  /** The requested size of each live id, from the trace alone. */
  function SizesAfter(m: map<nat, nat>, op: TraceOp): map<nat, nat> {
    match op
    case ALLOC(i, size) => m[i := size]
    case FREE(i) => m - {i}
    case REALLOC(i, size) => m[i := size]
  }

  /** The largest number of payload bytes the trace ever has live, from the trace alone. */
  ghost function HighWater(m: map<nat, nat>, ops: seq<TraceOp>): nat
    decreases |ops|
  {
    if ops == [] then Total(m) else Max(Total(m), HighWater(SizesAfter(m, ops[0]), ops[1..]))
  }

  /** The requested sizes after the first `k` requests. */
  function SizesAt(m: map<nat, nat>, ops: seq<TraceOp>, k: nat): map<nat, nat>
    requires k <= |ops|
    decreases k
  {
    if k == 0 then m else SizesAt(SizesAfter(m, ops[0]), ops[1..], k - 1)
  }

  /** The high-water mark is the largest total at any point of the trace. */
  lemma {:induction false} HighWaterIsLargest(m: map<nat, nat>, ops: seq<TraceOp>)
    ensures forall k :: 0 <= k <= |ops| ==> Total(SizesAt(m, ops, k)) <= HighWater(m, ops)
    ensures exists k :: 0 <= k <= |ops| && Total(SizesAt(m, ops, k)) == HighWater(m, ops)
    decreases |ops|
  {
    hide Total;
    assert SizesAt(m, ops, 0) == m;
    if ops != [] {
      var m' := SizesAfter(m, ops[0]);
      HighWaterIsLargest(m', ops[1..]);
      forall k | 0 < k <= |ops| ensures Total(SizesAt(m, ops, k)) <= HighWater(m, ops) {
        assert SizesAt(m, ops, k) == SizesAt(m', ops[1..], k - 1);
      }
      var j :| 0 <= j <= |ops[1..]| && Total(SizesAt(m', ops[1..], j)) == HighWater(m', ops[1..]);
      assert SizesAt(m, ops, j + 1) == SizesAt(m', ops[1..], j);
    }
  }

  lemma SizesStep(d: Run, op: TraceOp)
    requires Inv(d) && Legal(d.live.Keys, op) && Step(d, op).Some?
    ensures Sizes(Step(d, op).value.live) == SizesAfter(Sizes(d.live), op)
  {
    hide Malloc, Free, Realloc, Owned, Coalesced, Tiles;
    var sizes, sizes' := SizesAfter(Sizes(d.live), op), Sizes(Step(d, op).value.live);
    assert sizes.Keys == sizes'.Keys;
  }

  lemma TotalOfNothing()
    ensures Total(map[]) == 0
  {
  }

  lemma SizesRemove(live: map<nat, Span>, i: nat)
    requires i in live
    ensures Total(Sizes(live)) == live[i].size + Total(Sizes(live - {i}))
    ensures |live| == |live - {i}| + 1
  {
    assert Sizes(live - {i}) == Sizes(live) - {i};
    TotalRemove(Sizes(live), i);
    assert live.Keys == (live - {i}).Keys + {i};
  }

  /** Payloads in distinct blocks, each with 8 bytes of tags, cannot exceed the blocks. */
  lemma {:induction false} PayloadsFitBlocks(bs: seq<Block>, live: map<nat, Span>)
    requires forall b :: b in bs ==> b.size >= 0
    requires forall i :: i in live ==> HasPayload(bs, live[i])
    requires forall i, j :: i in live && j in live && i != j ==> live[i].addr != live[j].addr
    ensures Total(Sizes(live)) + 8 * |live| <= SumSizes(bs)
    decreases |bs|
  {
    hide Total;
    if bs == [] {
      assert live == map[];
      TotalOfNothing();
    } else if i :| i in live && Holds(bs[0], live[i]) {
      var rest := live - {i};
      PayloadsElsewhere(bs, rest);
      PayloadsFitBlocks(bs[1..], rest);
      SizesRemove(live, i);
    } else {
      PayloadsElsewhere(bs, live);
      PayloadsFitBlocks(bs[1..], live);
    }
  }

  lemma PayloadsElsewhere(bs: seq<Block>, live: map<nat, Span>)
    requires bs != [] && forall i :: i in live ==> HasPayload(bs, live[i]) && !Holds(bs[0], live[i])
    ensures forall i :: i in live ==> HasPayload(bs[1..], live[i])
  {
  }

  /** At every point of a run, the live payloads and their tags fit beside the 16 bytes the
      allocator keeps for itself. */
  lemma LiveBytesFit(d: Run)
    requires Inv(d)
    ensures Total(Sizes(d.live)) + 8 * |d.live| <= EndOf(d.heap.blocks) - d.heap.base - 16
  {
    AllocatedTail(d.heap);
    PayloadsFitBlocks(d.heap.blocks[1..], d.live);
    HeapLaws.SizesFillHeap(d.heap);
  }

  /** The high-water mark of a completed trace is less than the final heap by 16 bytes at
      least: utilization is below 1. */
  lemma {:induction false} HighWaterFits(d: Run, ops: seq<TraceOp>)
    requires Inv(d) && LegalTrace(d.live.Keys, ops) && RunTrace(d, ops).Some?
    ensures var h := RunTrace(d, ops).value.heap;
            h.blocks != [] && HighWater(Sizes(d.live), ops) <= EndOf(h.blocks) - h.base - 16
    decreases |ops|
  {
    LiveBytesFit(d);
    RunKeepsInv(d, ops);
    if ops != [] {
      hide Step, Inv, Legal;
      StepKeepsInv(d, ops[0]);
      SizesStep(d, ops[0]);
      HighWaterFits(Step(d, ops[0]).value, ops[1..]);
    }
  }
}
