/** The checks of `lab3/mdriver.c` run against the allocator of `lab3/mm.c`: `eval_mm_valid`
    and `eval_mm_util`, with the range list they use. */
module Driver {
  import opened Common
  import opened RawMemory
  import opened BlockList
  import opened TraceModel
  import Allocator
  import HeapLaws

  const ALIGNMENT: int := 8

  // ---------------------------------------------------------------- the range list

  /** The extent of a payload, first and last byte. */
  datatype Range = Range(lo: int, hi: int)

  function RangeOf(s: Span): Range { Range(s.addr, s.addr + s.size - 1) }

  /** The overlap test of `add_range`: an end of the new range lies in `r`. */
  predicate EndsIn(lo: int, hi: int, r: Range) {
    r.lo <= lo <= r.hi || r.lo <= hi <= r.hi
  }

  predicate Within(a: int, r: Range) {
    r.lo <= a <= r.hi
  }

  /** What the overlap test finds: a byte in common, unless the new range encloses the old one. */
  lemma OverlapExactly(lo: int, hi: int, r: Range)
    requires lo <= hi && r.lo <= r.hi
    ensures EndsIn(lo, hi, r) <==>
              (exists a :: Within(a, Range(lo, hi)) && Within(a, r)) && !(lo < r.lo && r.hi < hi)
  {
    if EndsIn(lo, hi, r) {
      var a := if r.lo <= lo <= r.hi then lo else hi;
      assert Within(a, Range(lo, hi)) && Within(a, r);
    }
  }

  /** The list without its first range that starts at `lo`. */
  function WithoutRange(rs: seq<Range>, lo: int): seq<Range> {
    if rs == [] then [] else if rs[0].lo == lo then rs[1..] else [rs[0]] + WithoutRange(rs[1..], lo)
  }

  predicate DistinctRanges(rs: seq<Range>) {
    forall j, k :: 0 <= j < k < |rs| ==> rs[j].lo != rs[k].lo
  }

  lemma {:induction false} WithoutRangeElements(rs: seq<Range>, lo: int)
    requires DistinctRanges(rs)
    ensures var rs' := WithoutRange(rs, lo);
            DistinctRanges(rs') && forall r :: r in rs' <==> r in rs && r.lo != lo
  {
    if rs != [] {
      var rest := rs[1..];
      assert forall k :: 0 <= k < |rest| ==> rest[k] == rs[k + 1];
      WithoutRangeElements(rest, lo);
      var rs' := WithoutRange(rs, lo);
      forall r ensures r in rs' <==> r in rs && r.lo != lo {
        assert r in rs <==> r == rs[0] || r in rest;
      }
      if rs[0].lo != lo {
        forall j, k | 0 <= j < k < |rs'| ensures rs'[j].lo != rs'[k].lo {
          assert rs'[k] in rest;
        }
      }
    }
  }

  // ---------------------------------------------------------------- live payloads

  ghost predicate FromLive(r: Range, live: map<nat, Span>) {
    exists j :: j in live && r == RangeOf(live[j])
  }

  /** The list holds exactly the extents of the live payloads. */
  ghost predicate RangesMatch(rs: seq<Range>, live: map<nat, Span>) {
    && DistinctRanges(rs)
    && (forall r :: r in rs ==> FromLive(r, live))
    && (forall j :: j in live ==> RangeOf(live[j]) in rs)
  }

  /** Every byte of the payload is `c`. */
  ghost predicate FilledWith(s: seq<byte>, p: Span, c: int) {
    && 0 <= p.addr && p.addr + p.size <= |s|
    && forall a :: p.addr <= a < p.addr + p.size ==> s[a] == c
  }

  /** The low byte of an id, which the driver writes all over its payload. */
  function LowByte(i: nat): byte { i % 0x100 }

  ghost predicate Filled(s: seq<byte>, live: map<nat, Span>, but: set<nat>) {
    forall j :: j in live && j !in but ==> FilledWith(s, live[j], LowByte(j))
  }

  /** The block of a live id. */
  ghost function BlockOf(d: Run, i: nat): (b: Block)
    requires Inv(d) && i in d.live
    ensures b in d.heap.blocks && Holds(b, d.live[i]) && b.addr % 8 == 0
    ensures d.heap.base + 16 <= b.addr && b.End() <= EndOf(d.heap.blocks)
  {
    LivePayload(d, i);
    var k := IndexOf(d.heap.blocks, d.live[i].addr);
    PlacedBlock(d.heap, k);
    BlocksBefore(d.heap, k);
    TilesOrdered(d.heap.base + DSIZE, d.heap.blocks, EndOf(d.heap.blocks), 0, k);
    d.heap.blocks[k]
  }

  lemma Separate(d: Run, i: nat, j: nat)
    requires Inv(d) && i in d.live && j in d.live && i != j
    ensures BlockOf(d, i).End() <= BlockOf(d, j).addr || BlockOf(d, j).End() <= BlockOf(d, i).addr
  {
    LivePayload(d, i);
    LivePayload(d, j);
    var h := d.heap;
    var m, n := IndexOf(h.blocks, d.live[i].addr), IndexOf(h.blocks, d.live[j].addr);
    if m < n { TilesOrdered(h.base + DSIZE, h.blocks, EndOf(h.blocks), m, n); }
    if n < m { TilesOrdered(h.base + DSIZE, h.blocks, EndOf(h.blocks), n, m); }
  }

  /** What `add_range` checks of a payload. */
  ghost predicate PassesChecks(s: Span, lo: int, brk: int, rs: seq<Range>) {
    && s.addr % ALIGNMENT == 0
    && lo <= s.addr && s.addr + s.size <= brk
    && forall r :: r in rs ==> !EndsIn(s.addr, s.addr + s.size - 1, r)
  }

  /** A live payload passes the checks against the ranges of all other payloads. */
  lemma ChecksPass(d: Run, i: nat, rs: seq<Range>)
    requires Inv(d) && i in d.live && d.live[i].size > 0
    requires RangesMatch(rs, d.live - {i})
    ensures PassesChecks(d.live[i], d.heap.base, EndOf(d.heap.blocks), rs)
    ensures RangesMatch([RangeOf(d.live[i])] + rs, d.live)
  {
    var b, live := BlockOf(d, i), d.live - {i};
    forall r | r in rs ensures !EndsIn(b.addr, b.addr + d.live[i].size - 1, r) && r.lo != b.addr {
      var j :| j in live && r == RangeOf(live[j]);
      Separate(d, i, j);
      assert BlockOf(d, j).size >= DSIZE;
    }
    AddRangeMatches(rs, d.live, i);
  }

  lemma AddRangeMatches(rs: seq<Range>, live: map<nat, Span>, i: nat)
    requires i in live && RangesMatch(rs, live - {i})
    requires forall r :: r in rs ==> r.lo != live[i].addr
    ensures RangesMatch([RangeOf(live[i])] + rs, live)
  {
    var rs' := [RangeOf(live[i])] + rs;
    forall r | r in rs' ensures FromLive(r, live) {
      if r in rs {
        var j :| j in live - {i} && r == RangeOf((live - {i})[j]);
        assert r == RangeOf(live[j]);
      }
    }
    forall j | j in live ensures RangeOf(live[j]) in rs' {
      if j != i { assert RangeOf((live - {i})[j]) in rs; }
    }
  }

  lemma RangesAfterRemoval(rs: seq<Range>, live: map<nat, Span>, i: nat)
    requires RangesMatch(rs, live) && i in live
    requires forall j :: j in live && j != i ==> live[j].addr != live[i].addr
    ensures RangesMatch(WithoutRange(rs, live[i].addr), live - {i})
  {
    hide WithoutRange;
    var live', rs' := live - {i}, WithoutRange(rs, live[i].addr);
    WithoutRangeElements(rs, live[i].addr);
    forall r | r in rs' ensures FromLive(r, live') {
      var j :| j in live && r == RangeOf(live[j]);
      assert j in live';
    }
  }

  /** Payload bytes survive as long as their block is among those that are kept. */
  lemma StaysFilled(d: Run, j: nat, s: seq<byte>, bs: seq<Block>, t: seq<byte>, bs': seq<Block>)
    requires Inv(d) && j in d.live && BlockOf(d, j) in bs
    requires Allocator.LiveKept(s, bs, t, bs') && FilledWith(s, d.live[j], LowByte(j))
    ensures FilledWith(t, d.live[j], LowByte(j))
  {
  }

  /** `memset` of payload `i` completes the filling and leaves tags and other payloads alone. */
  lemma FillStep(e: Run, s: seq<byte>, t: seq<byte>, i: nat)
    requires Inv(e) && i in e.live && Filled(s, e.live, {i})
    requires Allocator.Represents(s, e.heap.blocks)
    requires SameOutside(s, t, e.live[i].addr, e.live[i].addr + e.live[i].size)
    requires FilledWith(t, e.live[i], LowByte(i))
    ensures Filled(t, e.live, {}) && Allocator.Represents(t, e.heap.blocks)
  {
    forall j | j in e.live ensures FilledWith(t, e.live[j], LowByte(j)) {
      if j != i { Separate(e, i, j); }
    }
    LivePayload(e, i);
    var k := IndexOf(e.heap.blocks, e.live[i].addr);
    Allocator.TagsSurvivePayloadWrites(s, t, e.heap.blocks, k, e.live[i].addr, e.live[i].addr + e.live[i].size);
  }

  /** The ALLOC step, as the driver sees it. */
  lemma AllocFacts(d: Run, i: nat, size: nat)
    requires Inv(d) && Legal(d.live.Keys, ALLOC(i, size))
    ensures d.heap.blocks != [] && WellFormed(d.heap)
    ensures var (g, p) := Malloc(d.heap, size);
            Step(d, ALLOC(i, size)) == if p == 0 then None else Some(Run(g, d.live[i := Span(p, size)]))
  {
  }

  lemma AllocStep(d: Run, i: nat, size: nat, s: seq<byte>, s1: seq<byte>)
    requires Inv(d) && Legal(d.live.Keys, ALLOC(i, size)) && Step(d, ALLOC(i, size)).Some?
    requires Filled(s, d.live, {})
    requires Allocator.LiveKept(s, d.heap.blocks, s1, Step(d, ALLOC(i, size)).value.heap.blocks)
    ensures var e := Step(d, ALLOC(i, size)).value;
            && Inv(e) && e.live - {i} == d.live && Filled(s1, e.live, {i})
            && e.live[i].size == size && e.live[i].addr % 8 == 0
            && d.heap.base <= e.live[i].addr && e.live[i].addr + size <= EndOf(e.heap.blocks)
  {
    hide Malloc, Free, Realloc;
    StepKeepsInv(d, ALLOC(i, size));
    var e := Step(d, ALLOC(i, size)).value;
    var b := BlockOf(e, i);
    forall j | j in e.live && j != i ensures FilledWith(s1, e.live[j], LowByte(j)) {
      var c := BlockOf(d, j);
      StaysFilled(d, j, s, d.heap.blocks, s1, e.heap.blocks);
    }
  }

  lemma FreeFacts(d: Run, i: nat)
    requires Inv(d) && Legal(d.live.Keys, FREE(i))
    ensures d.heap.blocks != [] && WellFormed(d.heap) && Live(d.heap, d.live[i].addr) && d.live[i].addr != 0
    ensures IndexOf(d.heap.blocks, d.live[i].addr) < |d.heap.blocks|
    ensures Step(d, FREE(i)) == Some(Run(Free(d.heap, d.live[i].addr), d.live - {i}))
    ensures forall j :: j in d.live && j != i ==> d.live[j].addr != d.live[i].addr
  {
    LivePayload(d, i);
  }

  /** The other live blocks are among those that survive freeing block `i`. */
  lemma OthersUnmarked(d: Run, i: nat, j: nat)
    requires Inv(d) && i in d.live && j in d.live && i != j
    ensures IndexOf(d.heap.blocks, d.live[i].addr) < |d.heap.blocks|
    ensures BlockOf(d, j) in MarkFree(d.heap.blocks, IndexOf(d.heap.blocks, d.live[i].addr))
  {
    LivePayload(d, i);
    MarkFreeRemoves(d.heap, IndexOf(d.heap.blocks, d.live[i].addr));
  }

  lemma FreeStep(d: Run, i: nat, s: seq<byte>, s1: seq<byte>)
    requires Inv(d) && Legal(d.live.Keys, FREE(i)) && Filled(s, d.live, {})
    requires IndexOf(d.heap.blocks, d.live[i].addr) < |d.heap.blocks|
    requires Step(d, FREE(i)).Some?
    requires Allocator.LiveKept(s, MarkFree(d.heap.blocks, IndexOf(d.heap.blocks, d.live[i].addr)),
                                s1, Step(d, FREE(i)).value.heap.blocks)
    ensures var e := Step(d, FREE(i)).value; Inv(e) && Filled(s1, e.live, {})
  {
    hide Free;
    StepKeepsInv(d, FREE(i));
    var e := Step(d, FREE(i)).value;
    forall j | j in e.live ensures FilledWith(s1, e.live[j], LowByte(j)) {
      OthersUnmarked(d, i, j);
      StaysFilled(d, j, s, MarkFree(d.heap.blocks, IndexOf(d.heap.blocks, d.live[i].addr)), s1, e.heap.blocks);
    }
  }

  lemma ReallocFacts(d: Run, i: nat, size: nat)
    requires Inv(d) && Legal(d.live.Keys, REALLOC(i, size))
    ensures d.heap.blocks != [] && WellFormed(d.heap) && Live(d.heap, d.live[i].addr) && d.live[i].addr != 0
    ensures var (g, p) := Realloc(d.heap, d.live[i].addr, size);
            Step(d, REALLOC(i, size)) == if p == 0 then None else Some(Run(g, d.live[i := Span(p, size)]))
    ensures forall j :: j in d.live && j != i ==> d.live[j].addr != d.live[i].addr
  {
    LivePayload(d, i);
  }

  /** After `mm_realloc`, the other payloads are as before and the new one starts with the old
      data: the driver's comparison sees the low byte of the id in every byte it looks at. */
  lemma ReallocStep(d: Run, i: nat, size: nat, s: seq<byte>, s1: seq<byte>)
    requires Inv(d) && Legal(d.live.Keys, REALLOC(i, size)) && Step(d, REALLOC(i, size)).Some?
    requires Filled(s, d.live, {})
    requires var k, e := IndexOf(d.heap.blocks, d.live[i].addr), Step(d, REALLOC(i, size)).value;
             && k < |d.heap.blocks|
             && Allocator.LiveKept(s, MarkFree(d.heap.blocks, k), s1, e.heap.blocks)
             && Allocator.CopiedPayload(s, d.live[i].addr, s1, e.live[i].addr,
                                        Min(size, d.heap.blocks[k].size - DSIZE))
    ensures var e := Step(d, REALLOC(i, size)).value;
            && Inv(e) && e.live - {i} == d.live - {i} && Filled(s1, e.live, {i})
            && e.live[i].size == size && e.live[i].addr % 8 == 0
            && d.heap.base <= e.live[i].addr && e.live[i].addr + size <= EndOf(e.heap.blocks)
            && FilledWith(s1, Span(e.live[i].addr, Min(size, d.live[i].size)), LowByte(i))
    ensures d.live[i].size > 0
  {
    hide Realloc, Filled, FilledWith, Allocator.LiveKept, Allocator.CopiedPayload, Step, Inv;
    var e, k := Step(d, REALLOC(i, size)).value, IndexOf(d.heap.blocks, d.live[i].addr);
    ReallocBounds(d, i, size);
    OthersFilled(d, e, i, s, s1);
    LivePayload(d, i);
    FilledAt(s, d.live, i);
    CopiedFilling(s, d.live[i].addr, s1, e.live[i].addr, d.live[i].size,
                  Min(size, d.heap.blocks[k].size - DSIZE), LowByte(i));
  }

  lemma ReallocBounds(d: Run, i: nat, size: nat)
    requires Inv(d) && Legal(d.live.Keys, REALLOC(i, size)) && Step(d, REALLOC(i, size)).Some?
    ensures var e := Step(d, REALLOC(i, size)).value;
            && Inv(e) && e.live - {i} == d.live - {i} && i in e.live
            && e.live[i].size == size && e.live[i].addr % 8 == 0
            && d.heap.base <= e.live[i].addr && e.live[i].addr + size <= EndOf(e.heap.blocks)
  {
    hide Realloc, Step;
    StepKeepsInv(d, REALLOC(i, size));
    ReallocFacts(d, i, size);
    var b := BlockOf(Step(d, REALLOC(i, size)).value, i);
  }

  lemma FilledAt(s: seq<byte>, live: map<nat, Span>, i: nat)
    requires Filled(s, live, {}) && i in live
    ensures FilledWith(s, live[i], LowByte(i))
  {
  }

  lemma OthersFilled(d: Run, e: Run, i: nat, s: seq<byte>, s1: seq<byte>)
    requires Inv(d) && i in d.live && Filled(s, d.live, {}) && e.live - {i} == d.live - {i}
    requires var k := IndexOf(d.heap.blocks, d.live[i].addr);
             && k < |d.heap.blocks|
             && Allocator.LiveKept(s, MarkFree(d.heap.blocks, k), s1, e.heap.blocks)
    ensures Filled(s1, e.live, {i})
  {
    forall j | j in e.live && j != i ensures FilledWith(s1, e.live[j], LowByte(j)) {
      assert j in e.live - {i} && (e.live - {i})[j] == (d.live - {i})[j];
      OthersUnmarked(d, i, j);
      StaysFilled(d, j, s, MarkFree(d.heap.blocks, IndexOf(d.heap.blocks, d.live[i].addr)), s1, e.heap.blocks);
    }
  }

  lemma CopiedFilling(s: seq<byte>, p: int, t: seq<byte>, q: int, size: nat, n: nat, c: int)
    requires FilledWith(s, Span(p, size), c) && Allocator.CopiedPayload(s, p, t, q, n)
    ensures FilledWith(t, Span(q, Min(n, size)), c)
  {
    forall a | q <= a < q + Min(n, size) ensures t[a] == c {
      assert t[a] == t[q..q + n][a - q] == s[p..p + n][a - q];
    }
  }

  // ---------------------------------------------------------------- the driver

  /** The value of a byte as a plain `char`, which is signed. */
  function AsChar(b: byte): int {
    if b < 128 then b else b - 256
  }

  /** The data check of a REALLOC compares plain `char`s with a low byte, so it can only
      succeed for ids whose low byte is below 128. */
  predicate CharSafe(op: TraceOp) {
    op.REALLOC? ==> LowByte(op.index) < 128
  }

  lemma FilledByFill(s: seq<byte>, p: int, n: nat, c: byte)
    requires 0 <= p && p + n <= |s| && forall a :: p <= a < p + n ==> s[a] == c
    ensures FilledWith(s, Span(p, n), c)
  {
  }

  lemma CharComparison(s: seq<byte>, p: Span, c: byte)
    requires FilledWith(s, p, c) && p.size > 0
    ensures 0 <= p.addr && p.addr + p.size <= |s|
    ensures (forall a :: p.addr <= a < p.addr + p.size ==> AsChar(s[a]) == c) <==> c < 128
  {
    assert s[p.addr] == c;
  }

  /** The trace can be run to its end without running out of heap. */
  predicate Succeeds(base: int, limit: int, ops: seq<TraceOp>)
    requires LegalTrace({}, ops)
  {
    Room(base, limit) && RunFromStart(base, limit, ops).Some?
  }

  /** One byte is allocated and reallocated under id `i`. */
  function OneByte(i: nat): seq<TraceOp> {
    [ALLOC(i, 1), REALLOC(i, 1)]
  }

  lemma OneByteLegal(i: nat)
    ensures LegalTrace({}, OneByte(i))
  {
  }

  /** After a byte has been allocated in a fresh heap, there is a free block of 4080 bytes. */
  lemma OneByteHeap(base: int, limit: int)
    requires Room(base, limit)
    ensures var h := InitialHeap(base, limit);
            Malloc(h, 1) == (h.(blocks := [h.blocks[0], Block(base + 16, 16, true), Block(base + 32, 4080, false)],
                                rover := base + 16), base + 16)
  {
    InitialWellFormed(base, limit);
    var h := InitialHeap(base, limit);
    HeapLaws.FindFitIsNearest(h, 16);
    assert Fits(h.blocks[1], 16) && !Fits(h.blocks[0], 16);
    assert FindFit(h, 16) == 1;
    hide FindFit, InitialHeap;
    assert Place(h.blocks, 1, 16) == [h.blocks[0], Block(base + 16, 16, true), Block(base + 32, 4080, false)];
  }

  /** The false alarm of `eval_mm_valid`: for every id whose low byte is at least 128, and every
      heap with room for `mm_init`, a legal trace that the allocator serves in full contains a
      REALLOC that the driver reports as not preserving the data. */
  lemma SignedCharFalseAlarm(base: int, limit: int, i: nat)
    requires Room(base, limit)
    ensures LegalTrace({}, OneByte(i)) && Succeeds(base, limit, OneByte(i))
    ensures (forall op :: op in OneByte(i) ==> CharSafe(op)) <==> i % 256 < 128
  {
    hide Inv, Malloc, RunTrace, LegalTrace, Step, InitialHeap;
    var d, ops := Start(base, limit), OneByte(i);
    OneByteLegal(i);
    StartInv(base, limit);
    OneByteHeap(base, limit);
    AllocFacts(d, i, 1);
    var e := Step(d, ops[0]).value;
    StepKeepsInv(d, ops[0]);
    assert Fits(e.heap.blocks[2], AdjustedSize(1));
    ReallocServed(e, i);
    UnfoldTwo(d, ops);
    assert ops[1] in ops;
  }

  /** A live byte can be reallocated when some free block has room. */
  lemma ReallocServed(e: Run, i: nat)
    requires Inv(e) && i in e.live && exists m :: 0 <= m < |e.heap.blocks| && Fits(e.heap.blocks[m], AdjustedSize(1))
    ensures Step(e, REALLOC(i, 1)).Some?
  {
    hide Inv;
    ReallocFacts(e, i, 1);
    hide Malloc, Step;
    HeapLaws.MallocFailsExactly(e.heap, 1);
  }

  lemma UnfoldTwo(d: Run, ops: seq<TraceOp>)
    requires |ops| == 2 && Inv(d) && LegalTrace(d.live.Keys, ops)
    requires Step(d, ops[0]).Some?
    requires Inv(Step(d, ops[0]).value) && Legal(Step(d, ops[0]).value.live.Keys, ops[1])
    requires Step(Step(d, ops[0]).value, ops[1]).Some?
    ensures RunTrace(d, ops).Some?
  {
    hide Inv, Step;
    UnfoldRun(d, ops, 0);
    assert ops[0..] == ops;
    var e := Step(d, ops[0]).value;
    UnfoldRun(e, ops, 1);
    var f := Step(e, ops[1]).value;
    assert ops[2..] == [];
  }

  lemma SizesChange(live: map<nat, Span>, op: TraceOp)
    requires op.ALLOC? ==> op.index !in live
    requires !op.ALLOC? ==> op.index in live
    ensures Total(SizesAfter(Sizes(live), op)) - Total(Sizes(live)) ==
            match op
            case ALLOC(_, size) => size as int
            case REALLOC(i, size) => size as int - live[i].size
            case FREE(i) => 0 - live[i].size as int
  {
    var m := Sizes(live);
    if op.FREE? { TotalRemove(m, op.index); } else { TotalUpdate(m, op.index, op.size); }
  }

  lemma StartTotals(base: int, limit: int, ops: seq<TraceOp>)
    requires Room(base, limit)
    ensures Sizes(Start(base, limit).live) == map[] && Total(map[]) == 0
    ensures HighWater(map[], ops) >= 0
  {
  }

  lemma RunFromStartIs(base: int, limit: int, ops: seq<TraceOp>)
    requires Room(base, limit) && LegalTrace({}, ops)
    ensures Inv(Start(base, limit)) && Start(base, limit).live.Keys == {}
    ensures RunFromStart(base, limit, ops) == RunTrace(Start(base, limit), ops)
  {
    StartInv(base, limit);
  }

  /** One iteration of a driver loop. */
  lemma UnfoldRun(d: Run, ops: seq<TraceOp>, i: nat)
    requires i < |ops| && Inv(d) && LegalTrace(d.live.Keys, ops[i..])
    ensures Legal(d.live.Keys, ops[i]) && LegalTrace(IdsAfter(d.live.Keys, ops[i]), ops[i + 1..])
    ensures Step(d, ops[i]).None? ==> RunTrace(d, ops[i..]).None?
    ensures Step(d, ops[i]).Some? ==>
              var e := Step(d, ops[i]).value;
              && Inv(e) && LegalTrace(e.live.Keys, ops[i + 1..])
              && RunTrace(d, ops[i..]) == RunTrace(e, ops[i + 1..])
  {
    hide Step, Inv;
    assert ops[i..][0] == ops[i] && ops[i..][1..] == ops[i + 1..];
    if Step(d, ops[i]).Some? { StepKeepsInv(d, ops[i]); }
  }

  lemma UnfoldHighWater(m: map<nat, nat>, ops: seq<TraceOp>, i: nat)
    requires i < |ops|
    ensures HighWater(m, ops[i..]) == Max(Total(m), HighWater(SizesAfter(m, ops[i]), ops[i + 1..]))
    ensures Total(SizesAfter(m, ops[i])) <= HighWater(SizesAfter(m, ops[i]), ops[i + 1..])
  {
    assert ops[i..][0] == ops[i] && ops[i..][1..] == ops[i + 1..];
  }

  lemma UnfoldEnd(d: Run, ops: seq<TraceOp>)
    requires Inv(d) && LegalTrace(d.live.Keys, ops[|ops|..])
    ensures RunTrace(d, ops[|ops|..]) == Some(d)
    ensures HighWater(Sizes(d.live), ops[|ops|..]) == Total(Sizes(d.live))
  {
    hide Inv;
  }

  lemma Quotient(x: nat, y: int)
    requires x < y
    ensures 0.0 <= x as real / y as real < 1.0
  {
  }

  /** The driver, with the two arrays of the trace it runs. */
  class Driver {
    const mm: Allocator.Mm
    const blocks: array<int>
    const blockSizes: array<int>
    var ranges: seq<Range>

    constructor (mm: Allocator.Mm, numIds: nat)
      ensures this.mm == mm && fresh(blocks) && fresh(blockSizes)
      ensures Separated() && blocks.Length == numIds
    {
      this.mm := mm;
      blocks := new int[numIds];
      blockSizes := new int[numIds];
      ranges := [];
    }

    /** The trace's arrays have the same length and share nothing with the heap. */
    ghost predicate Separated() {
      && blocks.Length == blockSizes.Length
      && blocks != blockSizes
      && mm.mem.bytes as object != blocks && mm.mem.bytes as object != blockSizes
    }

    /** The driver's records agree with the run `d`. */
    ghost predicate Tracks(d: Run)
      reads this, mm, mm.mem, mm.mem.bytes, blocks, blockSizes
    {
      && Separated()
      && mm.Valid() && mm.Abs() == d.heap && Inv(d)
      && RangesMatch(ranges, d.live)
      && Filled(mm.mem.bytes[..], d.live, {})
      && Recorded(d.live)
    }

    ghost predicate Recorded(live: map<nat, Span>)
      requires blocks.Length == blockSizes.Length
      reads blocks, blockSizes
    {
      forall j :: j in live ==>
        j < blocks.Length && blocks[j] == live[j].addr && blockSizes[j] == live[j].size
    }

    /** Record a payload in the trace's arrays. */
    method Remember(ghost live: map<nat, Span>, index: nat, p: int, size: nat)
      requires Separated() && index < blocks.Length && Recorded(live - {index})
      modifies blocks, blockSizes
      ensures Recorded(live[index := Span(p, size)])
      ensures forall j :: 0 <= j < blocks.Length && j != index ==>
                blocks[j] == old(blocks[j]) && blockSizes[j] == old(blockSizes[j])
      ensures blocks[index] == p && blockSizes[index] == size
    {
      blocks[index] := p;
      blockSizes[index] := size;
      assert forall j :: j in live && j != index ==> j in live - {index};
    }

    /** `add_range` */
    method AddRange(lo: int, size: nat) returns (ok: bool)
      requires size > 0
      modifies this`ranges
      ensures ok <==> PassesChecks(Span(lo, size), mm.mem.start, mm.mem.brk, old(ranges))
      ensures ok <==> && lo % 8 == 0 && mm.mem.start <= lo && lo + size <= mm.mem.brk
                      && forall r :: r in old(ranges) ==>
                           !(r.lo <= lo <= r.hi) && !(r.lo <= lo + size - 1 <= r.hi)
      ensures ranges == if ok then [RangeOf(Span(lo, size))] + old(ranges) else old(ranges)
    {
      var hi := lo + size - 1;
      if lo % ALIGNMENT != 0 {
        return false;
      }
      if lo < mm.mem.HeapLo() || lo > mm.mem.HeapHi() || hi < mm.mem.HeapLo() || hi > mm.mem.HeapHi() {
        return false;
      }
      for p := 0 to |ranges|
        invariant forall k :: 0 <= k < p ==> !EndsIn(lo, hi, ranges[k])
      {
        if EndsIn(lo, hi, ranges[p]) {
          assert ranges[p] in ranges;
          return false;
        }
      }
      ranges := [Range(lo, hi)] + ranges;
      return true;
    }

    /** `remove_range` */
    method RemoveRange(lo: int)
      modifies this`ranges
      ensures ranges == WithoutRange(old(ranges), lo)
    {
      var p := 0;
      while p < |ranges|
        invariant 0 <= p <= |ranges| && ranges == old(ranges)
        invariant WithoutRange(ranges, lo) == ranges[..p] + WithoutRange(ranges[p..], lo)
      {
        if ranges[p].lo == lo {
          ranges := ranges[..p] + ranges[p + 1..];
          return;
        }
        assert ranges[..p] + [ranges[p]] == ranges[..p + 1];
        p := p + 1;
      }
    }

    /** The ALLOC case of `eval_mm_valid`. */
    method CheckAlloc(ghost d: Run, index: nat, size: nat) returns (ok: bool)
      requires Tracks(d) && index < blocks.Length
      requires Legal(d.live.Keys, ALLOC(index, size))
      modifies this`ranges, mm, mm.mem`brk, mm.mem.bytes, blocks, blockSizes
      ensures ok <==> Step(d, ALLOC(index, size)).Some?
      ensures ok ==> Tracks(Step(d, ALLOC(index, size)).value)
    {
      hide Inv, Malloc, Step, Filled, FilledWith, Allocator.LiveKept, Allocator.Represents, WellFormed, RangesMatch;
      ghost var s := mm.mem.bytes[..];
      AllocFacts(d, index, size);
      var p := mm.Malloc(size);
      if p == 0 {
        return false;
      }
      ghost var e, s1 := Step(d, ALLOC(index, size)).value, mm.mem.bytes[..];
      AllocStep(d, index, size, s, s1);
      ChecksPass(e, index, ranges);
      ok := AddRange(p, size);
      if ok {
        StorePayload(e, index, p, size);
      }
    }

    /** `memset` the new payload and record it in the trace's arrays. */
    method StorePayload(ghost e: Run, index: nat, p: int, size: nat)
      requires Separated() && mm.Valid() && mm.Abs() == e.heap && Inv(e) && RangesMatch(ranges, e.live)
      requires Filled(mm.mem.bytes[..], e.live, {index}) && Recorded(e.live - {index})
      requires index in e.live && index < blocks.Length && e.live[index] == Span(p, size)
      requires 0 <= p && p + size <= mm.mem.bytes.Length
      modifies mm.mem.bytes, blocks, blockSizes
      ensures Tracks(e)
    {
      hide Inv, Filled, FilledWith, Allocator.Represents, RangesMatch;
      ghost var s1 := mm.mem.bytes[..];
      Fill(mm.mem.bytes, p, LowByte(index), size);
      FilledByFill(mm.mem.bytes[..], p, size, LowByte(index));
      FillStep(e, s1, mm.mem.bytes[..], index);
      Remember(e.live, index, p, size);
      assert e.live[index := Span(p, size)] == e.live;
    }

    /** The FREE case of `eval_mm_valid`. */
    method CheckFree(ghost d: Run, index: nat)
      requires Tracks(d) && Legal(d.live.Keys, FREE(index))
      modifies this`ranges, mm, mm.mem.bytes
      ensures Step(d, FREE(index)).Some? && Tracks(Step(d, FREE(index)).value)
    {
      hide Inv, Step, Filled, FilledWith, Allocator.LiveKept, Allocator.Represents, RangesMatch, BlockList.Free;
      ghost var s := mm.mem.bytes[..];
      FreeFacts(d, index);
      var p := blocks[index];
      RangesAfterRemoval(ranges, d.live, index);
      RemoveRange(p);
      mm.Free(p);
      FreeStep(d, index, s, mm.mem.bytes[..]);
    }

    /** The REALLOC case of `eval_mm_valid`. */
    method CheckRealloc(ghost d: Run, index: nat, size: nat) returns (ok: bool)
      requires Tracks(d) && Legal(d.live.Keys, REALLOC(index, size))
      modifies this`ranges, mm, mm.mem`brk, mm.mem.bytes, blocks, blockSizes
      ensures ok <==> Step(d, REALLOC(index, size)).Some? && CharSafe(REALLOC(index, size))
      ensures ok ==> Tracks(Step(d, REALLOC(index, size)).value)
    {
      hide Inv, Step, Filled, FilledWith, Allocator.LiveKept, Allocator.Represents, RangesMatch, BlockList.Realloc;
      ghost var s := mm.mem.bytes[..];
      ReallocFacts(d, index, size);
      var oldp := blocks[index];
      var newp := mm.Realloc(oldp, size);
      if newp == 0 {
        return false;
      }
      ghost var e, s1 := Step(d, REALLOC(index, size)).value, mm.mem.bytes[..];
      ReallocStep(d, index, size, s, s1);
      RangesAfterRemoval(ranges, d.live, index);
      RemoveRange(oldp);
      ChecksPass(e, index, ranges);
      ok := AddRange(newp, size);
      if ok {
        ok := ReplaceData(e, d.live[index].size, index, newp, size);
      }
    }

    /** The end of the REALLOC case: compare the old data, refill the payload, record it. */
    method ReplaceData(ghost e: Run, ghost was: nat, index: nat, newp: int, size: nat) returns (ok: bool)
      requires Separated() && mm.Valid() && mm.Abs() == e.heap && Inv(e) && RangesMatch(ranges, e.live)
      requires Filled(mm.mem.bytes[..], e.live, {index}) && Recorded(e.live - {index})
      requires index in e.live && index < blocks.Length && e.live[index] == Span(newp, size)
      requires 0 <= newp && newp + size <= mm.mem.bytes.Length && size > 0
      requires blockSizes[index] == was && was > 0
      requires FilledWith(mm.mem.bytes[..], Span(newp, Min(size, was)), LowByte(index))
      modifies mm.mem.bytes, blocks, blockSizes
      ensures ok <==> LowByte(index) < 128
      ensures ok ==> Tracks(e)
    {
      hide Inv, Filled, FilledWith, Allocator.Represents, RangesMatch;
      var oldSize := blockSizes[index];
      if size < oldSize {
        oldSize := size;
      }
      CharComparison(mm.mem.bytes[..], Span(newp, oldSize), LowByte(index));
      ok := SameData(newp, oldSize, index);
      if ok {
        StorePayload(e, index, newp, size);
      }
    }

    /** The data check of the REALLOC case, a comparison of plain `char`s. */
    method SameData(newp: int, oldSize: nat, index: nat) returns (ok: bool)
      requires 0 <= newp && newp + oldSize <= mm.mem.bytes.Length
      ensures ok <==> forall a :: newp <= a < newp + oldSize ==> AsChar(mm.mem.bytes[a]) == LowByte(index)
    {
      var j := 0;
      while j < oldSize
        invariant 0 <= j <= oldSize
        invariant forall a :: newp <= a < newp + j ==> AsChar(mm.mem.bytes[a]) == LowByte(index)
      {
        if AsChar(mm.mem.bytes[newp + j]) != LowByte(index) {
          return false;
        }
        j := j + 1;
      }
      return true;
    }

    /** One request of `eval_mm_valid`. */
    method CheckOp(ghost d: Run, op: TraceOp) returns (ok: bool)
      requires Tracks(d) && Legal(d.live.Keys, op) && op.index < blocks.Length
      modifies this`ranges, mm, mm.mem`brk, mm.mem.bytes, blocks, blockSizes
      ensures ok <==> Step(d, op).Some? && (op.REALLOC? ==> op.index % 256 < 128)
      ensures ok ==> Tracks(Step(d, op).value)
    {
      hide Inv, Step, Tracks;
      match op {
        case ALLOC(index, size) =>
          ok := CheckAlloc(d, index, size);
        case REALLOC(index, size) =>
          ok := CheckRealloc(d, index, size);
        case FREE(index) =>
          CheckFree(d, index);
          ok := true;
      }
    }

    /** `mem_reset_brk` and `mm_init`, with which both evaluations start. */
    method ResetHeap() returns (r: int)
      requires mm.mem.Valid()
      modifies mm, mm.mem`brk, mm.mem.bytes
      ensures r == 0 || r == -1
      ensures r == 0 <==> Room(mm.mem.start, mm.mem.maxAddr)
      ensures r == 0 ==>
                var d := Start(mm.mem.start, mm.mem.maxAddr);
                && mm.Valid() && mm.Abs() == d.heap && Inv(d) && d.live.Keys == {}
    {
      mm.mem.ResetBrk();
      r := mm.Init();
      if r == 0 {
        StartInv(mm.mem.start, mm.mem.maxAddr);
      }
    }

    /** `eval_mm_valid`: on every legal trace it reports success exactly when the allocator
        never ran out of heap and no REALLOC met the signed-`char` comparison. */
    method EvalMmValid(ops: seq<TraceOp>) returns (valid: bool)
      requires mm.mem.Valid() && Separated()
      requires LegalTrace({}, ops) && forall op :: op in ops ==> op.index < blocks.Length
      modifies this`ranges, mm, mm.mem`brk, mm.mem.bytes, blocks, blockSizes
      ensures valid <==>
                && Succeeds(mm.mem.start, mm.mem.maxAddr, ops)
                && forall op :: op in ops && op.REALLOC? ==> op.index % 256 < 128
    {
      ranges := [];
      var r := ResetHeap();
      if r < 0 {
        return false;
      }
      ghost var d := Start(mm.mem.start, mm.mem.maxAddr);
      assert Tracks(d);
      hide Inv, Step, Start, CharSafe, Filled;
      for i := 0 to |ops|
        invariant Tracks(d) && LegalTrace(d.live.Keys, ops[i..])
        invariant RunFromStart(mm.mem.start, mm.mem.maxAddr, ops) == RunTrace(d, ops[i..])
        invariant forall k :: 0 <= k < i ==> CharSafe(ops[k])
      {
        assert ops[i..][0] == ops[i] && ops[i..][1..] == ops[i + 1..];
        var ok := CheckOp(d, ops[i]);
        if !ok {
          return false;
        }
        StepKeepsInv(d, ops[i]);
        d := Step(d, ops[i]).value;
      }
      return true;
    }

    /** What `eval_mm_util` keeps: the allocator and the trace's arrays, but no ranges or data. */
    ghost predicate Follows(d: Run)
      reads this, mm, mm.mem, mm.mem.bytes, blocks, blockSizes
    {
      Separated() && mm.Valid() && mm.Abs() == d.heap && Inv(d) && Recorded(d.live)
    }

    /** One request of `eval_mm_util`, with the change it makes to the total payload size. */
    method UtilOp(ghost d: Run, op: TraceOp) returns (ok: bool, delta: int)
      requires Follows(d) && Inv(d) && Legal(d.live.Keys, op) && op.index < blocks.Length
      modifies mm, mm.mem`brk, mm.mem.bytes, blocks, blockSizes
      ensures ok <==> Step(d, op).Some?
      ensures ok ==> Follows(Step(d, op).value)
      ensures ok ==> delta == Total(SizesAfter(Sizes(d.live), op)) - Total(Sizes(d.live))
    {
      hide Inv, Step, Total, Follows;
      SizesChange(d.live, op);
      match op {
        case ALLOC(index, size) =>
          ok := UtilAlloc(d, index, size);
          delta := size;
        case REALLOC(index, size) =>
          assert blockSizes[index] == d.live[index].size by { FollowsRecorded(d); }
          var oldSize := blockSizes[index];
          ok := UtilRealloc(d, index, size);
          delta := size - oldSize;
        case FREE(index) =>
          assert blockSizes[index] == d.live[index].size by { FollowsRecorded(d); }
          UtilFree(d, index);
          ok := true;
          delta := -blockSizes[index];
      }
    }

    lemma FollowsRecorded(d: Run)
      requires Follows(d)
      ensures blocks.Length == blockSizes.Length && Recorded(d.live)
    {
    }

    method UtilAlloc(ghost d: Run, index: nat, size: nat) returns (ok: bool)
      requires Follows(d) && Legal(d.live.Keys, ALLOC(index, size)) && index < blocks.Length
      modifies mm, mm.mem`brk, mm.mem.bytes, blocks, blockSizes
      ensures ok <==> Step(d, ALLOC(index, size)).Some?
      ensures ok ==> Follows(Step(d, ALLOC(index, size)).value)
    {
      hide Inv, Step, Malloc;
      AllocFacts(d, index, size);
      var p := mm.Malloc(size);
      ok := p != 0;
      if ok {
        StepKeepsInv(d, ALLOC(index, size));
        Remember(d.live, index, p, size);
      }
    }

    method UtilRealloc(ghost d: Run, index: nat, size: nat) returns (ok: bool)
      requires Follows(d) && Legal(d.live.Keys, REALLOC(index, size))
      modifies mm, mm.mem`brk, mm.mem.bytes, blocks, blockSizes
      ensures ok <==> Step(d, REALLOC(index, size)).Some?
      ensures ok ==> Follows(Step(d, REALLOC(index, size)).value)
    {
      hide Inv, Step, Realloc;
      ReallocFacts(d, index, size);
      var newp := mm.Realloc(blocks[index], size);
      ok := newp != 0;
      if ok {
        StepKeepsInv(d, REALLOC(index, size));
        Remember(d.live, index, newp, size);
      }
    }

    method UtilFree(ghost d: Run, index: nat)
      requires Follows(d) && Legal(d.live.Keys, FREE(index))
      modifies mm, mm.mem.bytes
      ensures Step(d, FREE(index)).Some? && Follows(Step(d, FREE(index)).value)
    {
      hide Inv, Step, BlockList.Free;
      FreeFacts(d, index);
      StepKeepsInv(d, FREE(index));
      mm.Free(blocks[index]);
    }

    /** `eval_mm_util`, with `None` for its error exits: the trace's high-water mark divided by
        the final heap size, which is less than 1. */
    method EvalMmUtil(ops: seq<TraceOp>) returns (util: Option<real>)
      requires mm.mem.Valid() && Separated()
      requires LegalTrace({}, ops) && forall op :: op in ops ==> op.index < blocks.Length
      modifies mm, mm.mem`brk, mm.mem.bytes, blocks, blockSizes
      ensures util.Some? <==> Succeeds(mm.mem.start, mm.mem.maxAddr, ops)
      ensures util.Some? ==>
                && mm.mem.HeapSize() > 0
                && HighWater(map[], ops) <= mm.mem.HeapSize() - 16
                && util.value == HighWater(map[], ops) as real / mm.mem.HeapSize() as real
                && 0.0 <= util.value < 1.0
    {
      var r := ResetHeap();
      if r < 0 {
        return None;
      }
      ghost var d := Start(mm.mem.start, mm.mem.maxAddr);
      RunFromStartIs(mm.mem.start, mm.mem.maxAddr, ops);
      StartTotals(mm.mem.start, mm.mem.maxAddr, ops);
      hide Inv, Start, Total, HighWater, RunTrace, LegalTrace;
      var maxTotalSize := UtilLoop(d, ops);
      if maxTotalSize.None? {
        return None;
      }
      HighWaterFits(d, ops);
      Quotient(maxTotalSize.value, mm.mem.HeapSize());
      return Some(maxTotalSize.value as real / mm.mem.HeapSize() as real);
    }

    /** The loop of `eval_mm_util`. */
    method UtilLoop(ghost d0: Run, ops: seq<TraceOp>) returns (hwm: Option<nat>)
      requires Follows(d0) && Inv(d0) && LegalTrace(d0.live.Keys, ops) && Total(Sizes(d0.live)) == 0
      requires forall op :: op in ops ==> op.index < blocks.Length
      modifies mm, mm.mem`brk, mm.mem.bytes, blocks, blockSizes
      ensures hwm.Some? <==> RunTrace(d0, ops).Some?
      ensures hwm.Some? ==>
                && hwm.value == HighWater(Sizes(d0.live), ops)
                && Follows(RunTrace(d0, ops).value)
    {
      hide Inv, Step, Total, HighWater, RunTrace, LegalTrace, Follows;
      ghost var d := d0;
      var totalSize, maxTotalSize := 0, 0;
      assert ops[0..] == ops;
      for i := 0 to |ops|
        invariant Follows(d) && Inv(d) && LegalTrace(d.live.Keys, ops[i..])
        invariant RunTrace(d0, ops) == RunTrace(d, ops[i..])
        invariant totalSize == Total(Sizes(d.live)) <= maxTotalSize
        invariant HighWater(Sizes(d0.live), ops) == Max(maxTotalSize, HighWater(Sizes(d.live), ops[i..]))
      {
        UnfoldRun(d, ops, i);
        UnfoldHighWater(Sizes(d.live), ops, i);
        var ok, delta := UtilOp(d, ops[i]);
        if !ok {
          return None;
        }
        SizesStep(d, ops[i]);
        totalSize := totalSize + delta;
        maxTotalSize := if totalSize > maxTotalSize then totalSize else maxTotalSize;
        d := Step(d, ops[i]).value;
      }
      UnfoldEnd(d, ops);
      return Some(maxTotalSize);
    }
  }
}
