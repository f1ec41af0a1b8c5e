/** The sort of `hw6/sortfile.c`: bubble sort in either direction, counting its swaps. */
module BubbleSort {

  /** `x` may not stand before `y`. */
  predicate OutOfOrder(x: int, y: int, isIncreasing: bool) {
    if isIncreasing then x > y else x < y
  }

  predicate Sorted(s: seq<int>, isIncreasing: bool) {
    forall i, j :: 0 <= i < j < |s| ==> !OutOfOrder(s[i], s[j], isIncreasing)
  }

  /** Sorted means increasing or decreasing, with equal elements anywhere. */
  lemma SortedMeans(s: seq<int>)
    ensures Sorted(s, true) <==> forall i, j :: 0 <= i < j < |s| ==> s[i] <= s[j]
    ensures Sorted(s, false) <==> forall i, j :: 0 <= i < j < |s| ==> s[i] >= s[j]
  {
  }

  /** How many elements of `s` may not stand after `x`. */
  function CountAfter(x: int, s: seq<int>, isIncreasing: bool): nat {
    if s == [] then 0
    else (if OutOfOrder(x, s[0], isIncreasing) then 1 else 0) + CountAfter(x, s[1..], isIncreasing)
  }

  /** The number of pairs that stand in the wrong order. */
  function Inversions(s: seq<int>, isIncreasing: bool): nat {
    if s == [] then 0 else CountAfter(s[0], s[1..], isIncreasing) + Inversions(s[1..], isIncreasing)
  }

  function Swapped(s: seq<int>, j: nat): (t: seq<int>)
    requires j + 1 < |s|
    ensures |t| == |s|
  {
    s[j := s[j + 1]][j + 1 := s[j]]
  }

  lemma SwappedKeepsElements(s: seq<int>, j: nat)
    requires j + 1 < |s|
    ensures multiset(Swapped(s, j)) == multiset(s)
  {
  }

  lemma {:induction false} CountAfterSwap(x: int, s: seq<int>, j: nat, inc: bool)
    requires j + 1 < |s|
    ensures CountAfter(x, Swapped(s, j), inc) == CountAfter(x, s, inc)
    decreases j
  {
    var t := Swapped(s, j);
    if j == 0 {
      assert s[1..][1..] == s[2..] && t[1..][1..] == s[2..];
      assert CountAfter(x, s[1..], inc) == (if OutOfOrder(x, s[1], inc) then 1 else 0) + CountAfter(x, s[2..], inc);
      assert CountAfter(x, t[1..], inc) == (if OutOfOrder(x, s[0], inc) then 1 else 0) + CountAfter(x, s[2..], inc);
    } else {
      assert t[1..] == Swapped(s[1..], j - 1);
      CountAfterSwap(x, s[1..], j - 1, inc);
    }
  }

  /** Swapping two neighbours that are out of order removes exactly one inversion. */
  lemma {:induction false} SwapRemovesOne(s: seq<int>, j: nat, inc: bool)
    requires j + 1 < |s| && OutOfOrder(s[j], s[j + 1], inc)
    ensures Inversions(Swapped(s, j), inc) + 1 == Inversions(s, inc)
    decreases j
  {
    var t := Swapped(s, j);
    if j == 0 {
      assert s[1..][1..] == s[2..] && t[1..][1..] == s[2..];
      assert Inversions(s[1..], inc) == CountAfter(s[1], s[2..], inc) + Inversions(s[2..], inc);
      assert Inversions(t[1..], inc) == CountAfter(s[0], s[2..], inc) + Inversions(s[2..], inc);
      assert CountAfter(s[0], s[1..], inc) == 1 + CountAfter(s[0], s[2..], inc);
      assert CountAfter(s[1], t[1..], inc) == CountAfter(s[1], s[2..], inc);
    } else {
      assert t[1..] == Swapped(s[1..], j - 1);
      CountAfterSwap(s[0], s[1..], j - 1, inc);
      SwapRemovesOne(s[1..], j - 1, inc);
    }
  }

  lemma {:induction false} CountAfterZero(x: int, s: seq<int>, inc: bool)
    requires forall i :: 0 <= i < |s| ==> !OutOfOrder(x, s[i], inc)
    ensures CountAfter(x, s, inc) == 0
  {
    if s != [] { CountAfterZero(x, s[1..], inc); }
  }

  /** A sorted sequence has no inversions. */
  lemma {:induction false} SortedHasNone(s: seq<int>, inc: bool)
    requires Sorted(s, inc)
    ensures Inversions(s, inc) == 0
  {
    if s != [] {
      CountAfterZero(s[0], s[1..], inc);
      SortedHasNone(s[1..], inc);
    }
  }

  // ---------------------------------------------------------------- in place

  /** From `m` on, everything is in its final place. */
  ghost predicate Settled(s: seq<int>, m: int, inc: bool) {
    && 0 <= m <= |s|
    && forall i, j :: 0 <= i < j < |s| && m <= j ==> !OutOfOrder(s[i], s[j], inc)
  }

  /** Element `j` may stand after everything before it. */
  ghost predicate Carried(s: seq<int>, j: int, inc: bool) {
    && 0 <= j < |s|
    && forall i :: 0 <= i < j ==> !OutOfOrder(s[i], s[j], inc)
  }

  /** What `sort` makes of neighbours `j` and `j + 1`. */
  function Ordered(s: seq<int>, j: nat, inc: bool): (t: seq<int>)
    requires j + 1 < |s|
    ensures |t| == |s|
  {
    if OutOfOrder(s[j], s[j + 1], inc) then Swapped(s, j) else s
  }

  lemma CarryOn(s: seq<int>, j: nat, m: nat, inc: bool)
    requires j + 1 < m <= |s| && Settled(s, m, inc) && Carried(s, j, inc)
    ensures Settled(Ordered(s, j, inc), m, inc) && Carried(Ordered(s, j, inc), j + 1, inc)
    ensures multiset(Ordered(s, j, inc)) == multiset(s)
    ensures Inversions(s, inc) ==
            Inversions(Ordered(s, j, inc), inc) + if OutOfOrder(s[j], s[j + 1], inc) then 1 else 0
  {
    if OutOfOrder(s[j], s[j + 1], inc) {
      SwappedKeepsElements(s, j);
      SwapRemovesOne(s, j, inc);
      hide Inversions;
      var t := Swapped(s, j);
      forall i, k | 0 <= i < k < |t| && m <= k ensures !OutOfOrder(t[i], t[k], inc) {
        assert t[k] == s[k];
        assert t[i] == if i == j then s[j + 1] else if i == j + 1 then s[j] else s[i];
      }
    }
  }

  lemma SettleOne(s: seq<int>, m: nat, inc: bool)
    requires 0 < m <= |s| && Settled(s, m, inc) && Carried(s, m - 1, inc)
    ensures Settled(s, m - 1, inc)
  {
  }

  /** `sort`: put two neighbours in order; `swapped` tells whether it called `swap`. */
  method SortPair(a: array<int>, j: nat, isIncreasing: bool) returns (swapped: bool)
    requires j + 1 < a.Length
    modifies a
    ensures swapped <==> if isIncreasing then old(a[j] > a[j + 1]) else old(a[j] < a[j + 1])
    ensures swapped == OutOfOrder(old(a[j]), old(a[j + 1]), isIncreasing)
    ensures a[..] == Ordered(old(a[..]), j, isIncreasing)
  {
    swapped := (!isIncreasing && a[j] < a[j + 1]) || (isIncreasing && a[j] > a[j + 1]);
    if swapped {
      var holder := a[j];
      a[j] := a[j + 1];
      a[j + 1] := holder;
    }
  }

  /** `bubbleSort` of the first `size` elements, with the number of swaps it made: a sorted
      permutation, and exactly as many swaps as there were inversions. */
  method Sort(a: array<int>, size: nat, isIncreasing: bool) returns (swaps: nat)
    requires size <= a.Length
    modifies a
    ensures Sorted(a[..size], isIncreasing)
    ensures forall i, j :: 0 <= i < j < size ==> if isIncreasing then a[i] <= a[j] else a[i] >= a[j]
    ensures multiset(a[..size]) == multiset(old(a[..size]))
    ensures swaps == Inversions(old(a[..size]), isIncreasing)
    ensures a[size..] == old(a[size..])
  {
    ghost var s0 := a[..size];
    swaps := 0;
    if size >= 2 {
      for i := 0 to size
        invariant Settled(a[..size], size - i, isIncreasing)
        invariant multiset(a[..size]) == multiset(s0) && a[size..] == old(a[size..])
        invariant swaps + Inversions(a[..size], isIncreasing) == Inversions(s0, isIncreasing)
      {
        var more := BubbleUp(a, size, size - i, isIncreasing);
        swaps := swaps + more;
      }
    }
    SortedHasNone(a[..size], isIncreasing);
    SortedMeans(a[..size]);
    assert forall i :: 0 <= i < size ==> a[i] == a[..size][i];
  }

  /** The inner loop: carry the right one of the first `m` elements to its place. */
  method BubbleUp(a: array<int>, size: nat, m: nat, isIncreasing: bool) returns (swaps: nat)
    requires 0 < m <= size <= a.Length && Settled(a[..size], m, isIncreasing)
    modifies a
    ensures Settled(a[..size], m - 1, isIncreasing)
    ensures multiset(a[..size]) == multiset(old(a[..size])) && a[size..] == old(a[size..])
    ensures swaps + Inversions(a[..size], isIncreasing) == Inversions(old(a[..size]), isIncreasing)
  {
    hide Settled, Carried, Inversions, OutOfOrder, Ordered;
    swaps := 0;
    ghost var s0 := a[..size];
    assert Carried(s0, 0, isIncreasing) by { CarryFirst(s0, isIncreasing); }
    for j := 0 to m - 1
      invariant Settled(a[..size], m, isIncreasing) && Carried(a[..size], j, isIncreasing)
      invariant multiset(a[..size]) == multiset(s0) && a[size..] == old(a[size..])
      invariant swaps + Inversions(a[..size], isIncreasing) == Inversions(s0, isIncreasing)
    {
      ghost var s, b := a[..size], a[..];
      CarryOn(s, j, m, isIncreasing);
      var swapped := SortPair(a, j, isIncreasing);
      OrderedPrefix(b, size, j, isIncreasing);
      if swapped {
        swaps := swaps + 1;
      }
    }
    SettleOne(a[..size], m, isIncreasing);
  }

  lemma CarryFirst(s: seq<int>, inc: bool)
    requires s != []
    ensures Carried(s, 0, inc)
  {
  }

  lemma OrderedPrefix(b: seq<int>, size: nat, j: nat, inc: bool)
    requires j + 1 < size <= |b|
    ensures Ordered(b, j, inc)[..size] == Ordered(b[..size], j, inc)
    ensures Ordered(b, j, inc)[size..] == b[size..]
  {
  }
}
