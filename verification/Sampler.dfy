/** The K-best sampler of `lab3/fcyc.c`. Measured times are inputs, and `double`s are reals. */
module Sampler {
  import opened Common

  predicate Sorted(s: seq<real>) {
    forall i, j :: 0 <= i < j < |s| ==> s[i] <= s[j]
  }

  /** `s` with `v` behind the last element that is not larger. */
  function Insert(s: seq<real>, v: real): (t: seq<real>)
    ensures |t| == |s| + 1
  {
    if s != [] && s[|s| - 1] > v then Insert(s[..|s| - 1], v) + [s[|s| - 1]] else s + [v]
  }

  /** All samples in increasing order. */
  function SortAll(samples: seq<real>): (t: seq<real>)
    ensures |t| == |samples|
  {
    if samples == [] then [] else Insert(SortAll(samples[..|samples| - 1]), samples[|samples| - 1])
  }

  /** The at most `k` smallest samples, in increasing order. */
  function Best(samples: seq<real>, k: nat): seq<real> {
    SortAll(samples)[..Min(|samples|, k)]
  }

  lemma AppendSorted(s: seq<real>, v: real)
    requires Sorted(s) && forall i :: 0 <= i < |s| ==> s[i] <= v
    ensures Sorted(s + [v])
  {
  }

  lemma {:induction false} InsertSorts(s: seq<real>, v: real)
    requires Sorted(s)
    ensures Sorted(Insert(s, v)) && multiset(Insert(s, v)) == multiset(s) + multiset{v}
    ensures forall x :: x in Insert(s, v) ==> x == v || x in s
  {
    if s != [] && s[|s| - 1] > v {
      var init, last := s[..|s| - 1], s[|s| - 1];
      InsertSorts(init, v);
      assert s == init + [last];
      var t := Insert(init, v);
      forall i | 0 <= i < |t| ensures t[i] <= last {
        assert t[i] in t;
        if t[i] != v {
          var j :| 0 <= j < |init| && init[j] == t[i];
          assert s[j] <= s[|s| - 1];
        }
      }
      AppendSorted(t, last);
    }
  }

  /** The order is increasing and every sample is there as often as it was taken. */
  lemma {:induction false} SortAllSorts(samples: seq<real>)
    ensures Sorted(SortAll(samples)) && multiset(SortAll(samples)) == multiset(samples)
  {
    if samples != [] {
      var init, last := samples[..|samples| - 1], samples[|samples| - 1];
      SortAllSorts(init);
      InsertSorts(SortAll(init), last);
      assert samples == init + [last];
    }
  }

  /** No sample left out is smaller than one that was kept, and together they are all samples. */
  lemma BestAreSmallest(samples: seq<real>, k: nat)
    ensures var best, rest := Best(samples, k), SortAll(samples)[Min(|samples|, k)..];
            && |best| == Min(|samples|, k) && Sorted(best)
            && multiset(best) + multiset(rest) == multiset(samples)
            && forall x, y :: x in best && y in rest ==> x <= y
  {
    var s, m := SortAll(samples), Min(|samples|, k);
    SortAllSorts(samples);
    assert s == s[..m] + s[m..];
  }

  /** The best sample is the minimum of all. */
  lemma BestIsMinimum(samples: seq<real>, k: nat)
    requires samples != [] && k > 0
    ensures var b := Best(samples, k)[0]; b in samples && forall x :: x in samples ==> b <= x
  {
    var s := SortAll(samples);
    SortAllSorts(samples);
    assert s[0] in multiset(s);
    forall x | x in samples ensures s[0] <= x {
      assert x in multiset(samples);
      assert x in s;
    }
  }

  /** Keeping the `k` best of `s` needs no more than the `k` best before the new sample. */
  lemma {:induction false} InsertTake(s: seq<real>, v: real, k: nat)
    requires Sorted(s) && 0 < k <= |s|
    ensures Insert(s, v)[..k] == if v < s[k - 1] then Insert(s[..k - 1], v) else s[..k]
    decreases |s|
  {
    var init := s[..|s| - 1];
    if s[|s| - 1] > v {
      if k < |s| {
        InsertTake(init, v, k);
        assert init[..k] == s[..k] && init[..k - 1] == s[..k - 1];
        assert Insert(s, v)[..k] == Insert(init, v)[..k];
      } else {
        assert Insert(s, v)[..k] == Insert(init, v);
      }
    } else {
      assert s[k - 1] <= s[|s| - 1] || k == |s|;
    }
  }

  /** The next list of best samples from the last one. */
  lemma BestStep(samples: seq<real>, v: real, k: nat)
    requires k > 0
    ensures var best := Best(samples, k);
            Best(samples + [v], k) ==
              if |samples| < k then Insert(best, v)
              else if v < best[k - 1] then Insert(best[..k - 1], v)
              else best
  {
    var s := SortAll(samples);
    SortAllSorts(samples);
    assert (samples + [v])[..|samples|] == samples;
    assert SortAll(samples + [v]) == Insert(s, v);
    hide SortAll, Insert;
    if |samples| < k {
      assert s[..|samples|] == s;
      assert Insert(s, v)[..|samples| + 1] == Insert(s, v);
    } else {
      InsertTake(s, v, k);
      assert s[..k][..k - 1] == s[..k - 1] && s[..k][k - 1] == s[k - 1];
    }
  }

  /** Have the `k` best samples come within `epsilon` of each other? */
  predicate Converged(samples: seq<real>, k: nat, epsilon: real)
    requires k > 0
  {
    |samples| >= k && (1.0 + epsilon) * Best(samples, k)[0] >= Best(samples, k)[k - 1]
  }

  /** How many samples are at most `x`. */
  function CountAtMost(samples: seq<real>, x: real): nat {
    if samples == [] then 0
    else CountAtMost(samples[..|samples| - 1], x) + if samples[|samples| - 1] <= x then 1 else 0
  }

  lemma {:induction false} CountInsert(s: seq<real>, v: real, x: real)
    ensures CountAtMost(Insert(s, v), x) == CountAtMost(s, x) + if v <= x then 1 else 0
  {
    if s != [] && s[|s| - 1] > v {
      var init, last := s[..|s| - 1], s[|s| - 1];
      CountInsert(init, v, x);
      assert Insert(s, v)[..|s|] == Insert(init, v);
    } else {
      assert Insert(s, v)[..|s|] == s;
    }
  }

  lemma {:induction false} CountSorted(samples: seq<real>, x: real)
    ensures CountAtMost(SortAll(samples), x) == CountAtMost(samples, x)
  {
    if samples != [] {
      var init := samples[..|samples| - 1];
      CountSorted(init, x);
      CountInsert(SortAll(init), samples[|samples| - 1], x);
    }
  }

  /** In a sorted list the `k`-th element is at most `x` exactly when `k` elements are. */
  lemma {:induction false} CountReaches(s: seq<real>, k: nat, x: real)
    requires Sorted(s) && 0 < k <= |s|
    ensures CountAtMost(s, x) <= |s|
    ensures s[k - 1] <= x <==> CountAtMost(s, x) >= k
    decreases |s|
  {
    var init := s[..|s| - 1];
    if k < |s| {
      CountReaches(init, k, x);
      assert s[k - 1] <= s[|s| - 1];
    } else if |init| > 0 {
      CountReaches(init, |init|, x);
      assert s[|s| - 2] <= s[|s| - 1];
    }
  }

  /** Convergence in terms of the samples alone: at least `k` of them lie within the tolerance
      above the smallest one. */
  lemma ConvergedMeans(samples: seq<real>, k: nat, epsilon: real, smallest: real)
    requires k > 0 && smallest in samples && forall x :: x in samples ==> smallest <= x
    ensures Converged(samples, k, epsilon) <==>
              |samples| >= k && CountAtMost(samples, (1.0 + epsilon) * smallest) >= k
  {
    hide SortAll, CountAtMost;
    if |samples| >= k {
      SortAllSorts(samples);
      BestIsMinimum(samples, k);
      CountSorted(samples, (1.0 + epsilon) * smallest);
      CountReaches(SortAll(samples), k, (1.0 + epsilon) * smallest);
    }
  }

  // ---------------------------------------------------------------- the C routines

  /** The array while `v` sinks to position `pos`. */
  function Sifted(s: seq<real>, v: real, rest: seq<real>, pos: nat): (w: seq<real>)
    requires pos <= |s|
    ensures |w| == |s| + 1 + |rest|
  {
    s[..pos] + [v] + s[pos..] + rest
  }

  lemma StartSift(w: seq<real>, pos: nat)
    requires pos < |w|
    ensures w == Sifted(w[..pos], w[pos], w[pos + 1..], pos)
    ensures Insert(w[..pos], w[pos]) == Insert(w[..pos][..pos], w[pos]) + w[..pos][pos..]
  {
    assert w[..pos][..pos] == w[..pos] && w[..pos][pos..] == [];
  }

  lemma SiftStep(s: seq<real>, v: real, rest: seq<real>, pos: nat)
    requires 0 < pos <= |s|
    ensures var w := Sifted(s, v, rest, pos);
            && w[pos - 1] == s[pos - 1] && w[pos] == v
            && w[pos - 1 := v][pos := s[pos - 1]] == Sifted(s, v, rest, pos - 1)
  {
  }

  lemma EndSift(s: seq<real>, v: real, rest: seq<real>, pos: nat)
    requires pos <= |s|
    ensures var w := Sifted(s, v, rest, pos);
            w[..|s| + 1] == s[..pos] + [v] + s[pos..] && w[|s| + 1..] == rest
  {
  }

  class KBest {
    const kbest: nat
    const maxsamples: int
    const epsilon: real
    const values: array<real>
    var samplecount: nat

    /** The samples seen so far. */
    ghost var samples: seq<real>

    ghost predicate Valid()
      reads this, values
    {
      && kbest > 0 && values.Length == kbest
      && samplecount == |samples|
      && values[..Min(samplecount, kbest)] == Best(samples, kbest)
    }

    /** `init_sampler` */
    constructor (kbest: nat, maxsamples: int, epsilon: real)
      requires kbest > 0
      ensures Valid() && fresh(values) && samples == []
      ensures this.kbest == kbest && this.maxsamples == maxsamples && this.epsilon == epsilon
    {
      this.kbest := kbest;
      this.maxsamples := maxsamples;
      this.epsilon := epsilon;
      values := new real[kbest](_ => 0.0);
      samplecount := 0;
      samples := [];
    }

    /** `add_sample` */
    method AddSample(val: real)
      requires Valid()
      modifies this`samplecount, this`samples, values
      ensures Valid() && samples == old(samples) + [val]
    {
      BestStep(samples, val, kbest);
      ghost var best := Best(samples, kbest);
      var pos := 0;
      if samplecount < kbest {
        pos := samplecount;
        values[pos] := val;
      } else if val < values[kbest - 1] {
        pos := kbest - 1;
        values[pos] := val;
      }
      samplecount := samplecount + 1;
      samples := samples + [val];
      ghost var before := values[..];
      Sift(pos);
      if samplecount <= kbest || val < best[kbest - 1] {
        assert before[..pos] == best[..pos];
        assert values[..Min(samplecount, kbest)] == values[..pos + 1];
      } else {
        InsertNothing(before[0]);
        assert before[..0] == [];
        assert values[..] == values[..1] + values[1..] == before;
      }
    }

    lemma InsertStep(s: seq<real>, v: real, pos: nat)
      requires 0 < pos <= |s| && s[pos - 1] > v
      ensures Insert(s[..pos], v) + s[pos..] == Insert(s[..pos - 1], v) + s[pos - 1..]
      ensures s[pos - 1..] == [s[pos - 1]] + s[pos..]
    {
      assert s[..pos][..pos - 1] == s[..pos - 1];
    }

    lemma InsertEnds(s: seq<real>, v: real)
      requires s == [] || s[|s| - 1] <= v
      ensures Insert(s, v) == s + [v]
    {
    }

    lemma InsertNothing(v: real)
      ensures Insert([], v) == [v]
    {
    }

    /** The insertion loop of `add_sample`, for a new value at `pos`. */
    method Sift(pos0: nat)
      requires pos0 < values.Length
      modifies values
      ensures values[..pos0 + 1] == Insert(old(values[..pos0]), old(values[pos0]))
      ensures values[pos0 + 1..] == old(values[pos0 + 1..])
    {
      ghost var s, v, rest := values[..pos0], values[pos0], values[pos0 + 1..];
      ghost var before := values[..];
      var pos := pos0;
      StartSift(before, pos0);
      hide Insert, Sifted;
      while pos > 0 && values[pos - 1] > values[pos]
        invariant 0 <= pos <= pos0 == |s| && values[..] == Sifted(s, v, rest, pos)
        invariant Insert(s, v) == Insert(s[..pos], v) + s[pos..]
      {
        SiftStep(s, v, rest, pos);
        InsertStep(s, v, pos);
        var temp := values[pos - 1];
        values[pos - 1] := values[pos];
        values[pos] := temp;
        pos := pos - 1;
      }
      if pos > 0 { SiftStep(s, v, rest, pos); }
      InsertEnds(s[..pos], v);
      EndSift(s, v, rest, pos);
    }

    /** `has_converged` */
    predicate HasConverged()
      requires Valid()
      reads this, values
      ensures HasConverged() <==> Converged(samples, kbest, epsilon)
    {
      samplecount >= kbest && (1.0 + epsilon) * values[0] >= values[kbest - 1]
    }

    /** The loop of `fcyc`: measure until the best samples agree or there are `maxsamples`, then
        return the smallest sample. `times` are the measurements, as many as may be needed. */
    method Fcyc(times: seq<real>) returns (result: real, ghost n: nat)
      requires Valid() && samples == [] && |times| >= Limit(maxsamples)
      modifies this`samplecount, this`samples, values
      ensures 1 <= n <= Limit(maxsamples) && samples == times[..n]
      ensures result in times[..n] && forall x :: x in times[..n] ==> result <= x
      ensures Converged(times[..n], kbest, epsilon) || n >= maxsamples
      ensures forall m :: 1 <= m < n ==> !Converged(times[..m], kbest, epsilon) && m < maxsamples
    {
      hide Best, Converged, SortAll;
      AddSample(times[0]);
      assert times[..1] == [times[0]];
      while !HasConverged() && samplecount < maxsamples
        invariant Valid() && 1 <= samplecount <= Limit(maxsamples) && samples == times[..samplecount]
        invariant forall m :: 1 <= m < samplecount ==> !Converged(times[..m], kbest, epsilon) && m < maxsamples
        decreases maxsamples - samplecount
      {
        assert times[..samplecount + 1] == times[..samplecount] + [times[samplecount]];
        AddSample(times[samplecount]);
      }
      n := samplecount;
      BestIsMinimum(samples, kbest);
      assert values[0] == values[..Min(samplecount, kbest)][0] == Best(samples, kbest)[0];
      result := values[0];
    }
  }

  /** At least one sample is taken, and at most `maxsamples` when that is positive. */
  function Limit(maxsamples: int): nat {
    if maxsamples < 1 then 1 else maxsamples
  }
}
