/** fcyc.c's K-best sampler. The measured cycle counts are a parameter; doubles are reals. */
module Sampler {
  import opened Basics

  ghost predicate Ascending(s: seq<real>) {
    forall i, j :: 0 <= i < j < |s| ==> s[i] <= s[j]
  }

  /** x put in its place in s, behind equal values. */
  function Insert(s: seq<real>, x: real): (r: seq<real>)
    ensures |r| == |s| + 1
  {
    if s == [] || s[|s| - 1] <= x then s + [x]
    else Insert(s[..|s| - 1], x) + [s[|s| - 1]]
  }

  function Sorted(ss: seq<real>): (r: seq<real>)
    ensures |r| == |ss|
  {
    if ss == [] then [] else Insert(Sorted(ss[..|ss| - 1]), ss[|ss| - 1])
  }

  /** The k smallest of ss, in ascending order. */
  function Best(ss: seq<real>, k: nat): (r: seq<real>)
    ensures |r| == Min(k, |ss|)
  {
    Sorted(ss)[..Min(k, |ss|)]
  }

  lemma {:induction false} InsertBounded(s: seq<real>, x: real, m: real)
    requires x <= m && forall i :: 0 <= i < |s| ==> s[i] <= m
    ensures forall i :: 0 <= i < |s| + 1 ==> Insert(s, x)[i] <= m
  {
    if s != [] && s[|s| - 1] > x {
      InsertBounded(s[..|s| - 1], x, m);
    }
  }

  lemma {:induction false} InsertSorts(s: seq<real>, x: real)
    requires Ascending(s)
    ensures Ascending(Insert(s, x))
  {
    if s != [] && s[|s| - 1] > x {
      InsertSorts(s[..|s| - 1], x);
      InsertBounded(s[..|s| - 1], x, s[|s| - 1]);
    }
  }

  lemma {:induction false} InsertAdds(s: seq<real>, x: real)
    ensures multiset(Insert(s, x)) == multiset(s) + multiset{x}
  {
    if s != [] && s[|s| - 1] > x {
      InsertAdds(s[..|s| - 1], x);
      assert s == s[..|s| - 1] + [s[|s| - 1]];
    }
  }

  lemma {:induction false} SortedIs(ss: seq<real>)
    ensures Ascending(Sorted(ss)) && multiset(Sorted(ss)) == multiset(ss)
  {
    if ss != [] {
      var front := ss[..|ss| - 1];
      SortedIs(front);
      InsertSorts(Sorted(front), ss[|ss| - 1]);
      InsertAdds(Sorted(front), ss[|ss| - 1]);
      assert ss == front + [ss[|ss| - 1]];
    }
  }

  /** The samples kept are ascending and, with the rest, make up all samples, none of the rest
      being smaller than any of them. */
  lemma BestIsSmallest(ss: seq<real>, k: nat)
    ensures
      var best := Best(ss, k);
      && Ascending(best)
      && multiset(best) <= multiset(ss)
      && forall x, y :: x in multiset(best) && y in multiset(ss) - multiset(best) ==> x <= y
  {
    SortedIs(ss);
    CutOrdered(Sorted(ss), Min(k, |ss|));
  }

  lemma BestAscends(ss: seq<real>, k: nat)
    ensures Ascending(Best(ss, k))
  {
    BestIsSmallest(ss, k);
  }

  lemma CutOrdered(s: seq<real>, n: nat)
    requires Ascending(s) && n <= |s|
    ensures Ascending(s[..n]) && multiset(s[..n]) <= multiset(s)
    ensures forall x, y :: x in multiset(s[..n]) && y in multiset(s) - multiset(s[..n]) ==> x <= y
  {
    var a, b := s[..n], s[n..];
    assert s == a + b;
    assert multiset(s) - multiset(a) == multiset(b);
    forall x, y | x in multiset(a) && y in multiset(b)
      ensures x <= y
    {
      CutPair(s, n, x, y);
    }
  }

  lemma CutPair(s: seq<real>, n: nat, x: real, y: real)
    requires Ascending(s) && n <= |s| && x in s[..n] && y in s[n..]
    ensures x <= y
  {
    var i :| 0 <= i < n && s[..n][i] == x;
    var j :| 0 <= j < |s| - n && s[n..][j] == y;
    assert s[i] <= s[n + j];
  }

  /** Only the k smallest so far matter for the k smallest after one more sample. */
  lemma {:induction false} InsertCut(s: seq<real>, x: real, k: nat)
    requires Ascending(s) && 1 <= k <= |s|
    ensures Insert(s, x)[..k] == if x < s[k - 1] then Insert(s[..k - 1], x) else s[..k]
  {
    if s[|s| - 1] > x {
      var front := s[..|s| - 1];
      if k < |s| {
        InsertCut(front, x, k);
        assert front[..k - 1] == s[..k - 1] && front[..k] == s[..k];
      } else {
        assert Insert(s, x)[..k] == Insert(front, x);
      }
    } else {
      assert s[k - 1] <= s[|s| - 1];
    }
  }

  lemma BestNext(ss: seq<real>, x: real, k: nat)
    requires k >= 1
    ensures
      var best := Best(ss, k);
      Best(ss + [x], k) ==
        if |ss| < k then Insert(best, x)
        else if x < best[k - 1] then Insert(best[..k - 1], x)
        else best
  {
    var s := Sorted(ss);
    assert (ss + [x])[..|ss|] == ss;
    if |ss| < k {
      assert s[..|ss|] == s;
    } else {
      SortedIs(ss);
      InsertCut(s, x, k);
      assert s[..k][..k - 1] == s[..k - 1];
    }
  }

  /** The first of the best is the smallest of all. */
  lemma FirstIsMin(ss: seq<real>, k: nat)
    requires ss != [] && k >= 1
    ensures Best(ss, k)[0] in ss && forall i :: 0 <= i < |ss| ==> Best(ss, k)[0] <= ss[i]
  {
    SortedIs(ss);
    var all := Sorted(ss);
    assert all[0] in multiset(ss);
    forall i | 0 <= i < |ss|
      ensures all[0] <= ss[i]
    {
      assert ss[i] in multiset(all);
      var j :| 0 <= j < |all| && all[j] == ss[i];
    }
  }

  /** has_converged, on the samples taken so far. */
  predicate Converged(ss: seq<real>, k: nat, epsilon: real)
    requires k >= 1
  {
    |ss| >= k && (1.0 + epsilon) * Best(ss, k)[0] >= Best(ss, k)[k - 1]
  }

  /** m holds k of the samples, low is the smallest of all, and no x of m is more than epsilon
      above low. */
  ghost predicate Agree(ss: seq<real>, k: nat, epsilon: real, m: multiset<real>, low: real) {
    && m <= multiset(ss) && |m| == k
    && low in ss && (forall i :: 0 <= i < |ss| ==> low <= ss[i])
    && forall x :: x in m ==> x <= (1.0 + epsilon) * low
  }

  lemma SmallerPart<T>(a: multiset<T>, b: multiset<T>)
    requires a <= b
    ensures |a| <= |b|
  {
    assert b == a + (b - a);
  }

  /** Samples below the k-th smallest are fewer than k. */
  lemma FewBelow(ss: seq<real>, k: nat, m: multiset<real>, bound: real)
    requires 1 <= k <= |ss| && m <= multiset(ss) && bound < Best(ss, k)[k - 1]
    requires forall x :: x in m ==> x <= bound
    ensures |m| < k
  {
    var best := Best(ss, k);
    BestIsSmallest(ss, k);
    assert best == best[..k - 1] + [best[k - 1]];
    forall x | x in m
      ensures m[x] <= multiset(best[..k - 1])[x]
    {
      assert best[k - 1] in multiset(best);
      assert x !in multiset(ss) - multiset(best);
    }
    SmallerPart(m, multiset(best[..k - 1]));
  }

  lemma AllUpTo(s: seq<real>, bound: real)
    requires s != [] && Ascending(s) && s[|s| - 1] <= bound
    ensures forall x :: x in multiset(s) ==> x <= bound
  {
    forall x | x in multiset(s)
      ensures x <= bound
    {
      var i :| 0 <= i < |s| && s[i] == x;
    }
  }

  lemma SameMin(ss: seq<real>, k: nat, low: real)
    requires k >= 1 && low in ss && forall i :: 0 <= i < |ss| ==> low <= ss[i]
    ensures Best(ss, k)[0] == low
  {
    FirstIsMin(ss, k);
    var i :| 0 <= i < |ss| && ss[i] == low;
    var j :| 0 <= j < |ss| && ss[j] == Best(ss, k)[0];
  }

  lemma AgreeConverges(ss: seq<real>, k: nat, epsilon: real, m: multiset<real>, low: real)
    requires k >= 1 && Agree(ss, k, epsilon, m, low)
    ensures Converged(ss, k, epsilon)
  {
    SmallerPart(m, multiset(ss));
    SameMin(ss, k, low);
    var bound := (1.0 + epsilon) * low;
    if bound < Best(ss, k)[k - 1] {
      FewBelow(ss, k, m, bound);
    }
  }

  /** The samples have converged if and only if k of them agree with the smallest within
      epsilon. */
  lemma ConvergedIff(ss: seq<real>, k: nat, epsilon: real)
    requires k >= 1
    ensures Converged(ss, k, epsilon) <==> exists m, low :: Agree(ss, k, epsilon, m, low)
  {
    if Converged(ss, k, epsilon) {
      BestIsSmallest(ss, k);
      FirstIsMin(ss, k);
      AllUpTo(Best(ss, k), (1.0 + epsilon) * Best(ss, k)[0]);
      var m, low := multiset(Best(ss, k)), Best(ss, k)[0];
      assert Agree(ss, k, epsilon, m, low);
    } else {
      forall m, low | Agree(ss, k, epsilon, m, low)
        ensures false
      {
        AgreeConverges(ss, k, epsilon, m, low);
      }
    }
  }

  /** s with x standing before s[pos]. */
  function Gap(s: seq<real>, pos: nat, x: real): seq<real>
    requires pos <= |s|
  {
    s[..pos] + [x] + s[pos..]
  }

  lemma GapAt(s: seq<real>, pos: nat, x: real, v: seq<real>)
    requires 0 < pos <= |s| && v == Gap(s, pos, x)
    ensures v[pos] == x && v[pos - 1] == s[pos - 1]
    ensures v[pos := v[pos - 1]][pos - 1 := v[pos]] == Gap(s, pos - 1, x)
  {
  }

  lemma InsertStep(s: seq<real>, pos: nat, x: real)
    requires 0 < pos <= |s| && s[pos - 1] > x
    ensures Insert(s[..pos], x) + s[pos..] == Insert(s[..pos - 1], x) + s[pos - 1..]
  {
    assert s[..pos][..pos - 1] == s[..pos - 1];
    assert [s[pos - 1]] + s[pos..] == s[pos - 1..];
  }

  class Fcyc {
    var kbest: nat
    var maxsamples: int
    var epsilon: real
    var values: array<real>
    var samplecount: int
    ghost var samples: seq<real>

    /** The array holds the best of the samples taken. */
    ghost predicate Valid()
      reads this, values
    {
      && kbest >= 1
      && values.Length == kbest
      && samplecount == |samples|
      && values[..Min(kbest, samplecount)] == Best(samples, kbest)
    }

    constructor (k: nat, maxsamples: int, epsilon: real)
      requires k >= 1
      ensures kbest == k && this.maxsamples == maxsamples && this.epsilon == epsilon && fresh(values)
    {
      kbest := k;
      this.maxsamples := maxsamples;
      this.epsilon := epsilon;
      values := new real[k](_ => 0.0);
      samplecount := 0;
      samples := [];
    }

    /** init_sampler */
    method InitSampler()
      requires kbest >= 1
      modifies this`values, this`samplecount, this`samples
      ensures Valid() && samples == [] && fresh(values)
    {
      values := new real[kbest](_ => 0.0);
      samplecount := 0;
      samples := [];
    }

    /** The insertion sort step of add_sample: the value at pos moves to its place. */
    method Settle(at: nat)
      requires at < values.Length && Ascending(values[..at])
      modifies values
      ensures values[..at + 1] == Insert(old(values[..at]), old(values[at]))
      ensures values[at + 1..] == old(values[at + 1..])
    {
      ghost var s, x := values[..at], values[at];
      var pos := at;
      assert values[..at + 1] == Gap(s, at, x) && s[..at] == s;
      while pos > 0 && values[pos - 1] > values[pos]
        invariant 0 <= pos <= at
        invariant values[..at + 1] == Gap(s, pos, x)
        invariant values[at + 1..] == old(values[at + 1..])
        invariant Insert(s, x) == Insert(s[..pos], x) + s[pos..]
      {
        GapAt(s, pos, x, values[..at + 1]);
        InsertStep(s, pos, x);
        SwapDown(pos, at);
        pos := pos - 1;
      }
      if pos > 0 {
        GapAt(s, pos, x, values[..at + 1]);
      }
      assert Insert(s[..pos], x) == s[..pos] + [x];
    }

    /** The swap of the insertion sort. */
    method SwapDown(pos: nat, ghost at: nat)
      requires 0 < pos <= at < values.Length
      modifies values
      ensures values[..at + 1] == old(values[..at + 1])[pos := old(values[pos - 1])][pos - 1 := old(values[pos])]
      ensures values[at + 1..] == old(values[at + 1..])
    {
      var temp := values[pos - 1];
      values[pos - 1] := values[pos];
      values[pos] := temp;
    }

    /** add_sample */
    method AddSample(val: real)
      requires Valid()
      modifies this`samplecount, this`samples, values
      ensures Valid() && samples == old(samples) + [val]
    {
      ghost var best := Best(samples, kbest);
      BestNext(samples, val, kbest);
      BestAscends(samples, kbest);
      var pos := 0;
      if samplecount < kbest {
        pos := samplecount;
        Put(pos, val, best);
      } else if val < values[kbest - 1] {
        pos := kbest - 1;
        assert best[..pos] == values[..pos];
        Put(pos, val, best[..pos]);
      }
      samplecount := samplecount + 1;
      samples := samples + [val];
    }

    /** val stored at pos and moved to its place among the values before it. */
    method Put(pos: nat, val: real, ghost best: seq<real>)
      requires pos < values.Length && values[..pos] == best && Ascending(best)
      modifies values
      ensures values[..pos + 1] == Insert(best, val)
      ensures values[pos + 1..] == old(values[pos + 1..])
    {
      values[pos] := val;
      assert values[..pos] == best;
      Settle(pos);
    }

    /** has_converged */
    method HasConverged() returns (r: bool)
      requires Valid()
      ensures r == Converged(samples, kbest, epsilon)
    {
      r := samplecount >= kbest && (1.0 + epsilon) * values[0] >= values[kbest - 1];
      if samplecount >= kbest {
        assert values[..kbest][0] == values[0] && values[..kbest][kbest - 1] == values[kbest - 1];
      }
    }

    /** fcyc: it stops at the first sample after which the k best agree or maxsamples is reached,
        and returns the smallest sample taken. cycles[i] is the i-th measurement. */
    method Measure(cycles: seq<real>) returns (result: real)
      requires kbest >= 1 && |cycles| >= 1 && |cycles| >= maxsamples
      modifies this`values, this`samplecount, this`samples
      ensures 1 <= |samples| <= |cycles| && samples == cycles[..|samples|]
      ensures |samples| == 1 || |samples| <= maxsamples
      ensures Converged(samples, kbest, epsilon) || |samples| >= maxsamples
      ensures forall j :: 1 <= j < |samples| ==> !Converged(cycles[..j], kbest, epsilon) && j < maxsamples
      ensures result in samples && forall i :: 0 <= i < |samples| ==> result <= samples[i]
    {
      InitSampler();
      var more := true;
      while more
        invariant Valid() && fresh(values)
        invariant |samples| <= |cycles| && samples == cycles[..|samples|]
        invariant more ==> |samples| == 0 || |samples| < maxsamples
        invariant !more ==> |samples| >= 1 && (|samples| == 1 || |samples| <= maxsamples)
        invariant !more ==> Converged(samples, kbest, epsilon) || |samples| >= maxsamples
        invariant forall j :: 1 <= j < |samples| ==> !Converged(cycles[..j], kbest, epsilon) && j < maxsamples
        invariant more && |samples| > 0 ==> !Converged(samples, kbest, epsilon)
        decreases more, |cycles| - |samples|
      {
        AddSample(cycles[samplecount]);
        var c := HasConverged();
        more := !c && samplecount < maxsamples;
      }
      result := values[0];
      FirstIsMin(samples, kbest);
      assert values[..Min(kbest, samplecount)][0] == values[0];
    }
  }
}
