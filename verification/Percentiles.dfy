/** Percentiles by nearest rank, without interpolation. */
module Percentiles {
  import opened Prelude
  import opened Sorting
  import opened Counting

  type Leq<!T> = (T, T) -> bool

  predicate IntLeq(a: int, b: int) { a <= b }

  predicate RealLeq(a: real, b: real) { a <= b }

  /** `ceil` of the standard library. */
  function Ceil(x: real): int { -((-x).Floor) }

  function Clamp(p: real): real { if p < 0.0 then 0.0 else if p > 1.0 then 1.0 else p }

  /** The one-based rank of the `p`-th percentile among `n` samples. */
  function Rank(p: real, n: nat): (rank: int)
    requires n > 0
    ensures 1 <= rank <= n
  {
    RankInRange(p, n);
    var rank := Ceil(Clamp(p) * n as real);
    if rank < 1 then 1 else rank
  }

  lemma RankInRange(p: real, n: nat)
    ensures 0 <= Ceil(Clamp(p) * n as real) <= n
  {
    var c, r := Clamp(p), n as real;
    assert 0.0 <= c * r <= r;
  }

  /** The sample of that rank. */
  function Percentile<T(!new)>(leq: Leq<T>, samples: seq<T>, p: real): Option<T>
    requires LinearOrder(leq)
  {
    if samples == [] then None
    else
      SortKeeps(leq, samples);
      Some(Sort(leq, samples)[Rank(p, |samples|) - 1])
  }

  // ---- The method ----

  lemma SortNext<T>(leq: Leq<T>, s: seq<T>, x: T)
    ensures Sort(leq, s + [x]) == Insert(leq, Sort(leq, s), x)
  {
    assert (s + [x])[..|s|] == s;
  }

  lemma Reassemble<T>(s: seq<T>, x: T, k: nat)
    requires k < |s|
    ensures s[..|s| - 1][..k] + [x] + s[..|s| - 1][k..] + [s[|s| - 1]] == s[..k] + [x] + s[k..]
  {
    var n := |s| - 1;
    assert s[..n][..k] == s[..k] && s[..n][k..] + [s[n]] == s[k..];
  }

  lemma InsertAt<T>(leq: Leq<T>, s: seq<T>, x: T, k: nat)
    requires k <= |s| && (forall i | k <= i < |s| :: !leq(s[i], x)) && (k > 0 ==> leq(s[k - 1], x))
    ensures Insert(leq, s, x) == s[..k] + [x] + s[k..]
    decreases |s|
  {
    if k < |s| {
      InsertAt(leq, s[..|s| - 1], x, k);
      Reassemble(s, x, k);
    } else {
      assert s[..k] == s && s[k..] == [];
    }
  }

  lemma Around<T>(s: seq<T>, k: nat)
    requires k < |s|
    ensures s == s[..k] + [s[k]] + s[k + 1..]
  {
  }

  /** Moves `a[end]` down to its place among the sorted elements before it. */
  method SiftDown<T(!new)>(leq: Leq<T>, a: array<T>, end: nat)
    requires end < a.Length
    modifies a
    ensures a[..end + 1] == Insert(leq, old(a[..end]), old(a[end]))
    ensures a[end + 1..] == old(a[end + 1..])
  {
    var x, k := a[end], end;
    ghost var s := a[..end];
    while k > 0 && !leq(a[k - 1], x)
      invariant k <= end && a[..k] == s[..k] && a[k + 1..end + 1] == s[k..]
      invariant forall i | k <= i < end :: !leq(s[i], x)
      invariant a[end + 1..] == old(a[end + 1..])
    {
      assert a[k - 1] == s[k - 1];
      a[k] := a[k - 1];
      k := k - 1;
      assert a[k + 1..end + 1] == [s[k]] + s[k + 1..];
    }
    a[k] := x;
    if k > 0 { assert a[k - 1] == s[k - 1]; }
    InsertAt(leq, s, x, k);
    Around(a[..end + 1], k);
    assert a[..end + 1][..k] == a[..k] && a[..end + 1][k + 1..] == a[k + 1..end + 1];
  }

  method SortInPlace<T(!new)>(leq: Leq<T>, a: array<T>)
    modifies a
    ensures a[..] == Sort(leq, old(a[..]))
  {
    for end := 0 to a.Length
      invariant a[..end] == Sort(leq, old(a[..])[..end]) && a[end..] == old(a[..])[end..]
    {
      assert a[end] == old(a[..])[end];
      SortNext(leq, old(a[..])[..end], old(a[..])[end]);
      assert old(a[..])[..end] + [old(a[..])[end]] == old(a[..])[..end + 1];
      SiftDown(leq, a, end);
    }
    assert a[..] == a[..a.Length] && old(a[..])[..a.Length] == old(a[..]);
  }

  /** Sorts a copy, and reads the percentile off it. */
  method PercentileOf<T(!new)>(leq: Leq<T>, samples: seq<T>, p: real) returns (r: Option<T>)
    requires LinearOrder(leq)
    ensures r == Percentile(leq, samples, p)
  {
    if samples == [] { return None; }
    var sorted := new T[|samples|](i requires 0 <= i < |samples| => samples[i]);
    assert sorted[..] == samples;
    SortInPlace(leq, sorted);
    return Some(sorted[Rank(p, |samples|) - 1]);
  }

  // ---- What it is ----

  /** How many samples are at or below `x`. */
  function AtMost<T(!new)>(leq: Leq<T>, s: seq<T>, x: T): nat {
    if s == [] then 0 else AtMost(leq, s[..|s| - 1], x) + if leq(s[|s| - 1], x) then 1 else 0
  }

  /** How many samples are below `x`. */
  function Below<T(!new)>(leq: Leq<T>, s: seq<T>, x: T): nat {
    if s == [] then 0 else Below(leq, s[..|s| - 1], x) + if !leq(x, s[|s| - 1]) then 1 else 0
  }

  lemma {:induction false} InsertCounts<T(!new)>(leq: Leq<T>, s: seq<T>, y: T, x: T)
    ensures AtMost(leq, Insert(leq, s, y), x) == AtMost(leq, s, x) + if leq(y, x) then 1 else 0
    ensures Below(leq, Insert(leq, s, y), x) == Below(leq, s, x) + if !leq(x, y) then 1 else 0
  {
    if s == [] || leq(s[|s| - 1], y) {
      assert (s + [y])[..|s|] == s;
    } else {
      var n := |s| - 1;
      InsertCounts(leq, s[..n], y, x);
      var t := Insert(leq, s[..n], y);
      assert (t + [s[n]])[..|t|] == t;
    }
  }

  lemma {:induction false} SortCounts<T(!new)>(leq: Leq<T>, s: seq<T>, x: T)
    ensures AtMost(leq, Sort(leq, s), x) == AtMost(leq, s, x) && Below(leq, Sort(leq, s), x) == Below(leq, s, x)
  {
    if s != [] {
      var n := |s| - 1;
      SortCounts(leq, s[..n], x);
      InsertCounts(leq, Sort(leq, s[..n]), s[n], x);
    }
  }

  lemma {:induction false} SortedCounts<T(!new)>(leq: Leq<T>, s: seq<T>, k: nat, x: T)
    requires k <= |s|
    ensures (forall i | 0 <= i < k :: leq(s[i], x)) ==> AtMost(leq, s, x) >= k
    ensures (forall i | k <= i < |s| :: leq(x, s[i])) ==> Below(leq, s, x) <= k
    decreases |s|
  {
    if |s| > k {
      SortedCounts(leq, s[..|s| - 1], k, x);
    } else if k > 0 {
      SortedCounts(leq, s[..k - 1], k - 1, x);
    }
  }

  lemma SortedRank<T(!new)>(leq: Leq<T>, samples: seq<T>, k: nat)
    requires LinearOrder(leq) && k < |samples|
    ensures |Sort(leq, samples)| == |samples|
    ensures var x := Sort(leq, samples)[k];
            x in samples && AtMost(leq, samples, x) >= k + 1 && Below(leq, samples, x) <= k
  {
    var sorted := Sort(leq, samples);
    SortHolds(leq, samples, k);
    var x := sorted[k];
    CountsAt(leq, sorted, k);
    SortCounts(leq, samples, x);
  }

  lemma SortHolds<T(!new)>(leq: Leq<T>, samples: seq<T>, k: nat)
    requires LinearOrder(leq) && k < |samples|
    ensures |Sort(leq, samples)| == |samples| && Sorted(leq, Sort(leq, samples)) && Sort(leq, samples)[k] in samples
  {
    SortKeeps(leq, samples);
    assert Sort(leq, samples)[k] in multiset(Sort(leq, samples));
  }

  lemma CountsAt<T(!new)>(leq: Leq<T>, sorted: seq<T>, k: nat)
    requires LinearOrder(leq) && Sorted(leq, sorted) && k < |sorted|
    ensures AtMost(leq, sorted, sorted[k]) >= k + 1 && Below(leq, sorted, sorted[k]) <= k
  {
    SortedCounts(leq, sorted, k + 1, sorted[k]);
    SortedCounts(leq, sorted, k, sorted[k]);
  }

  /** Main result: the percentile is one of the samples, as many samples as its rank are
      at or below it, and fewer than that are below. */
  lemma NearestRank<T(!new)>(leq: Leq<T>, samples: seq<T>, p: real)
    requires LinearOrder(leq) && samples != []
    ensures var r := Percentile(leq, samples, p);
            && r.Some? && r.value in samples
            && AtMost(leq, samples, r.value) >= Rank(p, |samples|) > Below(leq, samples, r.value)
  {
    SortedRank(leq, samples, Rank(p, |samples|) - 1);
  }

  /** Nothing else is: that pins the sample down. */
  lemma {:induction false} AtMostGrows<T(!new)>(leq: Leq<T>, s: seq<T>, x: T, y: T)
    requires LinearOrder(leq) && leq(x, y) && x != y
    ensures AtMost(leq, s, x) <= Below(leq, s, y)
  {
    if s != [] { AtMostGrows(leq, s[..|s| - 1], x, y); }
  }

  lemma RankPinsDown<T(!new)>(leq: Leq<T>, samples: seq<T>, p: real, x: T)
    requires LinearOrder(leq) && samples != []
    requires AtMost(leq, samples, x) >= Rank(p, |samples|) > Below(leq, samples, x)
    ensures Percentile(leq, samples, p) == Some(x)
  {
    NearestRank(leq, samples, p);
    var y := Percentile(leq, samples, p).value;
    if y != x {
      if leq(x, y) { AtMostGrows(leq, samples, x, y); } else { AtMostGrows(leq, samples, y, x); }
    }
  }

  // ---- The rank, without a rank ----

  function AtOrBelow<T>(leq: Leq<T>, x: T): T -> bool { (y: T) => leq(y, x) }

  function Under<T>(leq: Leq<T>, x: T): T -> bool { (y: T) => !leq(x, y) }

  lemma {:induction false} CountsMean<T(!new)>(leq: Leq<T>, s: seq<T>, x: T)
    ensures AtMost(leq, s, x) == HowMany(s, AtOrBelow(leq, x)) && Below(leq, s, x) == HowMany(s, Under(leq, x))
  {
    if s != [] {
      CountsMean(leq, s[..|s| - 1], x);
      HowManyNext(s, AtOrBelow(leq, x));
      HowManyNext(s, Under(leq, x));
    }
  }

  /** Whether `rank` is the least whole number, from one up, that is no less than `p` of
      `n`. */
  predicate IsRankOf(rank: int, p: real, n: nat) {
    rank >= 1 && rank as real >= p * n as real && (rank == 1 || (rank - 1) as real < p * n as real)
  }

  lemma RankMeaning(p: real, n: nat)
    requires n > 0 && 0.0 <= p <= 1.0
    ensures IsRankOf(Rank(p, n), p, n)
  {
  }

  lemma {:induction false} IsAtMostItself<T(!new)>(leq: Leq<T>, s: seq<T>, x: T)
    requires LinearOrder(leq) && x in s
    ensures AtMost(leq, s, x) >= 1
  {
    var n := |s| - 1;
    if s[n] != x {
      assert s == s[..n] + [s[n]];
      IsAtMostItself(leq, s[..n], x);
    }
  }

  /** Whether at least `p` of `n` are at or below, and fewer than that, if any, below. */
  predicate Straddles(p: real, n: nat, atOrBelow: nat, below: nat) {
    atOrBelow as real >= p * n as real && (below == 0 || below as real < p * n as real)
  }

  /** Whether `x` is the nearest rank: a sample that `p` of the samples straddle. */
  ghost predicate IsRanked<T(!new)>(leq: Leq<T>, samples: seq<T>, p: real, x: T) {
    x in samples && Straddles(p, |samples|, HowMany(samples, AtOrBelow(leq, x)), HowMany(samples, Under(leq, x)))
  }

  /** Main result: a percentile is the nearest rank, and the nearest rank is it. */
  lemma PercentileMeaning<T(!new)>(leq: Leq<T>, samples: seq<T>, p: real, x: T)
    requires LinearOrder(leq) && samples != [] && 0.0 <= p <= 1.0
    ensures Percentile(leq, samples, p) == Some(x) <==> IsRanked(leq, samples, p, x)
  {
    if Percentile(leq, samples, p) == Some(x) {
      PercentileIsRanked(leq, samples, p);
    } else if IsRanked(leq, samples, p, x) {
      RankedIsPercentile(leq, samples, p, x);
    }
  }

  lemma PercentileIsRanked<T(!new)>(leq: Leq<T>, samples: seq<T>, p: real)
    requires LinearOrder(leq) && samples != [] && 0.0 <= p <= 1.0
    ensures IsRanked(leq, samples, p, Percentile(leq, samples, p).value)
  {
    NearestRank(leq, samples, p);
    RankMeaning(p, |samples|);
    RankedAt(leq, samples, p, Rank(p, |samples|), Percentile(leq, samples, p).value);
  }

  lemma RankedIsPercentile<T(!new)>(leq: Leq<T>, samples: seq<T>, p: real, x: T)
    requires LinearOrder(leq) && samples != [] && 0.0 <= p <= 1.0 && IsRanked(leq, samples, p, x)
    ensures Percentile(leq, samples, p) == Some(x)
  {
    RankMeaning(p, |samples|);
    RankedAt(leq, samples, p, Rank(p, |samples|), x);
    RankPinsDown(leq, samples, p, x);
  }

  lemma RankedAt<T(!new)>(leq: Leq<T>, samples: seq<T>, p: real, rank: int, x: T)
    requires LinearOrder(leq) && x in samples && IsRankOf(rank, p, |samples|)
    ensures IsRanked(leq, samples, p, x) <==> AtMost(leq, samples, x) >= rank > Below(leq, samples, x)
  {
    CountsMean(leq, samples, x);
    IsAtMostItself(leq, samples, x);
    RankByShare(rank, p, |samples|, AtMost(leq, samples, x), Below(leq, samples, x));
  }

  lemma RankByShare(rank: int, p: real, n: nat, atMost: nat, below: nat)
    requires IsRankOf(rank, p, n) && atMost >= 1
    ensures atMost >= rank > below <==> Straddles(p, n, atMost, below)
  {
  }

  /** Outside of zero to one it is the percentile at the nearer end. */
  lemma ClampMeaning<T(!new)>(leq: Leq<T>, samples: seq<T>, p: real)
    requires LinearOrder(leq)
    ensures p <= 0.0 ==> Percentile(leq, samples, p) == Percentile(leq, samples, 0.0)
    ensures p >= 1.0 ==> Percentile(leq, samples, p) == Percentile(leq, samples, 1.0)
  {
  }

  /** The order of the samples does not matter. */
  lemma PermutationInvariant<T(!new)>(leq: Leq<T>, a: seq<T>, b: seq<T>, p: real)
    requires LinearOrder(leq) && multiset(a) == multiset(b)
    ensures Percentile(leq, a, p) == Percentile(leq, b, p)
  {
    SameLength(a, b);
    SortedCopiesAgree(leq, a, b);
  }

  lemma RankGrows(p: real, q: real, n: nat)
    requires n > 0 && p <= q
    ensures Rank(p, n) <= Rank(q, n)
  {
    Scale(Clamp(p), Clamp(q), n as real);
    CeilGrows(Clamp(p) * n as real, Clamp(q) * n as real);
  }

  lemma CeilGrows(x: real, y: real)
    requires x <= y
    ensures Ceil(x) <= Ceil(y)
  {
  }

  lemma RanksInOrder<T(!new)>(leq: Leq<T>, samples: seq<T>, i: nat, j: nat)
    requires LinearOrder(leq) && i <= j < |samples|
    ensures |Sort(leq, samples)| == |samples| && leq(Sort(leq, samples)[i], Sort(leq, samples)[j])
  {
    SortKeeps(leq, samples);
  }

  /** A higher percentile is no smaller a sample. */
  lemma MonotoneInP<T(!new)>(leq: Leq<T>, samples: seq<T>, p: real, q: real)
    requires LinearOrder(leq) && samples != [] && p <= q
    ensures leq(Percentile(leq, samples, p).value, Percentile(leq, samples, q).value)
  {
    RankGrows(p, q, |samples|);
    RanksInOrder(leq, samples, Rank(p, |samples|) - 1, Rank(q, |samples|) - 1);
  }

  lemma Scale(c: real, d: real, n: real)
    requires c <= d && n >= 0.0
    ensures c * n <= d * n
  {
    assert (d - c) * n >= 0.0;
  }

  /** The zeroth percentile is the minimum, the hundredth the maximum. */
  lemma Extremes<T(!new)>(leq: Leq<T>, samples: seq<T>, x: T)
    requires LinearOrder(leq) && x in samples
    ensures leq(Percentile(leq, samples, 0.0).value, x) && leq(x, Percentile(leq, samples, 1.0).value)
  {
    SortKeeps(leq, samples);
    var sorted := Sort(leq, samples);
    assert x in multiset(sorted);
    var i :| 0 <= i < |sorted| && sorted[i] == x;
    assert Rank(0.0, |samples|) == 1 && Rank(1.0, |samples|) == |samples|;
  }
}
