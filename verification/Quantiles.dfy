/** Percentiles of what the picked ones of some items come to, said by counting items. */
module Quantiles {
  import opened Prelude
  import opened Sorting
  import opened Counting
  import opened Percentiles

  type Pick<!X> = X -> bool

  type Amount<!X, T> = X -> T

  function AtMostOf<X, T>(leq: Leq<T>, picks: Pick<X>, took: Amount<X, T>, x: T): Pick<X> {
    (v: X) => picks(v) && leq(took(v), x)
  }

  function LessOf<X, T>(leq: Leq<T>, picks: Pick<X>, took: Amount<X, T>, x: T): Pick<X> {
    (v: X) => picks(v) && !leq(x, took(v))
  }

  /** Whether `x` is what one of the picked items comes to, and `p` of them straddle it. */
  ghost predicate IsQuantile<X(!new), T(!new)>(leq: Leq<T>, x: T, items: seq<X>, picks: Pick<X>, took: Amount<X, T>,
                                               p: real)
  {
    && (exists v :: v in items && picks(v) && took(v) == x)
    && Straddles(p, HowMany(items, picks), HowMany(items, AtMostOf(leq, picks, took, x)),
                 HowMany(items, LessOf(leq, picks, took, x)))
  }

  /** Whether `q` is that quantile, missing exactly when nothing is picked. */
  ghost predicate Ranks<X(!new), T(!new)>(leq: Leq<T>, q: Option<T>, items: seq<X>, picks: Pick<X>,
                                          took: Amount<X, T>, p: real)
  {
    && (q.None? <==> HowMany(items, picks) == 0)
    && (q.Some? ==> IsQuantile(leq, q.value, items, picks, took, p))
  }

  // ---- The samples themselves ----

  function Picked<X, T>(items: seq<X>, picks: Pick<X>, took: Amount<X, T>): seq<T> {
    if items == [] then []
    else
      var n := |items| - 1;
      if picks(items[n]) then Picked(items[..n], picks, took) + [took(items[n])] else Picked(items[..n], picks, took)
  }

  lemma {:induction false} PickedCounts<X, T>(items: seq<X>, picks: Pick<X>, took: Amount<X, T>)
    ensures |Picked(items, picks, took)| == HowMany(items, picks)
  {
    if items != [] {
      PickedCounts(items[..|items| - 1], picks, took);
      HowManyNext(items, picks);
    }
  }

  lemma OneMoreRanked<T(!new)>(leq: Leq<T>, samples: seq<T>, y: T, x: T)
    ensures AtMost(leq, samples + [y], x) == AtMost(leq, samples, x) + if leq(y, x) then 1 else 0
    ensures Below(leq, samples + [y], x) == Below(leq, samples, x) + if leq(x, y) then 0 else 1
  {
    assert (samples + [y])[..|samples|] == samples;
  }

  lemma {:induction false} PickedRanks<X, T(!new)>(leq: Leq<T>, items: seq<X>, picks: Pick<X>, took: Amount<X, T>, x: T)
    ensures AtMost(leq, Picked(items, picks, took), x) == HowMany(items, AtMostOf(leq, picks, took, x))
    ensures Below(leq, Picked(items, picks, took), x) == HowMany(items, LessOf(leq, picks, took, x))
  {
    if items != [] {
      var n := |items| - 1;
      PickedRanks(leq, items[..n], picks, took, x);
      HowManyNext(items, AtMostOf(leq, picks, took, x));
      HowManyNext(items, LessOf(leq, picks, took, x));
      OneMoreRanked(leq, Picked(items[..n], picks, took), took(items[n]), x);
    }
  }

  lemma {:induction false} PickedHolds<X(!new), T>(items: seq<X>, picks: Pick<X>, took: Amount<X, T>, x: T)
    ensures x in Picked(items, picks, took) <==> exists v :: v in items && picks(v) && took(v) == x
  {
    if items != [] {
      var n := |items| - 1;
      PickedHolds(items[..n], picks, took, x);
      assert items == items[..n] + [items[n]];
    }
  }

  lemma {:induction false} PickedFiltered<X, T>(items: seq<X>, test: Pick<X>, picks: Pick<X>, took: Amount<X, T>)
    ensures Picked(Filter(items, test), picks, took) == Picked(items, And(test, picks), took)
  {
    if items != [] {
      var n := |items| - 1;
      PickedFiltered(items[..n], test, picks, took);
      var front := Filter(items[..n], test);
      if test(items[n]) { assert (front + [items[n]])[..|front|] == front; }
    }
  }

  lemma {:induction false} PickedSame<X, T>(items: seq<X>, one: Pick<X>, other: Pick<X>, took: Amount<X, T>)
    requires forall x :: one(x) == other(x)
    ensures Picked(items, one, took) == Picked(items, other, took)
  {
    if items != [] { PickedSame(items[..|items| - 1], one, other, took); }
  }

  lemma RankedIsQuantile<X(!new), T(!new)>(leq: Leq<T>, items: seq<X>, picks: Pick<X>, took: Amount<X, T>, p: real,
                                           x: T)
    requires IsRanked(leq, Picked(items, picks, took), p, x)
    ensures IsQuantile(leq, x, items, picks, took, p)
  {
    CountsMean(leq, Picked(items, picks, took), x);
    PickedHolds(items, picks, took, x);
    PickedRanks(leq, items, picks, took, x);
    PickedCounts(items, picks, took);
  }

  /** A percentile of what the picked items come to is that quantile of them. */
  lemma QuantileMeaning<X(!new), T(!new)>(leq: Leq<T>, items: seq<X>, picks: Pick<X>, took: Amount<X, T>, p: real)
    requires LinearOrder(leq) && 0.0 <= p <= 1.0
    ensures Ranks(leq, Percentile(leq, Picked(items, picks, took), p), items, picks, took, p)
  {
    var samples := Picked(items, picks, took);
    PickedCounts(items, picks, took);
    if samples != [] {
      var x := Percentile(leq, samples, p).value;
      PercentileMeaning(leq, samples, p, x);
      RankedIsQuantile(leq, items, picks, took, p, x);
    }
  }
}
