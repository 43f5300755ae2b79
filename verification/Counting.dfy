/** How many positions of a sequence pass a test, as the size of a set. */
module Counting {

  function Upto(n: nat, test: nat -> bool): set<nat> {
    set i: nat | i < n && test(i)
  }

  lemma UptoNext(n: nat, test: nat -> bool)
    ensures |Upto(n + 1, test)| == |Upto(n, test)| + if test(n) then 1 else 0
  {
    assert Upto(n + 1, test) == Upto(n, test) + if test(n) then {n} else {};
  }

  lemma UptoSame(n: nat, one: nat -> bool, other: nat -> bool)
    requires forall i: nat | i < n :: one(i) == other(i)
    ensures Upto(n, one) == Upto(n, other)
  {
  }

  function HowMany<X>(items: seq<X>, test: X -> bool): nat {
    |set i: nat | i < |items| && test(items[i])|
  }

  lemma HowManyNext<X>(items: seq<X>, test: X -> bool)
    requires items != []
    ensures HowMany(items, test)
         == HowMany(items[..|items| - 1], test) + if test(items[|items| - 1]) then 1 else 0
  {
    var n := |items| - 1;
    var all := set i: nat | i < |items| && test(items[i]);
    var front := set i: nat | i < n && test(items[..n][i]);
    assert all == front + if test(items[n]) then {n} else {};
  }

  lemma {:induction false} HowManySame<X>(items: seq<X>, one: X -> bool, other: X -> bool)
    requires forall x | x in items :: one(x) == other(x)
    ensures HowMany(items, one) == HowMany(items, other)
  {
    assert (set i: nat | i < |items| && one(items[i])) == (set i: nat | i < |items| && other(items[i]));
  }

  lemma HowManyAtMost<X>(items: seq<X>, test: X -> bool)
    ensures HowMany(items, test) <= |items|
    decreases |items|
  {
    if items != [] {
      HowManyNext(items, test);
      HowManyAtMost(items[..|items| - 1], test);
    }
  }

  /** What the items come to, each at its weight. */
  function SumBy<X>(items: seq<X>, weight: X -> int): int {
    if items == [] then 0 else weight(items[0]) + SumBy(items[1..], weight)
  }

  lemma {:induction false} SumByNext<X>(items: seq<X>, weight: X -> int)
    requires items != []
    ensures SumBy(items, weight) == SumBy(items[..|items| - 1], weight) + weight(items[|items| - 1])
  {
    if |items| > 1 {
      SumByNext(items[1..], weight);
      assert items[1..][..|items| - 2] == items[..|items| - 1][1..];
    }
  }

  lemma {:induction false} SumBySame<X>(items: seq<X>, one: X -> int, other: X -> int)
    requires forall x | x in items :: one(x) == other(x)
    ensures SumBy(items, one) == SumBy(items, other)
  {
    if items != [] { SumBySame(items[1..], one, other); }
  }

  function RealSumBy<X>(items: seq<X>, weight: X -> real): real {
    if items == [] then 0.0 else weight(items[0]) + RealSumBy(items[1..], weight)
  }

  lemma {:induction false} RealSumByNext<X>(items: seq<X>, weight: X -> real)
    requires items != []
    ensures RealSumBy(items, weight) == RealSumBy(items[..|items| - 1], weight) + weight(items[|items| - 1])
  {
    if |items| > 1 {
      RealSumByNext(items[1..], weight);
      assert items[1..][..|items| - 2] == items[..|items| - 1][1..];
    }
  }

  // ---- The items that pass ----

  function And<X>(one: X -> bool, other: X -> bool): X -> bool { (x: X) => one(x) && other(x) }

  function Weigh<X>(test: X -> bool, weight: X -> int): X -> int { (x: X) => if test(x) then weight(x) else 0 }

  function Filter<X>(items: seq<X>, test: X -> bool): seq<X> {
    if items == [] then []
    else
      var n := |items| - 1;
      if test(items[n]) then Filter(items[..n], test) + [items[n]] else Filter(items[..n], test)
  }

  lemma HowManyMore<X>(items: seq<X>, x: X, test: X -> bool)
    ensures HowMany(items + [x], test) == HowMany(items, test) + if test(x) then 1 else 0
  {
    HowManyNext(items + [x], test);
    assert (items + [x])[..|items|] == items;
  }

  lemma SumByMore<X>(items: seq<X>, x: X, weight: X -> int)
    ensures SumBy(items + [x], weight) == SumBy(items, weight) + weight(x)
  {
    SumByNext(items + [x], weight);
    assert (items + [x])[..|items|] == items;
  }

  /** Counting and adding up what passes is counting and adding up with one more test. */
  lemma {:induction false} FilterCounts<X>(items: seq<X>, test: X -> bool, other: X -> bool, weight: X -> int)
    ensures |Filter(items, test)| == HowMany(items, test)
    ensures HowMany(Filter(items, test), other) == HowMany(items, And(test, other))
    ensures SumBy(Filter(items, test), weight) == SumBy(items, Weigh(test, weight))
  {
    if items != [] {
      var n := |items| - 1;
      FilterCounts(items[..n], test, other, weight);
      HowManyNext(items, test);
      HowManyNext(items, And(test, other));
      SumByNext(items, Weigh(test, weight));
      HowManyMore(Filter(items[..n], test), items[n], other);
      SumByMore(Filter(items[..n], test), items[n], weight);
    }
  }

  lemma {:induction false} FilterTwice<X>(items: seq<X>, test: X -> bool, other: X -> bool)
    ensures Filter(Filter(items, test), other) == Filter(items, And(test, other))
  {
    if items != [] {
      var n := |items| - 1;
      FilterTwice(items[..n], test, other);
      var front := Filter(items[..n], test);
      if test(items[n]) { assert (front + [items[n]])[..|front|] == front; }
    }
  }

  lemma {:induction false} FilterHolds<X>(items: seq<X>, test: X -> bool, x: X)
    ensures x in Filter(items, test) <==> x in items && test(x)
  {
    if items != [] {
      var n := |items| - 1;
      FilterHolds(items[..n], test, x);
      assert items == items[..n] + [items[n]];
    }
  }

  lemma {:induction false} FilterSame<X>(items: seq<X>, one: X -> bool, other: X -> bool)
    requires forall x :: one(x) == other(x)
    ensures Filter(items, one) == Filter(items, other)
  {
    if items != [] { FilterSame(items[..|items| - 1], one, other); }
  }
}
