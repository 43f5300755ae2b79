/** The sats that changed hands in a window, and how they divide. */
module Volume {
  import opened Prelude
  import opened Tiling
  import opened Counting
  import opened Tallies
  import opened Percentiles
  import opened Quantiles
  import opened Schema
  import opened Views
  import opened Activity
  import opened Timing

  predicate FitsI64(x: int) { I64_MIN <= x <= I64_MAX }

  /** The size buckets: each but the last by its inclusive upper bound in sats. */
  function SizeBucket(size: int): (b: nat)
    ensures b < 5
  {
    if size <= 9_999 then 0 else if size <= 50_000 then 1 else if size <= 200_000 then 2
    else if size <= 1_000_000 then 3 else 4
  }

  /** The sum, unless it leaves an i64. */
  function SumSats(sats: seq<int>): Option<int> {
    if FitsI64(Sum(sats)) then Some(Sum(sats)) else None
  }

  /** The mean to the nearest sat, halves up. */
  function MeanSats(sizes: seq<int>): Option<int> {
    if sizes == [] then None
    else
      var mean := (2 * Sum(sizes) + |sizes|) / (2 * |sizes|);
      if FitsI64(mean) then Some(mean) else None
  }

  /** The orders that reached success in the window. */
  function Completed(orders: seq<View>, w: Window): seq<View> {
    if orders == [] then []
    else
      var v := orders[|orders| - 1];
      Completed(orders[..|orders| - 1], w) +
      if CompletedOn(v).Some? && w.Contains(CompletedOn(v).value) then [v] else []
  }

  function Sizes(orders: seq<View>): seq<int> {
    if orders == [] then [] else Sizes(orders[..|orders| - 1]) + [orders[|orders| - 1].amountSats]
  }

  function OnSide(orders: seq<View>, d: Direction): seq<View> {
    if orders == [] then []
    else
      OnSide(orders[..|orders| - 1], d) +
      if orders[|orders| - 1].direction == d then [orders[|orders| - 1]] else []
  }

  /** The fiat amounts of the orders that name one; a range order names none. */
  function Amounts(orders: seq<View>): seq<real> {
    if orders == [] then []
    else
      var v := orders[|orders| - 1];
      Amounts(orders[..|orders| - 1]) + if v.fiatAmount.Some? then [v.fiatAmount.value] else []
  }

  function RealSum(xs: seq<real>): real {
    if xs == [] then 0.0 else RealSum(xs[..|xs| - 1]) + xs[|xs| - 1]
  }

  datatype FiatFigures = FiatFigures(total: real, ticketAvg: real, ticketP50: real, ticketP90: real)

  /** One currency's side of the window. */
  datatype FiatVolume = FiatVolume(orders: nat, completed: nat, sats: Option<int>, figures: Option<FiatFigures>)

  function FiatOf(group: seq<View>): FiatVolume {
    var amounts := Amounts(group);
    FiatVolume(|amounts|, |group|, SumSats(Sizes(group)),
               if amounts == [] then None
               else Some(FiatFigures(RealSum(amounts), RealSum(amounts) / |amounts| as real,
                                     Percentile(RealLeq, amounts, 0.5).value, Percentile(RealLeq, amounts, 0.9).value)))
  }

  /** The largest of some sizes. */
  function Largest(sizes: seq<int>): (m: Option<int>)
    ensures m.None? <==> sizes == []
    ensures m.Some? ==> m.value in sizes && forall x | x in sizes :: x <= m.value
  {
    if sizes == [] then None
    else
      var n := |sizes| - 1;
      var before := Largest(sizes[..n]);
      assert sizes == sizes[..n] + [sizes[n]];
      if before.Some? && before.value > sizes[n] then before else Some(sizes[n])
  }

  datatype Summary = Summary(
    completed: nat, sats: Option<int>, ticketAvg: Option<int>, ticketP50: Option<int>, ticketP90: Option<int>,
    largest: Option<int>, buckets: seq<nat>, buySats: Option<int>, sellSats: Option<int>, fiat: map<string, FiatVolume>)

  function SizeSlot(v: View): Option<nat> { Some(SizeBucket(v.amountSats)) }

  function InCurrency(orders: seq<View>, code: string): seq<View> { InGroup(orders, FiatKey, code) }

  ghost predicate Summarises(s: Summary, done: seq<View>) {
    && s.completed == |done| && s.sats == SumSats(Sizes(done)) && s.ticketAvg == MeanSats(Sizes(done))
    && s.ticketP50 == Percentile(IntLeq, Sizes(done), 0.5) && s.ticketP90 == Percentile(IntLeq, Sizes(done), 0.9)
    && s.largest == Largest(Sizes(done))
    && |s.buckets| == 5 && (forall b | 0 <= b < 5 :: s.buckets[b] == InSlot(done, SizeSlot, b))
    && s.buySats == SumSats(Sizes(OnSide(done, Buy))) && s.sellSats == SumSats(Sizes(OnSide(done, Sell)))
    && s.fiat.Keys == AllKeys(done, FiatKey)
    && forall code | code in s.fiat :: s.fiat[code] == FiatOf(InCurrency(done, code))
  }

  // ---- What each figure is ----

  function SatsOfOrder(v: View): int { v.amountSats }

  function FiatOfOrder(v: View): real { v.fiatAmount.GetOr(0.0) }

  function MadeTo(d: Direction): Pick<View> { (v: View) => v.direction == d }

  function PricedIn(code: string): Pick<View> { (v: View) => v.fiatCode == code }

  predicate NamesAmount(v: View) { v.fiatAmount.Some? }

  function RealWeigh(test: Pick<View>, weight: View -> real): View -> real {
    (v: View) => if test(v) then weight(v) else 0.0
  }

  /** From one size up, and below another. */
  function SizedIn(from: int, below: int): Pick<View> { (v: View) => from <= v.amountSats < below }

  function SizedUnder(below: int): Pick<View> { (v: View) => v.amountSats < below }

  function SizedOver(above: int): Pick<View> { (v: View) => v.amountSats > above }

  /** Whether a sum is given exactly when it fits an i64. */
  predicate IsSum(q: Option<int>, sum: int) {
    q == if -0x8000_0000_0000_0000 <= sum <= 0x7fff_ffff_ffff_ffff then Some(sum) else None
  }

  /** Whether `m` is the mean of `n` that come to `sum`, to the nearest, halves up. */
  predicate IsNearest(m: int, sum: int, n: nat) { (2 * m - 1) * n <= 2 * sum < (2 * m + 1) * n }

  /** Whether that mean is given exactly when there is one and it fits an i64. */
  ghost predicate IsMean(q: Option<int>, sum: int, n: nat) {
    if n == 0 then q.None?
    else exists m :: IsNearest(m, sum, n) && q == if FitsI64(m) then Some(m) else None
  }

  ghost predicate IsLargest(q: Option<int>, orders: seq<View>, picks: Pick<View>) {
    && (q.None? <==> HowMany(orders, picks) == 0)
    && (q.Some? ==> exists v :: v in orders && picks(v) && v.amountSats == q.value)
    && forall v | v in orders && picks(v) :: q.Some? && v.amountSats <= q.value
  }

  /** Whether the sizes are cut after 9 999, 50 000, 200 000 and 1 000 000 sats. */
  ghost predicate CountsSizes(buckets: seq<nat>, orders: seq<View>, picks: Pick<View>) {
    && |buckets| == 5
    && buckets[0] == HowMany(orders, And(picks, SizedUnder(10_000)))
    && buckets[1] == HowMany(orders, And(picks, SizedIn(10_000, 50_001)))
    && buckets[2] == HowMany(orders, And(picks, SizedIn(50_001, 200_001)))
    && buckets[3] == HowMany(orders, And(picks, SizedIn(200_001, 1_000_001)))
    && buckets[4] == HowMany(orders, And(picks, SizedOver(1_000_000)))
  }

  predicate IsAverage(average: real, total: real, n: nat) { average * n as real == total }

  /** Whether the figures of one currency's amounts are of the orders picked. */
  ghost predicate AreFiatFigures(f: FiatFigures, orders: seq<View>, named: Pick<View>) {
    && f.total == RealSumBy(orders, RealWeigh(named, FiatOfOrder))
    && IsAverage(f.ticketAvg, f.total, HowMany(orders, named))
    && Ranks(RealLeq, Some(f.ticketP50), orders, named, FiatOfOrder, 0.5)
    && Ranks(RealLeq, Some(f.ticketP90), orders, named, FiatOfOrder, 0.9)
  }

  /** Whether the figures of one currency are of the orders picked, its amounts of those of
      them that name one. */
  ghost predicate IsFiatVolume(f: FiatVolume, orders: seq<View>, picks: Pick<View>) {
    var named := And(picks, NamesAmount);
    && f.completed == HowMany(orders, picks) && f.orders == HowMany(orders, named)
    && IsSum(f.sats, SumBy(orders, Weigh(picks, SatsOfOrder)))
    && (f.figures.None? <==> f.orders == 0)
    && (f.figures.Some? ==> AreFiatFigures(f.figures.value, orders, named))
  }

  /** Whether the figures over all the orders picked are of their number and their sizes. */
  ghost predicate IsOverall(s: Summary, orders: seq<View>, done: Pick<View>) {
    && s.completed == HowMany(orders, done)
    && IsSum(s.sats, SumBy(orders, Weigh(done, SatsOfOrder)))
    && IsMean(s.ticketAvg, SumBy(orders, Weigh(done, SatsOfOrder)), s.completed)
    && Ranks(IntLeq, s.ticketP50, orders, done, SatsOfOrder, 0.5)
    && Ranks(IntLeq, s.ticketP90, orders, done, SatsOfOrder, 0.9)
    && IsLargest(s.largest, orders, done)
  }

  /** Every figure of a window, said of the orders' own dates, sizes, sides and
      currencies. */
  ghost predicate Figures(s: Summary, orders: seq<View>, w: Window) {
    var done := CompletedIn(w);
    && IsOverall(s, orders, done) && CountsSizes(s.buckets, orders, done)
    && IsSum(s.buySats, SumBy(orders, Weigh(And(done, MadeTo(Buy)), SatsOfOrder)))
    && IsSum(s.sellSats, SumBy(orders, Weigh(And(done, MadeTo(Sell)), SatsOfOrder)))
    && (forall code :: code in s.fiat <==> exists v :: v in orders && done(v) && v.fiatCode == code)
    && forall code | code in s.fiat :: IsFiatVolume(s.fiat[code], orders, And(done, PricedIn(code)))
  }

  lemma {:induction false} CompletedIsFilter(orders: seq<View>, w: Window)
    ensures Completed(orders, w) == Filter(orders, CompletedIn(w))
  {
    if orders != [] {
      var n := |orders| - 1;
      CompletedIsFilter(orders[..n], w);
      DatedMeaning(orders[n], w);
      assert Completed(orders[..n], w) + [] == Completed(orders[..n], w);
    }
  }

  lemma {:induction false} SideIsFilter(orders: seq<View>, d: Direction)
    ensures OnSide(orders, d) == Filter(orders, MadeTo(d))
  {
    if orders != [] {
      SideIsFilter(orders[..|orders| - 1], d);
      assert OnSide(orders[..|orders| - 1], d) + [] == OnSide(orders[..|orders| - 1], d);
    }
  }

  predicate Anything(v: View) { true }

  lemma {:induction false} SizesArePicked(orders: seq<View>)
    ensures Sizes(orders) == Picked(orders, Anything, SatsOfOrder)
    ensures Sum(Sizes(orders)) == SumBy(orders, SatsOfOrder)
  {
    if orders != [] {
      var n := |orders| - 1;
      SizesArePicked(orders[..n]);
      SumByNext(orders, SatsOfOrder);
      assert (Sizes(orders[..n]) + [orders[n].amountSats])[..|Sizes(orders[..n])|] == Sizes(orders[..n]);
    }
  }

  lemma {:induction false} AmountsArePicked(orders: seq<View>)
    ensures Amounts(orders) == Picked(orders, NamesAmount, FiatOfOrder)
    ensures RealSum(Amounts(orders)) == RealSumBy(orders, RealWeigh(NamesAmount, FiatOfOrder))
  {
    if orders != [] {
      var n := |orders| - 1;
      var v, before := orders[n], Amounts(orders[..n]);
      AmountsArePicked(orders[..n]);
      RealSumByNext(orders, RealWeigh(NamesAmount, FiatOfOrder));
      if v.fiatAmount.Some? {
        assert (before + [v.fiatAmount.value])[..|before|] == before;
      } else {
        assert before + [] == before;
      }
    }
  }

  /** The sats of the orders that pass, and their sizes. */
  lemma FilteredSizes(orders: seq<View>, picks: Pick<View>)
    ensures Sum(Sizes(Filter(orders, picks))) == SumBy(orders, Weigh(picks, SatsOfOrder))
    ensures Sizes(Filter(orders, picks)) == Picked(orders, picks, SatsOfOrder)
    ensures |Filter(orders, picks)| == HowMany(orders, picks) == |Sizes(Filter(orders, picks))|
  {
    SizesArePicked(Filter(orders, picks));
    FilterCounts(orders, picks, Anything, SatsOfOrder);
    PickedFiltered(orders, picks, Anything, SatsOfOrder);
    PickedSame(orders, And(picks, Anything), picks, SatsOfOrder);
    PickedCounts(orders, picks, SatsOfOrder);
  }

  lemma MeanMeaning(sizes: seq<int>)
    ensures IsMean(MeanSats(sizes), Sum(sizes), |sizes|)
  {
    if sizes != [] {
      var n, s := |sizes|, Sum(sizes);
      var q, r := (2 * s + n) / (2 * n), (2 * s + n) % (2 * n);
      assert 2 * s + n == 2 * n * q + r;
      HalfUp(n, q);
      assert IsNearest(q, s, n);
    }
  }

  lemma LargestMeaning(orders: seq<View>, picks: Pick<View>)
    ensures IsLargest(Largest(Sizes(Filter(orders, picks))), orders, picks)
  {
    FilteredSizes(orders, picks);
    var sizes := Sizes(Filter(orders, picks));
    forall x ensures x in sizes <==> exists v :: v in orders && picks(v) && SatsOfOrder(v) == x {
      PickedHolds(orders, picks, SatsOfOrder, x);
    }
    forall v | v in orders && picks(v) ensures SatsOfOrder(v) in sizes { }
  }

  lemma SizeMeaning(orders: seq<View>, picks: Pick<View>, b: nat, sized: Pick<View>)
    requires forall v: View :: SizeBucket(v.amountSats) == b <==> sized(v)
    ensures InSlot(Filter(orders, picks), SizeSlot, b) == HowMany(orders, And(picks, sized))
  {
    var slot: Slot<View> := SizeSlot;
    SlotMeaning(Filter(orders, picks), slot, b);
    forall v: View ensures Falls(slot, b)(v) == sized(v) {
      assert slot(v) == Some(SizeBucket(v.amountSats));
    }
    HowManySame(Filter(orders, picks), Falls(slot, b), sized);
    FilterCounts(orders, picks, sized, SatsOfOrder);
  }

  lemma SizesMeaning(buckets: seq<nat>, orders: seq<View>, picks: Pick<View>)
    requires |buckets| == 5 && forall b | 0 <= b < 5 :: buckets[b] == InSlot(Filter(orders, picks), SizeSlot, b)
    ensures CountsSizes(buckets, orders, picks)
  {
    SizeMeaning(orders, picks, 0, SizedUnder(10_000));
    SizeMeaning(orders, picks, 1, SizedIn(10_000, 50_001));
    SizeMeaning(orders, picks, 2, SizedIn(50_001, 200_001));
    SizeMeaning(orders, picks, 3, SizedIn(200_001, 1_000_001));
    SizeMeaning(orders, picks, 4, SizedOver(1_000_000));
  }

  lemma AmountsOf(orders: seq<View>, picks: Pick<View>)
    ensures var group, named := Filter(orders, picks), And(picks, NamesAmount);
            && Amounts(group) == Picked(orders, named, FiatOfOrder)
            && RealSum(Amounts(group)) == RealSumBy(orders, RealWeigh(named, FiatOfOrder))
            && |Amounts(group)| == HowMany(orders, named)
  {
    AmountsArePicked(Filter(orders, picks));
    PickedFiltered(orders, picks, NamesAmount, FiatOfOrder);
    PickedCounts(orders, And(picks, NamesAmount), FiatOfOrder);
    RealSumFiltered(orders, picks);
  }

  lemma {:induction false} RealSumFiltered(orders: seq<View>, picks: Pick<View>)
    ensures RealSumBy(Filter(orders, picks), RealWeigh(NamesAmount, FiatOfOrder))
         == RealSumBy(orders, RealWeigh(And(picks, NamesAmount), FiatOfOrder))
  {
    if orders != [] {
      var n := |orders| - 1;
      RealSumFiltered(orders[..n], picks);
      RealSumByNext(orders, RealWeigh(And(picks, NamesAmount), FiatOfOrder));
      if picks(orders[n]) {
        var front := Filter(orders[..n], picks);
        RealSumByNext(front + [orders[n]], RealWeigh(NamesAmount, FiatOfOrder));
        assert (front + [orders[n]])[..|front|] == front;
      }
    }
  }

  lemma AverageMeaning(total: real, n: nat)
    requires n > 0
    ensures IsAverage(total / n as real, total, n)
  {
  }

  lemma FiatFiguresMeaning(orders: seq<View>, picks: Pick<View>)
    requires Amounts(Filter(orders, picks)) != []
    ensures AreFiatFigures(FiatOf(Filter(orders, picks)).figures.value, orders, And(picks, NamesAmount))
  {
    var named, amounts := And(picks, NamesAmount), Amounts(Filter(orders, picks));
    AmountsOf(orders, picks);
    QuantileMeaning(RealLeq, orders, named, FiatOfOrder, 0.5);
    QuantileMeaning(RealLeq, orders, named, FiatOfOrder, 0.9);
    AverageMeaning(RealSum(amounts), |amounts|);
    var f := FiatOf(Filter(orders, picks)).figures.value;
    assert IsAverage(f.ticketAvg, f.total, HowMany(orders, named));
    assert Ranks(RealLeq, Some(f.ticketP50), orders, named, FiatOfOrder, 0.5);
    assert Ranks(RealLeq, Some(f.ticketP90), orders, named, FiatOfOrder, 0.9);
  }

  lemma FiatMeaning(orders: seq<View>, picks: Pick<View>)
    ensures IsFiatVolume(FiatOf(Filter(orders, picks)), orders, picks)
  {
    FilteredSizes(orders, picks);
    AmountsOf(orders, picks);
    if Amounts(Filter(orders, picks)) != [] { FiatFiguresMeaning(orders, picks); }
  }

  lemma CurrencyMeaning(orders: seq<View>, picks: Pick<View>, code: string)
    ensures InCurrency(Filter(orders, picks), code) == Filter(orders, And(picks, PricedIn(code)))
    ensures code in AllKeys(Filter(orders, picks), FiatKey)
       <==> exists v :: v in orders && picks(v) && v.fiatCode == code
  {
    var keys: Keys<View> := FiatKey;
    var done := Filter(orders, picks);
    forall v: View ensures keys(v) == [v.fiatCode] && Keyed(keys, code)(v) == PricedIn(code)(v) {
      SameKey(v.fiatCode, code);
    }
    SingleGroup(done, keys, code);
    FilterSame(done, Keyed(keys, code), PricedIn(code));
    FilterTwice(orders, picks, PricedIn(code));
    KeysAreCodes(done, code);
    forall v ensures v in done <==> v in orders && picks(v) {
      FilterHolds(orders, picks, v);
    }
  }

  lemma {:induction false} KeysAreCodes(done: seq<View>, code: string)
    ensures code in AllKeys(done, FiatKey) <==> exists v :: v in done && v.fiatCode == code
  {
    if done != [] {
      var n := |done| - 1;
      KeysAreCodes(done[..n], code);
      assert done == done[..n] + [done[n]];
      var keys: Keys<View> := FiatKey;
      assert keys(done[n]) == [done[n].fiatCode];
      assert code in Named(keys(done[n])) <==> code == done[n].fiatCode;
    }
  }

  lemma CurrenciesMeaning(s: Summary, orders: seq<View>, done: Pick<View>)
    requires s.fiat.Keys == AllKeys(Filter(orders, done), FiatKey)
    requires forall code | code in s.fiat :: s.fiat[code] == FiatOf(InCurrency(Filter(orders, done), code))
    ensures forall code :: code in s.fiat <==> exists v :: v in orders && done(v) && v.fiatCode == code
    ensures forall code | code in s.fiat :: IsFiatVolume(s.fiat[code], orders, And(done, PricedIn(code)))
  {
    forall code ensures code in s.fiat <==> exists v :: v in orders && done(v) && v.fiatCode == code {
      CurrencyMeaning(orders, done, code);
    }
    forall code | code in s.fiat ensures IsFiatVolume(s.fiat[code], orders, And(done, PricedIn(code))) {
      CurrencyMeaning(orders, done, code);
      FiatMeaning(orders, And(done, PricedIn(code)));
    }
  }

  lemma OverallMeaning(s: Summary, orders: seq<View>, done: Pick<View>)
    requires Summarises(s, Filter(orders, done))
    ensures IsOverall(s, orders, done)
  {
    FilteredSizes(orders, done);
    MeanMeaning(Sizes(Filter(orders, done)));
    QuantileMeaning(IntLeq, orders, done, SatsOfOrder, 0.5);
    QuantileMeaning(IntLeq, orders, done, SatsOfOrder, 0.9);
    LargestMeaning(orders, done);
  }

  lemma FiguresMeaning(s: Summary, orders: seq<View>, w: Window)
    requires Summarises(s, Completed(orders, w))
    ensures Figures(s, orders, w)
  {
    var done := CompletedIn(w);
    CompletedIsFilter(orders, w);
    OverallMeaning(s, orders, done);
    SizesMeaning(s.buckets, orders, done);
    SideMeaning(orders, done, Buy);
    SideMeaning(orders, done, Sell);
    CurrenciesMeaning(s, orders, done);
  }

  lemma SideMeaning(orders: seq<View>, picks: Pick<View>, d: Direction)
    ensures Sum(Sizes(OnSide(Filter(orders, picks), d))) == SumBy(orders, Weigh(And(picks, MadeTo(d)), SatsOfOrder))
  {
    SideIsFilter(Filter(orders, picks), d);
    FilterTwice(orders, picks, MadeTo(d));
    FilteredSizes(orders, And(picks, MadeTo(d)));
  }

  method Summarise(orders: seq<View>, w: Window) returns (s: Summary)
    ensures Summarises(s, Completed(orders, w)) && Figures(s, orders, w)
  {
    var done := Completed(orders, w);
    var sizes := Sizes(done);
    var buckets := FillSlots(done, SizeSlot, 5);
    var groups := Slice(done, FiatKey);
    var fiat := map code | code in groups :: FiatOf(groups[code]);
    s := Summary(|done|, SumSats(sizes), MeanSats(sizes),
                 Percentile(IntLeq, sizes, 0.5), Percentile(IntLeq, sizes, 0.9), Largest(sizes), buckets[..],
                 SumSats(Sizes(OnSide(done, Buy))), SumSats(Sizes(OnSide(done, Sell))), fiat);
    forall code | code in fiat ensures fiat[code] == FiatOf(InCurrency(done, code)) {
      assert Filed(groups, code) == InGroup(done, FiatKey, code);
    }
    FiguresMeaning(s, orders, w);
  }

  /** The fiat figures are over the orders that name an amount: never more than were
      completed, and as many exactly when none is a range. */
  lemma {:induction false} FixedAreCompleted(group: seq<View>)
    ensures |Amounts(group)| <= |group|
    ensures |Amounts(group)| == |group| <==> forall i | 0 <= i < |group| :: group[i].fiatAmount.Some?
  {
    if group != [] { FixedAreCompleted(group[..|group| - 1]); }
  }

  // ---- The mean ----

  lemma {:induction false} SumWithin(xs: seq<int>, lo: int, hi: int)
    requires forall i | 0 <= i < |xs| :: lo <= xs[i] <= hi
    ensures lo * |xs| <= Sum(xs) <= hi * |xs|
  {
    if xs != [] {
      SumWithin(xs[..|xs| - 1], lo, hi);
      OneMoreTime(lo, |xs|);
      OneMoreTime(hi, |xs|);
    }
  }

  /** The mean is the one whole number within half a sat of the exact one, above by at
      most a half and below by less. */
  lemma MeanIsNearest(sizes: seq<int>, m: int)
    requires sizes != [] && FitsI64((2 * Sum(sizes) + |sizes|) / (2 * |sizes|))
    ensures MeanSats(sizes) == Some(m) <==> (2 * m - 1) * |sizes| <= 2 * Sum(sizes) < (2 * m + 1) * |sizes|
  {
    var n, s := |sizes|, Sum(sizes);
    var q, r := (2 * s + n) / (2 * n), (2 * s + n) % (2 * n);
    assert 2 * s + n == 2 * n * q + r;
    HalfUp(n, m);
    HalfUp(n, q);
    if m < q { Apart(n, m, q); } else if q < m { Apart(n, q, m); }
  }

  lemma HalfUp(n: int, m: int)
    ensures (2 * m - 1) * n == 2 * n * m - n && (2 * m + 1) * n == 2 * n * m + n
  {
  }

  lemma Apart(n: int, a: int, b: int)
    requires n > 0 && a < b
    ensures 2 * n * a + 2 * n <= 2 * n * b
  {
    var d := b - a - 1;
    Distribute(2 * n, a, 1);
    Distribute(2 * n, a + 1, d);
    NotNegative(2 * n, d);
  }

  lemma NotNegative(n: int, d: int)
    requires n >= 0 && d >= 0
    ensures n * d >= 0
  {
  }

  /** It lies between the smallest and the largest, so it never leaves an i64. */
  lemma MeanIsBetween(sizes: seq<int>, lo: int, hi: int)
    requires sizes != [] && I64_MIN <= lo <= hi <= I64_MAX && forall i | 0 <= i < |sizes| :: lo <= sizes[i] <= hi
    ensures MeanSats(sizes).Some? && lo <= MeanSats(sizes).value <= hi
  {
    SumWithin(sizes, lo, hi);
    Between(|sizes|, Sum(sizes), lo, hi);
  }

  lemma Between(n: int, s: int, lo: int, hi: int)
    requires n > 0 && lo * n <= s <= hi * n
    ensures lo <= (2 * s + n) / (2 * n) <= hi
  {
    var q, r := (2 * s + n) / (2 * n), (2 * s + n) % (2 * n);
    assert 2 * s + n == 2 * n * q + r;
    HalfUp(n, lo);
    HalfUp(n, hi);
    if q < lo { Apart(n, q, lo); } else if hi < q { Apart(n, hi, q); }
  }

  // ---- Conservation ----

  function Amount(v: View): int { v.amountSats }

  /** Whether what makers bought and what they sold is all there is. */
  predicate SidesBalance(done: seq<View>) {
    Sum(Sizes(done)) == Sum(Sizes(OnSide(done, Buy))) + Sum(Sizes(OnSide(done, Sell)))
  }

  lemma {:induction false} SidesWeigh(done: seq<View>)
    ensures SumBy(done, SatsOfOrder)
         == SumBy(done, Weigh(MadeTo(Buy), SatsOfOrder)) + SumBy(done, Weigh(MadeTo(Sell), SatsOfOrder))
  {
    if done != [] { SidesWeigh(done[1..]); }
  }

  lemma SidesAddUp(done: seq<View>)
    ensures SidesBalance(done)
  {
    SizesArePicked(done);
    SidesWeigh(done);
    SideIsFilter(done, Buy);
    SideIsFilter(done, Sell);
    FilteredSizes(done, MadeTo(Buy));
    FilteredSizes(done, MadeTo(Sell));
  }

  lemma SizesNext(orders: seq<View>, v: View)
    ensures Sum(Sizes(orders + [v])) == Sum(Sizes(orders)) + v.amountSats
  {
    assert (orders + [v])[..|orders|] == orders;
    assert (Sizes(orders) + [v.amountSats])[..|Sizes(orders)|] == Sizes(orders);
  }

  lemma {:induction false} SumIsTotal(items: seq<View>, w: Window)
    requires forall i | 0 <= i < |items| :: CompletedOn(items[i]).Some? && w.Contains(CompletedOn(items[i]).value)
    ensures Sum(Sizes(items)) == Total(items, CompletedOn, Amount, w) && |items| == Total(items, CompletedOn, Each, w)
  {
    if items != [] {
      var n := |items| - 1;
      SumIsTotal(items[..n], w);
      SizesNext(items[..n], items[n]);
      assert items == items[..n] + [items[n]];
    }
  }

  lemma {:induction false} CompletedAreDone(orders: seq<View>, w: Window)
    ensures forall i | 0 <= i < |Completed(orders, w)| :: IsDone(Completed(orders, w)[i], w)
  {
    if orders != [] { CompletedAreDone(orders[..|orders| - 1], w); }
  }

  predicate IsDone(v: View, w: Window) { CompletedOn(v).Some? && w.Contains(CompletedOn(v).value) }

  lemma {:induction false} CopiesAre(v: View, n: nat)
    ensures forall i | 0 <= i < |Copies(v, n)| :: Copies(v, n)[i] == v
  {
    if n > 0 { CopiesAre(v, n - 1); }
  }

  /** Orders completed in the window, of no negative amount. */
  predicate AllDone(done: seq<View>, w: Window) {
    forall i | 0 <= i < |done| :: IsDone(done[i], w) && done[i].amountSats >= 0
  }

  lemma {:induction false} GroupsAreDone(done: seq<View>, code: string, w: Window)
    requires AllDone(done, w)
    ensures AllDone(InCurrency(done, code), w)
  {
    if done != [] {
      var n := |done| - 1;
      var copies := Copies(done[n], Occurrences(FiatKey(done[n]), code));
      GroupsAreDone(done[..n], code, w);
      CopiesAre(done[n], Occurrences(FiatKey(done[n]), code));
      assert InCurrency(done, code) == InCurrency(done[..n], code) + copies;
    }
  }

  lemma {:induction false} NotNegativeSum(orders: seq<View>)
    requires forall v | v in orders :: v.amountSats >= 0
    ensures Sum(Sizes(orders)) >= 0
  {
    if orders != [] {
      var n := |orders| - 1;
      NotNegativeSum(orders[..n]);
      assert orders == orders[..n] + [orders[n]];
      SizesNext(orders[..n], orders[n]);
    }
  }

  lemma SideNotNegative(orders: seq<View>, d: Direction)
    requires forall v | v in orders :: v.amountSats >= 0
    ensures Sum(Sizes(OnSide(orders, d))) >= 0
  {
    SideIsFilter(orders, d);
    forall v | v in OnSide(orders, d) ensures v in orders {
      FilterHolds(orders, MadeTo(d), v);
    }
    NotNegativeSum(OnSide(orders, d));
  }

  lemma {:induction false} PartOfTheWhole(keys: set<string>, f: Figure, k: string)
    requires k in keys && forall j | j in keys :: f(j) >= 0
    ensures 0 <= f(k) <= SumOver(keys, f)
    decreases |keys|
  {
    SumOverTake(keys, f, k);
    if keys - {k} != {} {
      var j :| j in keys - {k};
      PartOfTheWhole(keys - {k}, f, j);
    }
  }

  function SatsOf(s: Summary): Figure {
    (code: string) => if code in s.fiat && s.fiat[code].sats.Some? then s.fiat[code].sats.value else 0
  }

  function CompletedOf(s: Summary): Figure { (code: string) => if code in s.fiat then s.fiat[code].completed else 0 }

  lemma SameFigure(keys: set<string>, f: Figure, g: Figure)
    requires forall k | k in keys :: f(k) == g(k)
    ensures SumOver(keys, f) == SumOver(keys, g)
  {
    SumOverCombines(keys, f, g, g, 0);
  }

  lemma CurrencyIsGroup(done: seq<View>, code: string, w: Window)
    requires AllDone(done, w)
    ensures var group := InCurrency(done, code);
            && Sum(Sizes(group)) == GroupTotal(done, FiatKey, CompletedOn, Amount, w)(code) >= 0
            && |group| == GroupTotal(done, FiatKey, CompletedOn, Each, w)(code)
  {
    GroupsAreDone(done, code, w);
    SumIsTotal(InCurrency(done, code), w);
    NotNegativeSum(InCurrency(done, code));
  }

  lemma CurrencyFits(done: seq<View>, code: string, w: Window)
    requires AllDone(done, w) && FitsI64(Sum(Sizes(done))) && code in AllKeys(done, FiatKey)
    ensures FitsI64(Sum(Sizes(InCurrency(done, code))))
  {
    var sats := GroupTotal(done, FiatKey, CompletedOn, Amount, w);
    CurrenciesAddUp(done, w);
    forall j | j in AllKeys(done, FiatKey) ensures sats(j) >= 0 { CurrencyIsGroup(done, j, w); }
    CurrencyIsGroup(done, code, w);
    PartOfTheWhole(AllKeys(done, FiatKey), sats, code);
  }

  lemma CurrenciesAddUp(done: seq<View>, w: Window)
    requires forall i | 0 <= i < |done| :: IsDone(done[i], w)
    ensures var codes := AllKeys(done, FiatKey);
            && SumOver(codes, GroupTotal(done, FiatKey, CompletedOn, Amount, w)) == Sum(Sizes(done))
            && SumOver(codes, GroupTotal(done, FiatKey, CompletedOn, Each, w)) == |done|
  {
    GroupsAddUp(done, FiatKey, CompletedOn, Amount, w);
    GroupsAddUp(done, FiatKey, CompletedOn, Each, w);
    SingleKeyWeighs(done, FiatKey, CompletedOn, Amount, w);
    SingleKeyWeighs(done, FiatKey, CompletedOn, Each, w);
    SumIsTotal(done, w);
  }

  lemma {:induction false} AllSlotted(done: seq<View>)
    ensures Slotted(done, SizeSlot) == |done|
  {
    if done != [] { AllSlotted(done[..|done| - 1]); }
  }

  /** Main result: when the sats of a window fit, so do those of each side and of each
      currency, and the sides, the currencies and the size buckets each divide the
      window exactly. */
  lemma VolumeConserves(s: Summary, orders: seq<View>, w: Window)
    requires Summarises(s, Completed(orders, w)) && s.sats.Some?
    requires forall i | 0 <= i < |Completed(orders, w)| :: Completed(orders, w)[i].amountSats >= 0
    ensures s.buySats.Some? && s.sellSats.Some? && s.buySats.value + s.sellSats.value == s.sats.value
    ensures forall code | code in s.fiat :: s.fiat[code].sats.Some?
    ensures SumOver(s.fiat.Keys, SatsOf(s)) == s.sats.value
    ensures SumOver(s.fiat.Keys, CompletedOf(s)) == s.completed
    ensures SumOfSlots(Completed(orders, w), SizeSlot, 5) == s.completed
  {
    var done := Completed(orders, w);
    CompletedAreDone(orders, w);
    SidesAddUp(done);
    SideNotNegative(done, Buy);
    SideNotNegative(done, Sell);
    CurrenciesConserve(s, done, w);
    SlotsAddUp(done, SizeSlot, 5);
    AllSlotted(done);
  }

  lemma CurrenciesConserve(s: Summary, done: seq<View>, w: Window)
    requires AllDone(done, w) && FitsI64(Sum(Sizes(done))) && s.fiat.Keys == AllKeys(done, FiatKey)
    requires forall code | code in s.fiat :: s.fiat[code] == FiatOf(InCurrency(done, code))
    ensures forall code | code in s.fiat :: s.fiat[code].sats.Some?
    ensures SumOver(s.fiat.Keys, SatsOf(s)) == Sum(Sizes(done)) && SumOver(s.fiat.Keys, CompletedOf(s)) == |done|
  {
    var codes := s.fiat.Keys;
    var sats := GroupTotal(done, FiatKey, CompletedOn, Amount, w);
    var orders := GroupTotal(done, FiatKey, CompletedOn, Each, w);
    CurrenciesAddUp(done, w);
    forall code | code in codes ensures SatsOf(s)(code) == sats(code) && s.fiat[code].sats.Some? {
      CurrencyIsGroup(done, code, w);
      CurrencyFits(done, code, w);
    }
    forall code | code in codes ensures CompletedOf(s)(code) == orders(code) {
      CurrencyIsGroup(done, code, w);
    }
    SameFigure(codes, SatsOf(s), sats);
    SameFigure(codes, CompletedOf(s), orders);
  }
}
