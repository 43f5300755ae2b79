/** How long each stage of an order takes, how old the book is, and what becomes of the
    orders that enter it. */
module Timing {
  import opened Prelude
  import opened Ranking
  import opened Tiling
  import opened Counting
  import opened Quantiles
  import opened Percentiles
  import opened Views
  import opened Schema

  /** How an order's observed history ended: at the earlier of its first success and
      its first cancellation. */
  datatype Terminal = Unfinished | Succeeded(at: nat) | CanceledAt(at: nat)

  function TerminalOf(v: View): Terminal {
    match (v.successAt, v.canceledAt)
    case (Some(success), Some(canceled)) => if canceled < success then CanceledAt(canceled) else Succeeded(success)
    case (Some(success), None) => Succeeded(success)
    case (None, Some(canceled)) => CanceledAt(canceled)
    case (None, None) => Unfinished
  }

  type Reading<!X> = View -> Option<X>

  function PendingAt(v: View): Option<nat> { v.pendingAt }

  function TakenAt(v: View): Option<nat> { v.takenAt }

  function SuccessAt(v: View): Option<nat> {
    match TerminalOf(v) case Succeeded(at) => Some(at) case _ => None
  }

  function CancelAt(v: View): Option<nat> {
    match TerminalOf(v) case CanceledAt(at) => Some(at) case _ => None
  }

  /** A gap that ends in the window; one that is not positive is no duration. */
  function GapIn(w: Window, from: Reading<nat>, to: Reading<nat>): Reading<int> {
    (v: View) =>
      if from(v).Some? && to(v).Some? && w.Contains(to(v).value) && to(v).value - from(v).value > 0
      then Some(to(v).value - from(v).value) else None
  }

  /** How long an order has been on the book, if it is. */
  function BookAge(now: int): Reading<int> {
    (v: View) =>
      if v.takenAt.None? && TerminalOf(v).Unfinished? && v.expiresAt > now
         && v.pendingAt.Some? && v.pendingAt.value <= now
      then Some(now - v.pendingAt.value) else None
  }

  /** What each order that answers contributes. */
  function Collect<X>(orders: seq<View>, reading: Reading<X>): seq<X> {
    if orders == [] then []
    else
      var x := reading(orders[|orders| - 1]);
      Collect(orders[..|orders| - 1], reading) + if x.Some? then [x.value] else []
  }

  type Test = View -> bool

  function Count(orders: seq<View>, test: Test): nat {
    if orders == [] then 0 else Count(orders[..|orders| - 1], test) + if test(orders[|orders| - 1]) then 1 else 0
  }

  // ---- The funnel ----

  datatype Funnel = Funnel(
    created: nat, taken: nat, completed: nat, canceledTaken: nat, canceledUntaken: nat, expiredUntaken: nat, open: nat)

  const NOBODY_YET := Funnel(0, 0, 0, 0, 0, 0, 0)

  /** Whether the order's book entry was seen in the window. */
  predicate Enters(v: View, w: Window) { v.pendingAt.Some? && w.Contains(v.pendingAt.value) }

  predicate WasTaken(v: View) { v.takenAt.Some? || TerminalOf(v).Succeeded? }

  predicate Lapsed(v: View, now: int) { TerminalOf(v).Unfinished? && !WasTaken(v) && v.expiresAt <= now }

  function Created(w: Window): Test { (v: View) => Enters(v, w) }

  function Taken(w: Window): Test { (v: View) => Enters(v, w) && WasTaken(v) }

  function Completed(w: Window): Test { (v: View) => Enters(v, w) && TerminalOf(v).Succeeded? }

  function CanceledTaken(w: Window): Test {
    (v: View) => Enters(v, w) && TerminalOf(v).CanceledAt? && v.takenAt.Some?
  }

  function CanceledUntaken(w: Window): Test {
    (v: View) => Enters(v, w) && TerminalOf(v).CanceledAt? && v.takenAt.None?
  }

  function ExpiredUntaken(w: Window, now: int): Test { (v: View) => Enters(v, w) && Lapsed(v, now) }

  function Open(w: Window, now: int): Test {
    (v: View) => Enters(v, w) && TerminalOf(v).Unfinished? && !Lapsed(v, now)
  }

  function FunnelOf(orders: seq<View>, w: Window, now: int): Funnel {
    Funnel(Count(orders, Created(w)), Count(orders, Taken(w)), Count(orders, Completed(w)),
           Count(orders, CanceledTaken(w)), Count(orders, CanceledUntaken(w)),
           Count(orders, ExpiredUntaken(w, now)), Count(orders, Open(w, now)))
  }

  /** The funnel with one more order in it. */
  function Fill(f: Funnel, v: View, now: int): Funnel {
    var g := f.(created := f.created + 1, taken := if WasTaken(v) then f.taken + 1 else f.taken);
    match TerminalOf(v)
    case Succeeded(_) => g.(completed := g.completed + 1)
    case CanceledAt(_) =>
      if v.takenAt.Some? then g.(canceledTaken := g.canceledTaken + 1)
      else g.(canceledUntaken := g.canceledUntaken + 1)
    case Unfinished =>
      if Lapsed(v, now) then g.(expiredUntaken := g.expiredUntaken + 1) else g.(open := g.open + 1)
  }

  lemma CountNext(orders: seq<View>, v: View, test: Test)
    ensures Count(orders + [v], test) == Count(orders, test) + if test(v) then 1 else 0
  {
    assert (orders + [v])[..|orders|] == orders;
  }

  lemma FunnelNext(orders: seq<View>, v: View, w: Window, now: int)
    ensures FunnelOf(orders + [v], w, now)
         == if Enters(v, w) then Fill(FunnelOf(orders, w, now), v, now) else FunnelOf(orders, w, now)
  {
    CountNext(orders, v, Created(w));
    CountNext(orders, v, Taken(w));
    CountNext(orders, v, Completed(w));
    CountNext(orders, v, CanceledTaken(w));
    CountNext(orders, v, CanceledUntaken(w));
    CountNext(orders, v, ExpiredUntaken(w, now));
    CountNext(orders, v, Open(w, now));
  }

  /** Tallies the cohort of the window, one order after the other. */
  method CountFunnel(orders: seq<View>, w: Window, now: int) returns (funnel: Funnel)
    ensures funnel == FunnelOf(orders, w, now)
  {
    funnel := NOBODY_YET;
    for i := 0 to |orders|
      invariant funnel == FunnelOf(orders[..i], w, now)
    {
      FunnelNext(orders[..i], orders[i], w, now);
      assert orders[..i] + [orders[i]] == orders[..i + 1];
      if Enters(orders[i], w) {
        funnel := Fill(funnel, orders[i], now);
      }
    }
    assert orders[..|orders|] == orders;
  }

  /** Everybody who entered the book is in exactly one of its five ends, and nobody
      completes without having been taken. */
  lemma {:induction false} FunnelAddsUp(orders: seq<View>, w: Window, now: int)
    ensures var f := FunnelOf(orders, w, now);
            && f.created == f.completed + f.canceledTaken + f.canceledUntaken + f.expiredUntaken + f.open
            && f.completed + f.canceledTaken <= f.taken <= f.created - f.canceledUntaken - f.expiredUntaken
  {
    if orders != [] {
      var n := |orders| - 1;
      FunnelAddsUp(orders[..n], w, now);
      assert orders == orders[..n] + [orders[n]];
      FunnelNext(orders[..n], orders[n], w, now);
    }
  }

  // ---- The report ----

  /** The samples of one duration, and two percentiles of them. */
  datatype Duration = Duration(samples: nat, p50: Option<int>, p90: Option<int>)

  datatype Report = Report(
    timeToFill: Duration, timeToComplete: Duration, fullCycle: Duration, timeToCancel: Duration,
    bookSize: nat, bookAgeAvg: Option<int>, funnel: Funnel, unknownOrigin: nat, regressed: nat)

  function DurationOf(gaps: seq<int>): Duration {
    Duration(|gaps|, Percentile(IntLeq, gaps, 0.5), Percentile(IntLeq, gaps, 0.9))
  }

  function Sum(xs: seq<int>): int {
    if xs == [] then 0 else Sum(xs[..|xs| - 1]) + xs[|xs| - 1]
  }

  function Mean(ages: seq<int>): Option<int> {
    if ages == [] then None else Some(Sum(ages) / |ages|)
  }

  function UnknownOrigin(w: Window): Test { (v: View) => v.pendingAt.None? && w.Contains(v.createdAt) }

  function Regressed(): Test { (v: View) => v.successAt.Some? && v.canceledAt.Some? }

  /** Everything but the two counts of odd histories. */
  function Measured(orders: seq<View>, w: Window, now: int): Report {
    var ages := Collect(orders, BookAge(now));
    Report(DurationOf(Collect(orders, GapIn(w, PendingAt, TakenAt))),
           DurationOf(Collect(orders, GapIn(w, TakenAt, SuccessAt))),
           DurationOf(Collect(orders, GapIn(w, PendingAt, SuccessAt))),
           DurationOf(Collect(orders, GapIn(w, PendingAt, CancelAt))),
           |ages|, Mean(ages), FunnelOf(orders, w, now), 0, 0)
  }

  function ReportOf(orders: seq<View>, w: Window, now: int): Report {
    Measured(orders, w, now).(unknownOrigin := Count(orders, UnknownOrigin(w)), regressed := Count(orders, Regressed()))
  }

  method Summarise(orders: seq<View>, w: Window, now: int) returns (report: Report)
    ensures report == ReportOf(orders, w, now) && Reports(report, orders, w, now)
  {
    ReportMeaning(orders, w, now);
    var ages := Collect(orders, BookAge(now));
    var funnel := CountFunnel(orders, w, now);
    report := Report(DurationOf(Collect(orders, GapIn(w, PendingAt, TakenAt))),
                     DurationOf(Collect(orders, GapIn(w, TakenAt, SuccessAt))),
                     DurationOf(Collect(orders, GapIn(w, PendingAt, SuccessAt))),
                     DurationOf(Collect(orders, GapIn(w, PendingAt, CancelAt))),
                     |ages|, Mean(ages), funnel, Count(orders, UnknownOrigin(w)), Count(orders, Regressed()));
  }

  // ---- What each figure is ----

  /** Whether a duration is sampled by exactly the orders picked, and its percentiles are of
      what they took. */
  ghost predicate Measures(d: Duration, orders: seq<View>, picks: Pick<View>, took: Amount<View, int>) {
    && d.samples == HowMany(orders, picks)
    && Ranks(IntLeq, d.p50, orders, picks, took, 0.5) && Ranks(IntLeq, d.p90, orders, picks, took, 0.9)
  }

  /** Whether an order's history ended in success: no cancellation came before it. */
  predicate EndsWell(v: View) {
    v.successAt.Some? && (v.canceledAt.Some? ==> v.successAt.value <= v.canceledAt.value)
  }

  /** Whether it was canceled before any success. */
  predicate EndsBadly(v: View) {
    v.canceledAt.Some? && (v.successAt.Some? ==> v.canceledAt.value < v.successAt.value)
  }

  function FillsIn(w: Window): Test {
    (v: View) =>
      v.pendingAt.Some? && v.takenAt.Some? && w.from <= v.takenAt.value < w.until && v.pendingAt.value < v.takenAt.value
  }

  function CompletesIn(w: Window): Test {
    (v: View) =>
      v.takenAt.Some? && EndsWell(v) && w.from <= v.successAt.value < w.until && v.takenAt.value < v.successAt.value
  }

  function CyclesIn(w: Window): Test {
    (v: View) =>
      v.pendingAt.Some? && EndsWell(v) && w.from <= v.successAt.value < w.until && v.pendingAt.value < v.successAt.value
  }

  function CancelsIn(w: Window): Test {
    (v: View) =>
      v.pendingAt.Some? && EndsBadly(v) && w.from <= v.canceledAt.value < w.until
      && v.pendingAt.value < v.canceledAt.value
  }

  function From(start: Option<int>, end: Option<int>): int {
    if start.Some? && end.Some? then end.value - start.value else 0
  }

  /** On the book now: seen from its entry, no later than now, neither taken nor ended, and
      not expired. */
  function OnBook(now: int): Test {
    (v: View) =>
      && v.pendingAt.Some? && v.pendingAt.value <= now && now < v.expiresAt
      && v.takenAt.None? && v.successAt.None? && v.canceledAt.None?
  }

  function EntersIn(w: Window): Test { (v: View) => v.pendingAt.Some? && w.from <= v.pendingAt.value < w.until }

  /** Nobody completes an order that nobody took. */
  predicate IsTaken(v: View) { v.takenAt.Some? || EndsWell(v) }

  predicate IsDroppedTaken(v: View) { EndsBadly(v) && v.takenAt.Some? }

  predicate IsDroppedUntaken(v: View) { EndsBadly(v) && v.takenAt.None? }

  predicate IsUnended(v: View) { v.successAt.None? && v.canceledAt.None? }

  function LapsesBy(now: int): Test { (v: View) => IsUnended(v) && v.takenAt.None? && v.expiresAt <= now }

  function LivesAt(now: int): Test { (v: View) => IsUnended(v) && (v.takenAt.Some? || now < v.expiresAt) }

  /** Whether a funnel counts the orders that entered the book in the window, each by what
      became of it. */
  ghost predicate IsFunnel(f: Funnel, orders: seq<View>, w: Window, now: int) {
    var enters := EntersIn(w);
    && f.created == HowMany(orders, enters)
    && f.taken == HowMany(orders, And(enters, IsTaken))
    && f.completed == HowMany(orders, And(enters, EndsWell))
    && f.canceledTaken == HowMany(orders, And(enters, IsDroppedTaken))
    && f.canceledUntaken == HowMany(orders, And(enters, IsDroppedUntaken))
    && f.expiredUntaken == HowMany(orders, And(enters, LapsesBy(now)))
    && f.open == HowMany(orders, And(enters, LivesAt(now)))
  }

  /** How long an order has been seen on the book. */
  function Age(now: int): Amount<View, int> { (v: View) => From(v.pendingAt, Some(now)) }

  /** Whether the book holds exactly the orders on it, and their mean age, rounded down. */
  ghost predicate IsBook(size: nat, ageAvg: Option<int>, orders: seq<View>, now: int) {
    var age := Weigh(OnBook(now), Age(now));
    && size == HowMany(orders, OnBook(now)) && (ageAvg.None? <==> size == 0)
    && (ageAvg.Some? ==> ageAvg.value * size <= SumBy(orders, age) < (ageAvg.value + 1) * size)
  }

  /** Whether a reading is what the picked orders took, and nothing of any other. */
  ghost predicate IsReading(reading: Reading<int>, picks: Pick<View>, took: Amount<View, int>) {
    forall v :: reading(v) == if picks(v) then Some(took(v)) else None
  }

  lemma {:induction false} CollectIsPicked(orders: seq<View>, reading: Reading<int>, picks: Pick<View>,
                                           took: Amount<View, int>)
    requires IsReading(reading, picks, took)
    ensures Collect(orders, reading) == Picked(orders, picks, took)
  {
    if orders != [] { CollectIsPicked(orders[..|orders| - 1], reading, picks, took); }
  }

  lemma SumNext(xs: seq<int>, x: int)
    ensures Sum(xs + [x]) == Sum(xs) + x
  {
    assert (xs + [x])[..|xs|] == xs;
  }

  lemma {:induction false} PickedSum(orders: seq<View>, picks: Pick<View>, took: Amount<View, int>)
    ensures Sum(Picked(orders, picks, took)) == SumBy(orders, Weigh(picks, took))
  {
    if orders != [] {
      var n := |orders| - 1;
      PickedSum(orders[..n], picks, took);
      SumByNext(orders, Weigh(picks, took));
      SumNext(Picked(orders[..n], picks, took), took(orders[n]));
    }
  }

  lemma DurationMeaning(orders: seq<View>, reading: Reading<int>, picks: Pick<View>, took: Amount<View, int>)
    requires IsReading(reading, picks, took)
    ensures Measures(DurationOf(Collect(orders, reading)), orders, picks, took)
  {
    CollectIsPicked(orders, reading, picks, took);
    PickedCounts(orders, picks, took);
    QuantileMeaning(IntLeq, orders, picks, took, 0.5);
    QuantileMeaning(IntLeq, orders, picks, took, 0.9);
  }

  lemma BookMeaning(orders: seq<View>, now: int)
    ensures var ages := Collect(orders, BookAge(now)); IsBook(|ages|, Mean(ages), orders, now)
  {
    CollectIsPicked(orders, BookAge(now), OnBook(now), Age(now));
    PickedCounts(orders, OnBook(now), Age(now));
    PickedSum(orders, OnBook(now), Age(now));
    var ages := Collect(orders, BookAge(now));
    if ages != [] { MeanMeaning(Sum(ages), |ages|); }
  }

  lemma MeanMeaning(sum: int, n: nat)
    requires n > 0
    ensures (sum / n) * n <= sum < (sum / n + 1) * n
  {
  }

  lemma {:induction false} CountMeaning(orders: seq<View>, test: Test, same: Test)
    requires forall v :: test(v) == same(v)
    ensures Count(orders, test) == HowMany(orders, same)
  {
    if orders != [] {
      CountMeaning(orders[..|orders| - 1], test, same);
      HowManyNext(orders, same);
    }
  }

  lemma EndMeaning(v: View)
    ensures TerminalOf(v).Succeeded? <==> EndsWell(v)
    ensures TerminalOf(v).CanceledAt? <==> EndsBadly(v)
    ensures TerminalOf(v).Unfinished? <==> IsUnended(v)
  {
  }

  lemma FunnelMeaning(orders: seq<View>, w: Window, now: int)
    ensures IsFunnel(FunnelOf(orders, w, now), orders, w, now)
  {
    var enters := EntersIn(w);
    forall v: View
      ensures TerminalOf(v).Succeeded? <==> EndsWell(v)
      ensures TerminalOf(v).CanceledAt? <==> EndsBadly(v)
      ensures TerminalOf(v).Unfinished? <==> IsUnended(v)
    {
      EndMeaning(v);
    }
    CountMeaning(orders, Created(w), enters);
    CountMeaning(orders, Taken(w), And(enters, IsTaken));
    CountMeaning(orders, Completed(w), And(enters, EndsWell));
    CountMeaning(orders, CanceledTaken(w), And(enters, IsDroppedTaken));
    CountMeaning(orders, CanceledUntaken(w), And(enters, IsDroppedUntaken));
    CountMeaning(orders, ExpiredUntaken(w, now), And(enters, LapsesBy(now)));
    CountMeaning(orders, Open(w, now), And(enters, LivesAt(now)));
  }

  function FillTime(v: View): int { From(v.pendingAt, v.takenAt) }

  function CompletionTime(v: View): int { From(v.takenAt, v.successAt) }

  function CycleTime(v: View): int { From(v.pendingAt, v.successAt) }

  function CancelTime(v: View): int { From(v.pendingAt, v.canceledAt) }

  /** Whether each of the four durations is of the orders whose stage ends in the window,
      after it began. */
  ghost predicate AreDurations(report: Report, orders: seq<View>, w: Window) {
    && Measures(report.timeToFill, orders, FillsIn(w), FillTime)
    && Measures(report.timeToComplete, orders, CompletesIn(w), CompletionTime)
    && Measures(report.fullCycle, orders, CyclesIn(w), CycleTime)
    && Measures(report.timeToCancel, orders, CancelsIn(w), CancelTime)
  }

  lemma FillReading(w: Window)
    ensures IsReading(GapIn(w, PendingAt, TakenAt), FillsIn(w), FillTime)
  {
    var from: Reading<nat>, to: Reading<nat> := PendingAt, TakenAt;
    forall v: View ensures GapIn(w, from, to)(v) == if FillsIn(w)(v) then Some(FillTime(v)) else None {
      assert from(v) == v.pendingAt && to(v) == v.takenAt;
    }
  }

  lemma CompletionReading(w: Window)
    ensures IsReading(GapIn(w, TakenAt, SuccessAt), CompletesIn(w), CompletionTime)
  {
    var from: Reading<nat>, to: Reading<nat> := TakenAt, SuccessAt;
    forall v: View ensures GapIn(w, from, to)(v) == if CompletesIn(w)(v) then Some(CompletionTime(v)) else None {
      assert from(v) == v.takenAt && to(v) == (if EndsWell(v) then v.successAt else None);
    }
  }

  lemma CycleReading(w: Window)
    ensures IsReading(GapIn(w, PendingAt, SuccessAt), CyclesIn(w), CycleTime)
  {
    var from: Reading<nat>, to: Reading<nat> := PendingAt, SuccessAt;
    forall v: View ensures GapIn(w, from, to)(v) == if CyclesIn(w)(v) then Some(CycleTime(v)) else None {
      assert from(v) == v.pendingAt && to(v) == (if EndsWell(v) then v.successAt else None);
    }
  }

  lemma CancelReading(w: Window)
    ensures IsReading(GapIn(w, PendingAt, CancelAt), CancelsIn(w), CancelTime)
  {
    var from: Reading<nat>, to: Reading<nat> := PendingAt, CancelAt;
    forall v: View ensures GapIn(w, from, to)(v) == if CancelsIn(w)(v) then Some(CancelTime(v)) else None {
      assert from(v) == v.pendingAt && to(v) == (if EndsBadly(v) then v.canceledAt else None);
    }
  }

  lemma DurationsMeaning(orders: seq<View>, w: Window, now: int)
    ensures AreDurations(ReportOf(orders, w, now), orders, w)
  {
    FillReading(w);
    CompletionReading(w);
    CycleReading(w);
    CancelReading(w);
    DurationMeaning(orders, GapIn(w, PendingAt, TakenAt), FillsIn(w), FillTime);
    DurationMeaning(orders, GapIn(w, TakenAt, SuccessAt), CompletesIn(w), CompletionTime);
    DurationMeaning(orders, GapIn(w, PendingAt, SuccessAt), CyclesIn(w), CycleTime);
    DurationMeaning(orders, GapIn(w, PendingAt, CancelAt), CancelsIn(w), CancelTime);
  }

  function EntersUnseen(w: Window): Pick<View> {
    (v: View) => v.pendingAt.None? && w.from <= v.createdAt < w.until
  }

  predicate EndsTwice(v: View) { v.successAt.Some? && v.canceledAt.Some? }

  /** Main result: every figure of the report, said of the orders' own dates. */
  ghost predicate Reports(report: Report, orders: seq<View>, w: Window, now: int) {
    && AreDurations(report, orders, w)
    && IsBook(report.bookSize, report.bookAgeAvg, orders, now)
    && IsFunnel(report.funnel, orders, w, now)
    && report.unknownOrigin == HowMany(orders, EntersUnseen(w)) && report.regressed == HowMany(orders, EndsTwice)
  }

  lemma ReportMeaning(orders: seq<View>, w: Window, now: int)
    ensures Reports(ReportOf(orders, w, now), orders, w, now)
  {
    DurationsMeaning(orders, w, now);
    BookMeaning(orders, now);
    FunnelMeaning(orders, w, now);
    CountMeaning(orders, UnknownOrigin(w), EntersUnseen(w));
    CountMeaning(orders, Regressed(), EndsTwice);
  }

  lemma {:induction false} GapsArePositive(orders: seq<View>, w: Window, from: Reading<nat>, to: Reading<nat>)
    ensures forall gap | gap in Collect(orders, GapIn(w, from, to)) :: gap > 0
  {
    if orders != [] { GapsArePositive(orders[..|orders| - 1], w, from, to); }
  }

  /** A duration has percentiles exactly when it has samples; they are positive, and the
      ninetieth is no shorter than the median. */
  predicate IsDuration(d: Duration) {
    && (d.samples == 0 <==> d.p50.None?) && (d.p50.None? <==> d.p90.None?)
    && (d.p50.Some? ==> 0 < d.p50.value <= d.p90.value)
  }

  lemma DurationIs(gaps: seq<int>)
    requires forall gap | gap in gaps :: gap > 0
    ensures IsDuration(DurationOf(gaps))
  {
    if gaps != [] {
      NearestRank(IntLeq, gaps, 0.5);
      MonotoneInP(IntLeq, gaps, 0.5, 0.9);
    }
  }

  /** So is every duration of a report. */
  lemma DurationsArePositive(orders: seq<View>, w: Window, now: int)
    ensures var report := ReportOf(orders, w, now);
            && IsDuration(report.timeToFill) && IsDuration(report.timeToComplete)
            && IsDuration(report.fullCycle) && IsDuration(report.timeToCancel)
  {
    GapsArePositive(orders, w, PendingAt, TakenAt);
    GapsArePositive(orders, w, TakenAt, SuccessAt);
    GapsArePositive(orders, w, PendingAt, SuccessAt);
    GapsArePositive(orders, w, PendingAt, CancelAt);
    DurationIs(Collect(orders, GapIn(w, PendingAt, TakenAt)));
    DurationIs(Collect(orders, GapIn(w, TakenAt, SuccessAt)));
    DurationIs(Collect(orders, GapIn(w, PendingAt, SuccessAt)));
    DurationIs(Collect(orders, GapIn(w, PendingAt, CancelAt)));
  }

  // ---- The push-down ----

  /** Leaving out orders that contribute nothing changes nothing. */
  lemma {:induction false} CollectTouched<X>(hs: seq<History>, from: int, until: int, now: int, reading: Reading<X>)
    requires forall h | h in hs && !TouchedIn(h, from, until, now) :: reading(ViewOf(h)).None?
    ensures Collect(ViewsOf(Touched(hs, from, until, now)), reading) == Collect(ViewsOf(hs), reading)
  {
    if hs != [] {
      var n := |hs| - 1;
      CollectTouched(hs[..n], from, until, now, reading);
      CollectNext(ViewsOf(hs[..n]), ViewOf(hs[n]), reading);
      TouchedNext(hs, from, until, now);
      if TouchedIn(hs[n], from, until, now) {
        CollectNext(ViewsOf(Touched(hs[..n], from, until, now)), ViewOf(hs[n]), reading);
      }
    }
  }

  lemma TouchedNext(hs: seq<History>, from: int, until: int, now: int)
    requires hs != []
    ensures var n := |hs| - 1;
            var before := ViewsOf(Touched(hs[..n], from, until, now));
            && ViewsOf(hs) == ViewsOf(hs[..n]) + [ViewOf(hs[n])]
            && ViewsOf(Touched(hs, from, until, now))
               == if TouchedIn(hs[n], from, until, now) then before + [ViewOf(hs[n])] else before
  {
    var n := |hs| - 1;
    var kept := Touched(hs[..n], from, until, now);
    assert (kept + [hs[n]])[..|kept|] == kept && kept + [] == kept;
  }

  lemma CollectNext<X>(orders: seq<View>, v: View, reading: Reading<X>)
    ensures Collect(orders + [v], reading)
         == Collect(orders, reading) + if reading(v).Some? then [reading(v).value] else []
  {
    assert (orders + [v])[..|orders|] == orders;
  }

  /** How many of the orders left out pass a test. */
  function DroppedCount(hs: seq<History>, from: int, until: int, now: int, test: Test): nat {
    if hs == [] then 0
    else
      var h := hs[|hs| - 1];
      DroppedCount(hs[..|hs| - 1], from, until, now, test) +
      if !TouchedIn(h, from, until, now) && test(ViewOf(h)) then 1 else 0
  }

  /** A count over the narrowed orders misses exactly those left out. */
  lemma {:induction false} CountTouched(hs: seq<History>, from: int, until: int, now: int, test: Test)
    ensures Count(ViewsOf(hs), test)
         == Count(ViewsOf(Touched(hs, from, until, now)), test) + DroppedCount(hs, from, until, now, test)
    ensures (forall h | h in hs && !TouchedIn(h, from, until, now) :: !test(ViewOf(h)))
        <==> DroppedCount(hs, from, until, now, test) == 0
  {
    if hs != [] {
      var n := |hs| - 1;
      assert hs == hs[..n] + [hs[n]];
      CountTouched(hs[..n], from, until, now, test);
      CountNext(ViewsOf(hs[..n]), ViewOf(hs[n]), test);
      TouchedNext(hs, from, until, now);
      if TouchedIn(hs[n], from, until, now) {
        CountNext(ViewsOf(Touched(hs[..n], from, until, now)), ViewOf(hs[n]), test);
      }
    }
  }

  lemma NoGap(v: View, w: Window, from: Reading<nat>, to: Reading<nat>)
    requires to(v).Some? ==> !w.Contains(to(v).value)
    ensures GapIn(w, from, to)(v).None?
  {
  }

  /** No gap of an order left out ends in the window, and it is not on the book. */
  predicate IsSilent(v: View, w: Window, now: int) {
    && GapIn(w, PendingAt, TakenAt)(v).None? && GapIn(w, TakenAt, SuccessAt)(v).None?
    && GapIn(w, PendingAt, SuccessAt)(v).None? && GapIn(w, PendingAt, CancelAt)(v).None?
    && BookAge(now)(v).None? && !Enters(v, w)
  }

  lemma ElsewhereIsSilent(v: View, w: Window, now: int)
    requires Elsewhere(v, w.from, w.until, now)
    ensures IsSilent(v, w, now)
  {
    NoGap(v, w, PendingAt, TakenAt);
    NoGap(v, w, TakenAt, SuccessAt);
    NoGap(v, w, PendingAt, SuccessAt);
    NoGap(v, w, PendingAt, CancelAt);
  }

  lemma UntouchedIsSilent(h: History, w: Window, now: int)
    requires !TouchedIn(h, w.from, w.until, now)
    ensures IsSilent(ViewOf(h), w, now)
  {
    UntouchedIsElsewhere(h, w.from, w.until, now);
    ElsewhereIsSilent(ViewOf(h), w, now);
  }

  lemma CountSilent(hs: seq<History>, w: Window, now: int, test: Test)
    requires forall h | h in hs && !TouchedIn(h, w.from, w.until, now) :: !test(ViewOf(h))
    ensures Count(ViewsOf(Touched(hs, w.from, w.until, now)), test) == Count(ViewsOf(hs), test)
  {
    CountTouched(hs, w.from, w.until, now, test);
  }

  lemma FunnelTouched(hs: seq<History>, w: Window, now: int)
    ensures FunnelOf(ViewsOf(Touched(hs, w.from, w.until, now)), w, now) == FunnelOf(ViewsOf(hs), w, now)
  {
    forall h | h in hs && !TouchedIn(h, w.from, w.until, now) ensures !Enters(ViewOf(h), w) {
      UntouchedIsSilent(h, w, now);
    }
    CountSilent(hs, w, now, Created(w));
    CountSilent(hs, w, now, Taken(w));
    CountSilent(hs, w, now, Completed(w));
    CountSilent(hs, w, now, CanceledTaken(w));
    CountSilent(hs, w, now, CanceledUntaken(w));
    CountSilent(hs, w, now, ExpiredUntaken(w, now));
    CountSilent(hs, w, now, Open(w, now));
  }

  /** Main result: the report over the orders `lifecycle_in` reads is the report over
      every order, in every duration, sample count, percentile, book and funnel figure;
      the two counts of odd histories fall short by exactly the odd orders left out. */
  lemma PushDown(hs: seq<History>, w: Window, now: int)
    ensures var all := ReportOf(ViewsOf(hs), w, now);
            var narrow := ReportOf(ViewsOf(Touched(hs, w.from, w.until, now)), w, now);
            && narrow == all.(unknownOrigin := narrow.unknownOrigin, regressed := narrow.regressed)
            && all.unknownOrigin == narrow.unknownOrigin + DroppedCount(hs, w.from, w.until, now, UnknownOrigin(w))
            && all.regressed == narrow.regressed + DroppedCount(hs, w.from, w.until, now, Regressed())
  {
    forall h | h in hs && !TouchedIn(h, w.from, w.until, now)
      ensures GapIn(w, PendingAt, TakenAt)(ViewOf(h)).None? && GapIn(w, TakenAt, SuccessAt)(ViewOf(h)).None?
      ensures GapIn(w, PendingAt, SuccessAt)(ViewOf(h)).None? && GapIn(w, PendingAt, CancelAt)(ViewOf(h)).None?
      ensures BookAge(now)(ViewOf(h)).None?
    {
      UntouchedIsSilent(h, w, now);
    }
    CollectTouched(hs, w.from, w.until, now, GapIn(w, PendingAt, TakenAt));
    CollectTouched(hs, w.from, w.until, now, GapIn(w, TakenAt, SuccessAt));
    CollectTouched(hs, w.from, w.until, now, GapIn(w, PendingAt, SuccessAt));
    CollectTouched(hs, w.from, w.until, now, GapIn(w, PendingAt, CancelAt));
    CollectTouched(hs, w.from, w.until, now, BookAge(now));
    FunnelTouched(hs, w, now);
    CountTouched(hs, w.from, w.until, now, UnknownOrigin(w));
    CountTouched(hs, w.from, w.until, now, Regressed());
  }

  /** The first count does miss orders: one first seen taken, after the window, that its
      tag dates inside. */
  lemma OriginCanBeMissed(h: History, id: nat, w: Window, now: int)
    requires h.Keys == {id} && h[id].status == InProgress && w.until <= h[id].createdAt
    requires h[id].orderCreatedAt.Some? && w.Contains(h[id].orderCreatedAt.value)
    ensures !TouchedIn(h, w.from, w.until, now) && UnknownOrigin(w)(ViewOf(h))
  {
    TagDates(h, id);
    FirstAtIsAVersion(h, Pending);
    OutcomesAreFirstAt(h);
  }

  lemma TagDates(h: History, id: nat)
    requires h.Keys == {id} && h[id].orderCreatedAt.Some? && h[id].orderCreatedAt.value < h[id].createdAt
    ensures ViewOf(h).createdAt == h[id].orderCreatedAt.value
    ensures LatestOf(h) == h[id]
  {
    var tags := set i | i in h && h[i].orderCreatedAt.Some? :: h[i].orderCreatedAt.value;
    assert h[id].orderCreatedAt.value in tags;
  }

  /** So does the second: one that ended both ways outside the window. */
  lemma RegressionCanBeMissed(h: History, won: nat, lost: nat, w: Window, now: int)
    requires won in h && lost in h && h[won].status == Success && h[lost].status == Canceled
    requires forall id | id in h :: !w.Contains(h[id].createdAt) && h[id].status != Pending
    ensures !TouchedIn(h, w.from, w.until, now) && Regressed()(ViewOf(h))
  {
    FirstAtIsAVersion(h, Success);
    FirstAtIsAVersion(h, Canceled);
    OutcomesAreFirstAt(h);
    assert LatestOf(h) == h[Newest(StampsOf(h))];
  }
}
