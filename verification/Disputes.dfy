/** Dispute figures: over periods, over statuses, over instances. */
module Disputes {
  import opened Prelude
  import opened Events
  import opened Sorting
  import opened Counting
  import opened Percentiles
  import opened Quantiles
  import opened Tiling
  import opened Tallies
  import Windows
  import opened Schema
  import opened Cases

  function OpenedOn(c: Case): Option<int> { Some(c.openedAt) }

  function ResolvedOn(c: Case): Option<int> { c.resolvedAt }

  function Each(c: Case): int { 1 }

  /** The place of a status in the list of them all. */
  function StatusIndex(s: DisputeStatus): (i: nat)
    ensures i < 6
  {
    match s
    case Initiated => 0
    case Solving => 1
    case SellerRefunded => 2
    case Settled => 3
    case Released => 4
    case CooperativelyCanceled => 5
  }

  function StatusSlot(w: Window): Slot<Case> {
    (c: Case) => if w.Contains(c.openedAt) then Some(StatusIndex(c.status)) else None
  }

  function Ratio(numerator: nat, denominator: nat): Option<real> {
    if denominator > 0 then Some(numerator as real / denominator as real) else None
  }

  type Test = Case -> bool

  function Kept(cases: seq<Case>, test: Test): seq<Case> {
    if cases == [] then []
    else Kept(cases[..|cases| - 1], test) + if test(cases[|cases| - 1]) then [cases[|cases| - 1]] else []
  }

  function OpenedIn(w: Window): Test { (c: Case) => w.Contains(c.openedAt) }

  function ResolvedIn(w: Window): Test { (c: Case) => c.resolvedAt.Some? && w.Contains(c.resolvedAt.value) }

  predicate HasInitiator(c: Case) { c.initiator.Some? }

  predicate ByBuyer(c: Case) { c.initiator == Some(Buyer) }

  function EndedAs(status: DisputeStatus): Test { (c: Case) => c.outcome == Some(status) }

  /** Waiting for a solver: nobody has taken it, and it has opened as far as the clock
      can tell. */
  function Waiting(now: int): Test { (c: Case) => c.status.Initiated? && c.openedAt <= now }

  /** How long each resolved dispute took. */
  function Resolutions(cases: seq<Case>): seq<int> {
    if cases == [] then []
    else
      var c := cases[|cases| - 1];
      Resolutions(cases[..|cases| - 1]) + if c.resolvedAt.Some? then [c.resolvedAt.value - c.openedAt] else []
  }

  function OutcomeShares(resolved: seq<Case>): Option<seq<real>> {
    if resolved == [] then None
    else Some(seq(4, i requires 0 <= i < 4 => |Kept(resolved, EndedAs(TERMINAL[i]))| as real / |resolved| as real))
  }

  /** Oldest first, and by id within one second. */
  predicate OpenedFirst(a: Case, b: Case) {
    a.openedAt < b.openedAt || (a.openedAt == b.openedAt && StringLeq(a.disputeId, b.disputeId))
  }

  datatype OpenDispute = OpenDispute(disputeId: DisputeId, age: int)

  function Age(c: Case, now: int): OpenDispute { OpenDispute(c.disputeId, now - c.openedAt) }

  function Aged(cases: seq<Case>, now: int): seq<OpenDispute> {
    if cases == [] then [] else Aged(cases[..|cases| - 1], now) + [Age(cases[|cases| - 1], now)]
  }

  /** The disputes that wait, oldest first, with their ages. */
  function WaitingList(cases: seq<Case>, now: int): seq<OpenDispute> {
    Aged(Sort(OpenedFirst, Kept(cases, Waiting(now))), now)
  }

  /** How many orders left the book in the window. */
  function TakenIn(taken: seq<int>, w: Window): nat {
    if taken == [] then 0 else TakenIn(taken[..|taken| - 1], w) + if w.Contains(taken[|taken| - 1]) then 1 else 0
  }

  datatype Summary = Summary(
    openings: nat, byStatus: seq<nat>, buyerShare: Option<real>, rate: Option<real>, resolved: nat,
    outcome: Option<seq<real>>, resolutionP50: Option<int>, resolutionP90: Option<int>, open: seq<OpenDispute>)

  ghost predicate Summarises(s: Summary, cases: seq<Case>, taken: seq<int>, w: Window, now: int) {
    var started, resolved := Kept(cases, OpenedIn(w)), Kept(cases, ResolvedIn(w));
    && s.openings == |started| && s.resolved == |resolved|
    && |s.byStatus| == 6 && (forall b | 0 <= b < 6 :: s.byStatus[b] == InSlot(cases, StatusSlot(w), b))
    && s.buyerShare == Ratio(|Kept(started, ByBuyer)|, |Kept(started, HasInitiator)|)
    && s.rate == Ratio(|started|, TakenIn(taken, w))
    && s.outcome == OutcomeShares(resolved)
    && s.resolutionP50 == Percentile(IntLeq, Resolutions(resolved), 0.5)
    && s.resolutionP90 == Percentile(IntLeq, Resolutions(resolved), 0.9)
    && s.open == WaitingList(cases, now)
  }

  // ---- What the summary means ----

  /** The disputes opened or resolved in a window, counted, are dated totals. */
  lemma {:induction false} KeptIsTotal(cases: seq<Case>, w: Window)
    ensures |Kept(cases, OpenedIn(w))| == Total(cases, OpenedOn, Each, w)
    ensures |Kept(cases, ResolvedIn(w))| == Total(cases, ResolvedOn, Each, w)
  {
    if cases != [] { KeptIsTotal(cases[..|cases| - 1], w); }
  }

  lemma {:induction false} OutcomesPartition(resolved: seq<Case>)
    requires forall c | c in resolved :: c.resolvedAt.Some?
    ensures |Kept(resolved, EndedAs(SellerRefunded))| + |Kept(resolved, EndedAs(Settled))|
            + |Kept(resolved, EndedAs(Released))| + |Kept(resolved, EndedAs(CooperativelyCanceled))| == |resolved|
  {
    if resolved != [] {
      var n := |resolved| - 1;
      OutcomesPartition(resolved[..n]);
      assert resolved[n] in resolved && EndsTerminally(resolved[n]);
    }
  }

  lemma Together(a: real, b: real, x: real)
    requires x > 0.0
    ensures a / x + b / x == (a + b) / x
  {
  }

  lemma Quarters(a: nat, b: nat, c: nat, d: nat, n: nat)
    requires n > 0 && a + b + c + d == n
    ensures a as real / n as real + b as real / n as real + c as real / n as real + d as real / n as real == 1.0
  {
    var x := n as real;
    Together(a as real, b as real, x);
    Together(a as real + b as real, c as real, x);
    Together(a as real + b as real + c as real, d as real, x);
    assert a as real + b as real + c as real + d as real == x;
  }

  /** The shares of the outcomes of the disputes resolved in a window add up to one. */
  lemma SharesAddUp(cases: seq<Case>, w: Window)
    requires Kept(cases, ResolvedIn(w)) != []
    ensures var shares := OutcomeShares(Kept(cases, ResolvedIn(w)));
            shares.Some? && |shares.value| == 4
            && shares.value[0] + shares.value[1] + shares.value[2] + shares.value[3] == 1.0
  {
    var resolved := Kept(cases, ResolvedIn(w));
    KeptAre(cases, ResolvedIn(w));
    OutcomesPartition(resolved);
    Quarters(|Kept(resolved, EndedAs(SellerRefunded))|, |Kept(resolved, EndedAs(Settled))|,
             |Kept(resolved, EndedAs(Released))|, |Kept(resolved, EndedAs(CooperativelyCanceled))|, |resolved|);
  }

  lemma OpenedFirstIsPreorder()
    ensures Preorder(OpenedFirst)
  {
    StringOrderIsLinear();
  }

  lemma {:induction false} KeptAre(cases: seq<Case>, test: Test)
    ensures forall c :: c in Kept(cases, test) <==> c in cases && test(c)
  {
    if cases != [] {
      var n := |cases| - 1;
      KeptAre(cases[..n], test);
      assert cases == cases[..n] + [cases[n]];
    }
  }

  lemma {:induction false} AgedAt(cases: seq<Case>, now: int, k: nat)
    requires k < |cases|
    ensures |Aged(cases, now)| == |cases|
    ensures Aged(cases, now)[k] == Age(cases[k], now)
  {
    var n := |cases| - 1;
    if k < n {
      AgedAt(cases[..n], now, k);
    } else {
      AgedLength(cases[..n], now);
    }
    AgedLength(cases, now);
  }

  lemma {:induction false} AgedLength(cases: seq<Case>, now: int)
    ensures |Aged(cases, now)| == |cases|
  {
    if cases != [] { AgedLength(cases[..|cases| - 1], now); }
  }

  lemma WaitingInOrder(cases: seq<Case>, now: int, j: nat, k: nat)
    requires j <= k < |Sort(OpenedFirst, Kept(cases, Waiting(now)))|
    ensures var sorted := Sort(OpenedFirst, Kept(cases, Waiting(now)));
            sorted[j].openedAt <= sorted[k].openedAt <= now
  {
    assert Preorder(OpenedFirst) by { OpenedFirstIsPreorder(); }
    SortedAt(OpenedFirst, Kept(cases, Waiting(now)), j, k);
    KeptAre(cases, Waiting(now));
  }

  /** The open list is the oldest first, and no dispute on it has a negative age. */
  lemma OpenIsOldestFirst(cases: seq<Case>, now: int, j: nat, k: nat)
    requires j <= k < |WaitingList(cases, now)|
    ensures WaitingList(cases, now)[j].age >= WaitingList(cases, now)[k].age >= 0
  {
    AgedLength(Sort(OpenedFirst, Kept(cases, Waiting(now))), now);
    WaitingInOrder(cases, now, j, k);
    AgedAt(Sort(OpenedFirst, Kept(cases, Waiting(now))), now, j);
    AgedAt(Sort(OpenedFirst, Kept(cases, Waiting(now))), now, k);
  }

  /** Every dispute opened in the window stands in exactly one status. */
  lemma StatusesAddUp(cases: seq<Case>, w: Window)
    ensures SumOfSlots(cases, StatusSlot(w), 6) == Total(cases, OpenedOn, Each, w)
  {
    SlotsAddUp(cases, StatusSlot(w), 6);
    SlottedIsTotal(cases, StatusSlot(w), OpenedOn, Each, w);
  }

  // ---- The report ----

  ghost predicate WaitsAs(cases: seq<Case>, now: int, o: OpenDispute) {
    exists c :: c in cases && c.status.Initiated? && c.openedAt <= now && o == Age(c, now)
  }

  predicate OldestFirst(open: seq<OpenDispute>) {
    forall j, k | 0 <= j <= k < |open| :: open[j].age >= open[k].age >= 0
  }

  /** The open list holds each dispute that waits, with its age, and nothing else, oldest
      first, no age negative. */
  ghost predicate ListsWaiting(open: seq<OpenDispute>, cases: seq<Case>, now: int) {
    && |open| == |Kept(cases, Waiting(now))| && OldestFirst(open)
    && forall o :: o in open <==> WaitsAs(cases, now, o)
  }

  /** The counts of a window are dated totals, and the statuses divide the openings. */
  ghost predicate Counts(s: Summary, cases: seq<Case>, w: Window) {
    && s.openings == Total(cases, OpenedOn, Each, w) && s.resolved == Total(cases, ResolvedOn, Each, w)
    && |s.byStatus| == 6
    && s.byStatus[0] + s.byStatus[1] + s.byStatus[2] + s.byStatus[3] + s.byStatus[4] + s.byStatus[5] == s.openings
  }

  /** Something was resolved exactly when there are shares of the outcomes, which add up to
      one, and resolution times, of which the ninetieth is no shorter than the median. */
  predicate Divides(s: Summary) {
    && (s.outcome.Some? <==> s.resolved > 0) && (s.outcome.Some? ==> SumToOne(s.outcome.value))
    && (s.resolutionP50.Some? <==> s.resolved > 0) && (s.resolutionP90.Some? <==> s.resolved > 0)
    && (s.resolved > 0 ==> s.resolutionP50.value <= s.resolutionP90.value)
    && (s.buyerShare.Some? ==> 0.0 <= s.buyerShare.value <= 1.0)
  }

  predicate SumToOne(shares: seq<real>) {
    |shares| == 4 && shares[0] + shares[1] + shares[2] + shares[3] == 1.0
  }

  lemma FiguresCount(s: Summary, cases: seq<Case>, taken: seq<int>, w: Window, now: int)
    requires Summarises(s, cases, taken, w, now)
    ensures Counts(s, cases, w)
  {
    KeptIsTotal(cases, w);
    ByStatusAddsUp(s.byStatus, cases, w);
  }

  lemma FiguresDivide(s: Summary, cases: seq<Case>, taken: seq<int>, w: Window, now: int)
    requires Summarises(s, cases, taken, w, now)
    ensures Divides(s)
  {
    var resolved := Kept(cases, ResolvedIn(w));
    if resolved != [] { SharesAddUp(cases, w); }
    ResolutionTimes(cases, w);
    BuyerShareIsAShare(Kept(cases, OpenedIn(w)));
  }

  lemma ByStatusAddsUp(byStatus: seq<nat>, cases: seq<Case>, w: Window)
    requires |byStatus| == 6 && forall b | 0 <= b < 6 :: byStatus[b] == InSlot(cases, StatusSlot(w), b)
    ensures byStatus[0] + byStatus[1] + byStatus[2] + byStatus[3] + byStatus[4] + byStatus[5]
         == Total(cases, OpenedOn, Each, w)
  {
    StatusesAddUp(cases, w);
    TwoSlots(cases, StatusSlot(w), 4);
    TwoSlots(cases, StatusSlot(w), 2);
    TwoSlots(cases, StatusSlot(w), 0);
  }

  lemma TwoSlots<X>(items: seq<X>, slot: Slot<X>, n: nat)
    ensures SumOfSlots(items, slot, n + 2)
         == SumOfSlots(items, slot, n) + InSlot(items, slot, n) + InSlot(items, slot, n + 1)
    ensures SumOfSlots(items, slot, 0) == 0
  {
    assert SumOfSlots(items, slot, n + 1) == SumOfSlots(items, slot, n) + InSlot(items, slot, n);
  }

  lemma ResolutionTimes(cases: seq<Case>, w: Window)
    ensures var times := Resolutions(Kept(cases, ResolvedIn(w)));
            && |times| == |Kept(cases, ResolvedIn(w))|
            && (times != [] ==> Percentile(IntLeq, times, 0.5).value <= Percentile(IntLeq, times, 0.9).value)
  {
    var resolved := Kept(cases, ResolvedIn(w));
    KeptAre(cases, ResolvedIn(w));
    OneTimeEach(resolved);
    if Resolutions(resolved) != [] { MonotoneInP(IntLeq, Resolutions(resolved), 0.5, 0.9); }
  }

  lemma {:induction false} OneTimeEach(resolved: seq<Case>)
    requires forall c | c in resolved :: c.resolvedAt.Some?
    ensures |Resolutions(resolved)| == |resolved|
  {
    if resolved != [] {
      OneTimeEach(resolved[..|resolved| - 1]);
      assert resolved[|resolved| - 1] in resolved;
    }
  }

  lemma {:induction false} BuyersHaveInitiators(cases: seq<Case>)
    ensures |Kept(cases, ByBuyer)| <= |Kept(cases, HasInitiator)|
  {
    if cases != [] { BuyersHaveInitiators(cases[..|cases| - 1]); }
  }

  lemma BuyerShareIsAShare(started: seq<Case>)
    ensures var share := Ratio(|Kept(started, ByBuyer)|, |Kept(started, HasInitiator)|);
            share.Some? ==> 0.0 <= share.value <= 1.0
  {
    BuyersHaveInitiators(started);
    var a, b := |Kept(started, ByBuyer)|, |Kept(started, HasInitiator)|;
    if b > 0 { Quotient(a as real, b as real); }
  }

  lemma Quotient(a: real, b: real)
    requires 0.0 <= a <= b && b > 0.0
    ensures 0.0 <= a / b <= 1.0
  {
  }

  lemma OpenListsWaiting(cases: seq<Case>, now: int)
    ensures ListsWaiting(WaitingList(cases, now), cases, now)
  {
    EachWaitsOnce(cases, now);
    forall o ensures o in WaitingList(cases, now) <==> WaitsAs(cases, now, o) {
      OnTheList(cases, now, o);
    }
    var open := WaitingList(cases, now);
    forall j, k | 0 <= j <= k < |open| ensures open[j].age >= open[k].age >= 0 {
      OpenIsOldestFirst(cases, now, j, k);
    }
  }

  lemma EachWaitsOnce(cases: seq<Case>, now: int)
    ensures |WaitingList(cases, now)| == |Kept(cases, Waiting(now))|
  {
    SortedOpenings(Kept(cases, Waiting(now)));
    AgedLength(Sort(OpenedFirst, Kept(cases, Waiting(now))), now);
  }

  lemma SortedOpenings(waiting: seq<Case>)
    ensures |Sort(OpenedFirst, waiting)| == |waiting|
    ensures forall c :: c in Sort(OpenedFirst, waiting) <==> c in waiting
  {
    assert Preorder(OpenedFirst) by { OpenedFirstIsPreorder(); }
    SortKeeps(OpenedFirst, waiting);
    assert forall c :: c in Sort(OpenedFirst, waiting) <==> c in multiset(Sort(OpenedFirst, waiting));
  }

  lemma {:induction false} AgedAre(cases: seq<Case>, now: int, o: OpenDispute)
    ensures o in Aged(cases, now) <==> exists c :: c in cases && o == Age(c, now)
  {
    if cases != [] {
      var n := |cases| - 1;
      AgedAre(cases[..n], now, o);
      assert cases == cases[..n] + [cases[n]];
    }
  }

  lemma OnTheList(cases: seq<Case>, now: int, o: OpenDispute)
    ensures o in WaitingList(cases, now) <==> WaitsAs(cases, now, o)
  {
    AgedAre(Sort(OpenedFirst, Kept(cases, Waiting(now))), now, o);
    SortedOpenings(Kept(cases, Waiting(now)));
    KeptAre(cases, Waiting(now));
  }

  // ---- What each figure is ----

  function BeganIn(w: Window): Test { (c: Case) => w.from <= c.openedAt < w.until }

  function EndedIn(w: Window): Test { (c: Case) => c.resolvedAt.Some? && w.from <= c.resolvedAt.value < w.until }

  function StandsAt(status: DisputeStatus): Test { (c: Case) => c.status == status }

  function EndedBy(status: DisputeStatus): Test { (c: Case) => c.outcome == Some(status) }

  function Took(c: Case): int { if c.resolvedAt.Some? then c.resolvedAt.value - c.openedAt else 0 }

  function LeftIn(w: Window): int -> bool { (at: int) => w.from <= at < w.until }

  /** Whether `q` is `a` of `b`, missing exactly when there is nothing to divide by. */
  predicate IsShare(q: Option<real>, a: nat, b: nat) {
    (q.None? <==> b == 0) && (q.Some? ==> q.value * b as real == a as real)
  }

  /** Whether the counts by status are of the disputes opened in the window, in the order
      of the statuses. */
  ghost predicate CountsStatuses(byStatus: seq<nat>, cases: seq<Case>, w: Window) {
    && |byStatus| == 6
    && byStatus[0] == HowMany(cases, And(BeganIn(w), StandsAt(Initiated)))
    && byStatus[1] == HowMany(cases, And(BeganIn(w), StandsAt(Solving)))
    && byStatus[2] == HowMany(cases, And(BeganIn(w), StandsAt(SellerRefunded)))
    && byStatus[3] == HowMany(cases, And(BeganIn(w), StandsAt(Settled)))
    && byStatus[4] == HowMany(cases, And(BeganIn(w), StandsAt(Released)))
    && byStatus[5] == HowMany(cases, And(BeganIn(w), StandsAt(CooperativelyCanceled)))
  }

  ghost predicate SharesOutcomes(shares: seq<real>, cases: seq<Case>, w: Window) {
    var n := HowMany(cases, EndedIn(w));
    && |shares| == 4
    && IsShare(Some(shares[0]), HowMany(cases, And(EndedIn(w), EndedBy(SellerRefunded))), n)
    && IsShare(Some(shares[1]), HowMany(cases, And(EndedIn(w), EndedBy(Settled))), n)
    && IsShare(Some(shares[2]), HowMany(cases, And(EndedIn(w), EndedBy(Released))), n)
    && IsShare(Some(shares[3]), HowMany(cases, And(EndedIn(w), EndedBy(CooperativelyCanceled))), n)
  }

  /** Every figure of a window, said of the disputes' own dates, statuses and initiators. */
  ghost predicate Figures(s: Summary, cases: seq<Case>, taken: seq<int>, w: Window) {
    && s.openings == HowMany(cases, BeganIn(w)) && s.resolved == HowMany(cases, EndedIn(w))
    && CountsStatuses(s.byStatus, cases, w)
    && IsShare(s.buyerShare, HowMany(cases, And(BeganIn(w), ByBuyer)), HowMany(cases, And(BeganIn(w), HasInitiator)))
    && IsShare(s.rate, s.openings, HowMany(taken, LeftIn(w)))
    && (s.outcome.None? <==> s.resolved == 0) && (s.outcome.Some? ==> SharesOutcomes(s.outcome.value, cases, w))
    && Ranks(IntLeq, s.resolutionP50, cases, EndedIn(w), Took, 0.5)
    && Ranks(IntLeq, s.resolutionP90, cases, EndedIn(w), Took, 0.9)
  }

  lemma {:induction false} KeptIsFilter(cases: seq<Case>, test: Test, same: Test)
    requires forall c :: test(c) == same(c)
    ensures Kept(cases, test) == Filter(cases, same)
  {
    if cases != [] { KeptIsFilter(cases[..|cases| - 1], test, same); }
  }

  lemma KeptCounts(cases: seq<Case>, w: Window, test: Test)
    ensures |Kept(cases, OpenedIn(w))| == HowMany(cases, BeganIn(w))
    ensures |Kept(cases, ResolvedIn(w))| == HowMany(cases, EndedIn(w))
    ensures |Kept(Kept(cases, OpenedIn(w)), test)| == HowMany(cases, And(BeganIn(w), test))
    ensures |Kept(Kept(cases, ResolvedIn(w)), test)| == HowMany(cases, And(EndedIn(w), test))
  {
    KeptIsFilter(cases, OpenedIn(w), BeganIn(w));
    KeptIsFilter(cases, ResolvedIn(w), EndedIn(w));
    KeptIsFilter(Filter(cases, BeganIn(w)), test, test);
    KeptIsFilter(Filter(cases, EndedIn(w)), test, test);
    FilterTwice(cases, BeganIn(w), test);
    FilterTwice(cases, EndedIn(w), test);
    FilterCounts(cases, BeganIn(w), test, Took);
    FilterCounts(cases, EndedIn(w), test, Took);
    FilterCounts(cases, And(BeganIn(w), test), test, Took);
    FilterCounts(cases, And(EndedIn(w), test), test, Took);
  }

  lemma StatusMeaning(cases: seq<Case>, w: Window, status: DisputeStatus, b: nat)
    requires forall other :: StatusIndex(other) == b <==> other == status
    ensures InSlot(cases, StatusSlot(w), b) == HowMany(cases, And(BeganIn(w), StandsAt(status)))
  {
    SlotMeaning(cases, StatusSlot(w), b);
    HowManySame(cases, Falls(StatusSlot(w), b), And(BeganIn(w), StandsAt(status)));
  }

  lemma StatusesMeaning(byStatus: seq<nat>, cases: seq<Case>, w: Window)
    requires |byStatus| == 6 && forall b | 0 <= b < 6 :: byStatus[b] == InSlot(cases, StatusSlot(w), b)
    ensures CountsStatuses(byStatus, cases, w)
  {
    StatusMeaning(cases, w, Initiated, 0);
    StatusMeaning(cases, w, Solving, 1);
    StatusMeaning(cases, w, SellerRefunded, 2);
    StatusMeaning(cases, w, Settled, 3);
    StatusMeaning(cases, w, Released, 4);
    StatusMeaning(cases, w, CooperativelyCanceled, 5);
  }

  lemma RatioMeaning(a: nat, b: nat)
    ensures IsShare(Ratio(a, b), a, b)
  {
  }

  lemma OutcomeMeaning(cases: seq<Case>, w: Window, status: DisputeStatus, share: real)
    requires Kept(cases, ResolvedIn(w)) != []
    requires share == |Kept(Kept(cases, ResolvedIn(w)), EndedAs(status))| as real / |Kept(cases, ResolvedIn(w))| as real
    ensures IsShare(Some(share), HowMany(cases, And(EndedIn(w), EndedBy(status))), HowMany(cases, EndedIn(w)))
  {
    KeptCounts(cases, w, EndedAs(status));
    HowManySame(cases, And(EndedIn(w), EndedAs(status)), And(EndedIn(w), EndedBy(status)));
    RatioMeaning(HowMany(cases, And(EndedIn(w), EndedBy(status))), HowMany(cases, EndedIn(w)));
  }

  lemma OutcomesMeaning(cases: seq<Case>, w: Window)
    requires Kept(cases, ResolvedIn(w)) != []
    ensures SharesOutcomes(OutcomeShares(Kept(cases, ResolvedIn(w))).value, cases, w)
  {
    var shares := OutcomeShares(Kept(cases, ResolvedIn(w))).value;
    OutcomeMeaning(cases, w, SellerRefunded, shares[0]);
    OutcomeMeaning(cases, w, Settled, shares[1]);
    OutcomeMeaning(cases, w, Released, shares[2]);
    OutcomeMeaning(cases, w, CooperativelyCanceled, shares[3]);
  }

  lemma {:induction false} TimesArePicked(cases: seq<Case>, w: Window)
    ensures Resolutions(Kept(cases, ResolvedIn(w))) == Picked(cases, EndedIn(w), Took)
  {
    if cases != [] {
      var n := |cases| - 1;
      TimesArePicked(cases[..n], w);
      ResolutionsNext(Kept(cases[..n], ResolvedIn(w)), cases[n]);
    }
  }

  lemma ResolutionsNext(cases: seq<Case>, c: Case)
    ensures Resolutions(cases + [c])
         == Resolutions(cases) + if c.resolvedAt.Some? then [c.resolvedAt.value - c.openedAt] else []
    ensures cases + [] == cases
  {
    assert (cases + [c])[..|cases|] == cases;
  }

  lemma {:induction false} TakenMeaning(taken: seq<int>, w: Window)
    ensures TakenIn(taken, w) == HowMany(taken, LeftIn(w))
  {
    if taken != [] {
      TakenMeaning(taken[..|taken| - 1], w);
      HowManyNext(taken, LeftIn(w));
    }
  }

  lemma FiguresMeaning(s: Summary, cases: seq<Case>, taken: seq<int>, w: Window, now: int)
    requires Summarises(s, cases, taken, w, now)
    ensures Figures(s, cases, taken, w)
  {
    KeptCounts(cases, w, ByBuyer);
    KeptCounts(cases, w, HasInitiator);
    StatusesMeaning(s.byStatus, cases, w);
    RatioMeaning(HowMany(cases, And(BeganIn(w), ByBuyer)), HowMany(cases, And(BeganIn(w), HasInitiator)));
    RatioMeaning(s.openings, TakenIn(taken, w));
    TakenMeaning(taken, w);
    if Kept(cases, ResolvedIn(w)) != [] { OutcomesMeaning(cases, w); }
    TimesArePicked(cases, w);
    QuantileMeaning(IntLeq, cases, EndedIn(w), Took, 0.5);
    QuantileMeaning(IntLeq, cases, EndedIn(w), Took, 0.9);
  }

  /** The figures of one window. */
  method Summarise(cases: seq<Case>, taken: seq<int>, w: Window, now: int) returns (s: Summary)
    ensures Summarises(s, cases, taken, w, now)
    ensures Figures(s, cases, taken, w)
    ensures Counts(s, cases, w) && Divides(s) && ListsWaiting(s.open, cases, now)
  {
    var byStatus := FillSlots(cases, StatusSlot(w), 6);
    var started, resolved := Kept(cases, OpenedIn(w)), Kept(cases, ResolvedIn(w));
    s := Summary(|started|, byStatus[..], Ratio(|Kept(started, ByBuyer)|, |Kept(started, HasInitiator)|),
                 Ratio(|started|, TakenIn(taken, w)), |resolved|, OutcomeShares(resolved),
                 Percentile(IntLeq, Resolutions(resolved), 0.5), Percentile(IntLeq, Resolutions(resolved), 0.9),
                 WaitingList(cases, now));
    FiguresMeaning(s, cases, taken, w, now);
    FiguresCount(s, cases, taken, w, now);
    FiguresDivide(s, cases, taken, w, now);
    OpenListsWaiting(cases, now);
  }

  // ---- Over periods and instances ----

  /** One status, counted over a window, as a dated total. */
  function Standing(b: nat): Weight<Case> { (c: Case) => if StatusIndex(c.status) == b then 1 else 0 }

  lemma {:induction false} SlotIsTotal(cases: seq<Case>, w: Window, b: nat)
    ensures InSlot(cases, StatusSlot(w), b) == Total(cases, OpenedOn, Standing(b), w)
  {
    if cases != [] { SlotIsTotal(cases[..|cases| - 1], w, b); }
  }

  /** The count of one status, over every bucket. */
  function StatusOverBuckets(cases: seq<Case>, bs: seq<Bucket>, b: nat): int {
    if bs == [] then 0 else InSlot(cases, StatusSlot(bs[0].window), b) + StatusOverBuckets(cases, bs[1..], b)
  }

  lemma {:induction false} StatusBuckets(cases: seq<Case>, bs: seq<Bucket>, b: nat)
    ensures StatusOverBuckets(cases, bs, b) == SumOfBuckets(cases, OpenedOn, Standing(b), bs)
  {
    if bs != [] {
      StatusBuckets(cases, bs[1..], b);
      SlotIsTotal(cases, bs[0].window, b);
    }
  }

  /** Consecutive periods add up: openings, resolutions, and every status by itself. */
  lemma PeriodsAddUp(cases: seq<Case>, o: Openings, bs: seq<Bucket>, i: int, from: int, until: int, b: nat)
    requires Tile(o, bs, i, from, until)
    ensures var w := Window(from, until);
            && SumOfBuckets(cases, OpenedOn, Each, bs) == Total(cases, OpenedOn, Each, w)
            && SumOfBuckets(cases, ResolvedOn, Each, bs) == Total(cases, ResolvedOn, Each, w)
            && StatusOverBuckets(cases, bs, b) == InSlot(cases, StatusSlot(w), b)
  {
    BucketsAddUp(cases, OpenedOn, Each, o, bs, i, from, until);
    BucketsAddUp(cases, ResolvedOn, Each, o, bs, i, from, until);
    BucketsAddUp(cases, OpenedOn, Standing(b), o, bs, i, from, until);
    StatusBuckets(cases, bs, b);
    SlotIsTotal(cases, Window(from, until), b);
  }

  /** The days, weeks, months or years of a window they cover add up to it. */
  lemma CalendarAddsUp(cases: seq<Case>, p: Windows.Period, w: Window, b: nat)
    requires Windows.Bucketed(p, w)
    ensures var bs := Windows.Buckets(p, w);
            && SumOfBuckets(cases, OpenedOn, Each, bs) == Total(cases, OpenedOn, Each, w)
            && SumOfBuckets(cases, ResolvedOn, Each, bs) == Total(cases, ResolvedOn, Each, w)
            && StatusOverBuckets(cases, bs, b) == InSlot(cases, StatusSlot(w), b)
  {
    Windows.BucketedIsTiled(p, w);
    PeriodsAddUp(cases, Windows.Openings(p), Windows.Buckets(p, w), Windows.Index(p, w.from), w.from, w.until, b);
  }

  function InstanceKey(c: Case): seq<string> { [c.instance] }

  /** So do instances. */
  lemma InstancesAddUp(cases: seq<Case>, date: Dating<Case>, w: Window)
    ensures SumOver(AllKeys(cases, InstanceKey), GroupTotal(cases, InstanceKey, date, Each, w))
         == Total(cases, date, Each, w)
  {
    GroupsAddUp(cases, InstanceKey, date, Each, w);
    SingleKeyWeighs(cases, InstanceKey, date, Each, w);
  }
}
