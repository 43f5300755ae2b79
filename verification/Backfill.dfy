/** Walking one relay's history backwards, a capped page at a time. */
module Backfill {
  import opened Prelude
  import opened Ranking
  import opened Events
  import opened Schema
  import opened Pipeline
  import opened Database
  import opened Requests

  /** A hundred Julian years. */
  const MAX_WINDOW_SECS := 100 * 31_557_600

  /** Whether `from <= t < until` is a window `Range::resolve` lets through. */
  predicate Resolves(from: int, until: int) {
    from < until && until - from <= MAX_WINDOW_SECS
  }

  // ---- The request ----

  /** The two inclusive bounds of a Nostr filter, either of them left open. */
  datatype Filter = Filter(since: Option<int>, upTo: Option<int>)

  /** The filter for a half-open window: the last second goes, and an end nothing
      can be outside of is left off. */
  function Asked(from: int, until: int): Filter {
    Filter(if from > 0 then Some(from) else None, if until < I64_MAX then Some(Max(until - 1, 0)) else None)
  }

  predicate Matches(filter: Filter, e: Event) {
    && (filter.since.Some? ==> filter.since.value <= e.createdAt)
    && (filter.upTo.Some? ==> e.createdAt <= filter.upTo.value)
  }

  /** The filter asks for exactly the half-open window, save below the epoch: there
      the bound is clamped and second zero comes back. */
  lemma FilterIsHalfOpen(from: int, until: int, e: Event)
    requires from < until <= I64_MAX && e.createdAt < I64_MAX
    ensures Matches(Asked(from, until), e)
       <==> from <= e.createdAt < until || (until <= 0 && e.createdAt == 0)
  {
  }

  // ---- The relay ----

  /** What a relay holds of what it is asked for, and how much of it one answer
      carries: at least `cap` events unless there are no more, at most `limit`. */
  datatype Relay = Relay(held: set<Event>, cap: nat, limit: nat)

  ghost predicate Sane(relay: Relay) {
    1 <= relay.cap <= relay.limit && forall e | e in relay.held :: e.createdAt < I64_MAX
  }

  function Holding(relay: Relay, filter: Filter): set<Event> {
    set e | e in relay.held && Matches(filter, e)
  }

  function Carried<T>(page: seq<T>): set<T> {
    set e | e in page
  }

  /** The newest events of the window, in any order; what is left out is not newer
      than anything that is there. */
  ghost predicate AnswersNewest(relay: Relay, filter: Filter, page: seq<Event>) {
    && Carried(page) <= Holding(relay, filter)
    && |page| <= relay.limit
    && (Carried(page) != Holding(relay, filter) ==> |Carried(page)| >= relay.cap)
    && (forall e, a | e in Holding(relay, filter) - Carried(page) && a in page :: e.createdAt <= a.createdAt)
  }

  /** One answer: a page, or no answer at all. */
  type Answer = Option<seq<Event>>

  // ---- The walk ----

  /** The clock of the oldest event of a page. */
  function Earliest(page: seq<Event>): (at: nat)
    requires page != []
    ensures forall e | e in page :: at <= e.createdAt
    ensures exists i :: 0 <= i < |page| && page[i].createdAt == at
  {
    if |page| == 1 then page[0].createdAt
    else
      var rest := Earliest(page[1..]);
      assert page == [page[0]] + page[1..];
      if page[0].createdAt < rest then page[0].createdAt else rest
  }

  /** Where the next window ends: just after the oldest second seen, or at it when
      the window would not shrink. */
  function NextUntil(until: int, page: seq<Event>): int
    requires page != []
  {
    var next := Earliest(page) + 1;
    if next < until then next else next - 1
  }

  /** The pages a walk of `[from, until)` ingests, given the relay's answers. */
  function Pages(from: int, until: int, answers: seq<Answer>): seq<seq<Event>>
    decreases |answers|
  {
    if !Resolves(from, until) || answers == [] || answers[0].None? || answers[0].value == [] then []
    else [answers[0].value] + Pages(from, NextUntil(until, answers[0].value), answers[1..])
  }

  /** Whether the walk ended by itself: at the floor, or at an empty page. */
  predicate Finished(from: int, until: int, answers: seq<Answer>)
    decreases |answers|
  {
    if !Resolves(from, until) then true
    else if answers == [] || answers[0].None? then false
    else if answers[0].value == [] then true
    else Finished(from, NextUntil(until, answers[0].value), answers[1..])
  }

  /** Every answer given is one the relay may give to what it was asked. */
  ghost predicate Honest(relay: Relay, from: int, until: int, answers: seq<Answer>)
    decreases |answers|
  {
    if !Resolves(from, until) || answers == [] || answers[0].None? then true
    else
      var page := answers[0].value;
      AnswersNewest(relay, Asked(from, until), page)
      && (page != [] ==> Honest(relay, from, NextUntil(until, page), answers[1..]))
  }

  predicate AllAnswered(answers: seq<Answer>) {
    forall i | 0 <= i < |answers| :: answers[i].Some?
  }

  /** Each page is handed over in the reverse of the order it arrived in. */
  function Reversed(page: seq<Event>): seq<Event> {
    if page == [] then [] else Reversed(page[1..]) + [page[0]]
  }

  function Handed(pages: seq<seq<Event>>): seq<Event> {
    if pages == [] then [] else Reversed(pages[0]) + Handed(pages[1..])
  }

  lemma {:induction false} ReversedHolds(page: seq<Event>)
    ensures |Reversed(page)| == |page|
    ensures forall i | 0 <= i < |page| :: Reversed(page)[i] == page[|page| - 1 - i]
    ensures forall e :: e in Reversed(page) <==> e in page
  {
    if page != [] {
      ReversedHolds(page[1..]);
      assert page == [page[0]] + page[1..];
    }
  }

  // ---- Progress ----

  predicate HoldsSecondZero(relay: Relay) {
    exists e | e in relay.held :: e.createdAt == 0
  }

  /** The oldest second of a page is one that was asked for. */
  lemma EarliestWasAsked(relay: Relay, from: int, until: int, page: seq<Event>)
    requires Sane(relay) && Resolves(from, until) && until <= I64_MAX
    requires AnswersNewest(relay, Asked(from, until), page) && page != []
    ensures Max(from, 0) <= Earliest(page) < until || (until <= 0 && Earliest(page) == 0 && HoldsSecondZero(relay))
  {
    var i :| 0 <= i < |page| && page[i].createdAt == Earliest(page);
    assert page[i] in Carried(page);
    FilterIsHalfOpen(from, until, page[i]);
  }

  /** Whether a walk can be kept going for ever: with a floor before the epoch, the
      clamped bound brings second zero back again and again. */
  predicate CanStall(relay: Relay, from: int) {
    -MAX_WINDOW_SECS <= from < 0 && HoldsSecondZero(relay)
  }

  /** Otherwise every window ends strictly before the one before it, so no more than
      `until - from` pages are read, and as many answers end the walk. */
  lemma {:induction false} PagesAreFew(relay: Relay, from: int, until: int, answers: seq<Answer>)
    requires Sane(relay) && from < until <= I64_MAX && !CanStall(relay, from) && Honest(relay, from, until, answers)
    ensures |Pages(from, until, answers)| <= until - from
    ensures AllAnswered(answers) && |answers| >= until - from ==> Finished(from, until, answers)
    decreases |answers|
  {
    if Resolves(from, until) && answers != [] && answers[0].Some? && answers[0].value != [] {
      EarliestWasAsked(relay, from, until, answers[0].value);
      var next := NextUntil(until, answers[0].value);
      if Resolves(from, next) { PagesAreFew(relay, from, next, answers[1..]); }
    }
  }

  function Clock(e: Event): nat { e.createdAt }

  lemma {:induction false} NewestOf<T>(items: set<T>, clock: T -> nat) returns (newest: T)
    requires items != {}
    ensures newest in items && forall e | e in items :: clock(e) <= clock(newest)
  {
    newest :| newest in items;
    var rest := items - {newest};
    if rest != {} {
      var other := NewestOf(rest, clock);
      if clock(newest) < clock(other) { newest := other; }
    }
  }

  lemma OneMoreCarried<T>(x: T, page: seq<T>)
    ensures Carried([x] + page) == {x} + Carried(page)
    ensures forall y :: y in [x] + page <==> y == x || y in page
  {
  }

  /** The newest `n` of some items, newest first. */
  lemma {:induction false} NewestPage<T(!new)>(items: set<T>, clock: T -> nat, n: nat) returns (page: seq<T>)
    ensures Carried(page) <= items && |Carried(page)| == |page| <= n
    ensures Carried(page) != items ==> |page| == n
    ensures forall e, a | e in items - Carried(page) && a in page :: clock(e) <= clock(a)
    decreases n
  {
    page := [];
    if items == {} || n == 0 { return; }
    var newest := NewestOf(items, clock);
    var rest := NewestPage(items - {newest}, clock, n - 1);
    page := [newest] + rest;
    OneMoreCarried(newest, rest);
    assert newest !in Carried(rest);
  }

  lemma SomeAnswer(relay: Relay, filter: Filter) returns (page: seq<Event>)
    requires Sane(relay)
    ensures AnswersNewest(relay, filter, page) && (Holding(relay, filter) != {} ==> page != [])
  {
    page := NewestPage(Holding(relay, filter), Clock, relay.cap);
  }

  /** A relay with an event at second zero can keep a walk with a floor below it going
      for as many answers as it likes. */
  lemma {:induction false} WalkCanStall(relay: Relay, from: int, until: int, n: nat) returns (answers: seq<Answer>)
    requires Sane(relay) && Resolves(from, until) && until <= I64_MAX && CanStall(relay, from)
    ensures |answers| == n && AllAnswered(answers) && Honest(relay, from, until, answers)
    ensures !Finished(from, until, answers)
    decreases n
  {
    answers := [];
    if n == 0 { return; }
    var page := SomeAnswer(relay, Asked(from, until));
    var zero :| zero in relay.held && zero.createdAt == 0;
    assert zero in Holding(relay, Asked(from, until));
    EarliestWasAsked(relay, from, until, page);
    var rest := WalkCanStall(relay, from, NextUntil(until, page), n - 1);
    answers := [Some(page)] + rest;
    assert answers[1..] == rest;
  }

  /** Main result: a walk that is always answered ends, after at most as many answers
      as its window has seconds, exactly when its floor is not in the century before
      the epoch or the relay holds nothing stamped at second zero. */
  lemma WalkEndsUnlessItStalls(relay: Relay, from: int, until: int)
    requires Sane(relay) && Resolves(from, until) && until <= I64_MAX
    ensures (forall answers
               | Honest(relay, from, until, answers) && AllAnswered(answers) && |answers| >= until - from ::
               Finished(from, until, answers))
       <==> !CanStall(relay, from)
  {
    if CanStall(relay, from) {
      var answers := WalkCanStall(relay, from, until, until - from);
    } else {
      forall answers | Honest(relay, from, until, answers) && AllAnswered(answers) && |answers| >= until - from
        ensures Finished(from, until, answers)
      {
        PagesAreFew(relay, from, until, answers);
      }
    }
  }

  // ---- Completeness ----

  /** The held events of one second. */
  function Second(relay: Relay, at: nat): set<Event> {
    set e | e in relay.held && e.createdAt == at
  }

  lemma {:induction false} LargerSet<T>(a: set<T>, b: set<T>)
    requires a <= b
    ensures |a| <= |b| && (a != b ==> |a| < |b|)
  {
    if a != {} {
      var x :| x in a;
      LargerSet(a - {x}, b - {x});
    }
  }

  /** What a page leaves above the next window is lost, and only a second with more
      events than a page carries can lose any. */
  lemma LeftAbove(relay: Relay, from: int, until: int, page: seq<Event>, e: Event)
    requires Sane(relay) && Resolves(from, until) && until <= I64_MAX
    requires AnswersNewest(relay, Asked(from, until), page)
    requires e in relay.held && from <= e.createdAt < until && e !in page
    requires page != [] ==> NextUntil(until, page) <= e.createdAt
    ensures |Second(relay, e.createdAt)| > relay.cap
  {
    FilterIsHalfOpen(from, until, e);
    assert e in Holding(relay, Asked(from, until));
    assert e !in Carried(page);
    assert page != [];
    EarliestWasAsked(relay, from, until, page);
    var i :| 0 <= i < |page| && page[i].createdAt == Earliest(page);
    assert e.createdAt <= page[i].createdAt;
    forall x | x in Carried(page) ensures x in Second(relay, e.createdAt) {
      FilterIsHalfOpen(from, until, x);
    }
    LargerSet(Carried(page), Second(relay, e.createdAt));
  }

  /** A walk that ended by itself has handed over every event the relay holds in the
      window, save at most some of a second that holds more events than one page
      carries. */
  lemma {:induction false} WalkIsComplete(relay: Relay, from: int, until: int, answers: seq<Answer>, e: Event)
    requires Sane(relay) && until - from <= MAX_WINDOW_SECS && until <= I64_MAX
    requires Honest(relay, from, until, answers) && Finished(from, until, answers)
    requires e in relay.held && from <= e.createdAt < until
    ensures e in Handed(Pages(from, until, answers)) || |Second(relay, e.createdAt)| > relay.cap
    decreases |answers|
  {
    var page := answers[0].value;
    if e in page {
      ReversedHolds(page);
    } else if page == [] || NextUntil(until, page) <= e.createdAt {
      LeftAbove(relay, from, until, page, e);
    } else {
      EarliestWasAsked(relay, from, until, page);
      WalkIsComplete(relay, from, NextUntil(until, page), answers[1..], e);
    }
  }

  /** Nothing is handed over but what the relay holds in the window, and below the epoch
      what it holds at second zero. */
  lemma {:induction false} HandedAreHeld(relay: Relay, from: int, until: int, answers: seq<Answer>, e: Event)
    requires Sane(relay) && until <= I64_MAX && Honest(relay, from, until, answers)
    requires e in Handed(Pages(from, until, answers))
    ensures e in relay.held && from <= e.createdAt
    ensures e.createdAt < until || (from < until <= 0 && e.createdAt == 0)
    decreases |answers|
  {
    var page := answers[0].value;
    ReversedHolds(page);
    EarliestWasAsked(relay, from, until, page);
    if e in page {
      assert e in Carried(page);
      FilterIsHalfOpen(from, until, e);
    } else {
      HandedAreHeld(relay, from, NextUntil(until, page), answers[1..], e);
    }
  }

  // ---- When nothing can be lost ----

  /** Of the newest `n` of some items, none is older than an item that as many others are
      no older than. */
  lemma NoneOlder<T(!new)>(items: set<T>, clock: T -> nat, page: seq<T>, peers: set<T>, at: nat)
    requires peers <= items && (forall x | x in peers :: clock(x) == at) && |page| <= |peers|
    requires forall e, a | e in items - Carried(page) && a in page :: clock(e) <= clock(a)
    ensures forall a | a in page :: at <= clock(a)
  {
    CarriedIsNoLarger(page);
    forall a | a in page ensures at <= clock(a) {
      assert a in Carried(page);
      if clock(a) < at {
        forall x | x in peers ensures x in Carried(page) - {a} { }
        LargerSet(peers, Carried(page) - {a});
        assert false;
      }
    }
  }

  lemma {:induction false} CarriedIsNoLarger<T>(page: seq<T>)
    ensures |Carried(page)| <= |page|
  {
    if page == [] {
      assert Carried(page) == {};
    } else {
      CarriedIsNoLarger(page[1..]);
      assert page == [page[0]] + page[1..];
      OneMoreCarried(page[0], page[1..]);
    }
  }

  /** Out of a second with more events than a page carries, a relay may leave any one. */
  lemma AnswerWithout(relay: Relay, from: int, until: int, lost: Event) returns (page: seq<Event>)
    requires Sane(relay) && Resolves(from, until) && until <= I64_MAX
    requires lost in relay.held && from <= lost.createdAt < until && |Second(relay, lost.createdAt)| > relay.cap
    ensures AnswersNewest(relay, Asked(from, until), page) && page != [] && lost !in page
    ensures lost.createdAt <= Earliest(page)
  {
    var held := Holding(relay, Asked(from, until));
    var peers := Second(relay, lost.createdAt) - {lost};
    SecondIsAsked(relay, from, until, lost.createdAt);
    page := NewestPage(held - {lost}, Clock, relay.cap);
    LargerSet(peers, held - {lost});
    NoneOlder(held - {lost}, Clock, page, peers, lost.createdAt);
    assert lost !in Carried(page);
    assert Carried<Event>([]) == {};
    FilterIsHalfOpen(from, until, lost);
    var i :| 0 <= i < |page| && page[i].createdAt == Earliest(page);
    assert Clock(page[i]) >= lost.createdAt;
    LeavesOut(held, lost, page, relay);
  }

  lemma SecondIsAsked(relay: Relay, from: int, until: int, at: nat)
    requires Sane(relay) && Resolves(from, until) && until <= I64_MAX && from <= at < until
    ensures Second(relay, at) <= Holding(relay, Asked(from, until))
  {
    forall e | e in Second(relay, at) ensures e in Holding(relay, Asked(from, until)) {
      FilterIsHalfOpen(from, until, e);
    }
  }

  lemma LeavesOut(held: set<Event>, lost: Event, page: seq<Event>, relay: Relay)
    requires Carried(page) <= held - {lost} && |held - {lost}| >= relay.cap && |Carried(page)| == |page|
    requires Carried(page) != held - {lost} ==> |page| == relay.cap
    requires forall e, a | e in held - {lost} - Carried(page) && a in page :: Clock(e) <= Clock(a)
    requires forall a | a in page :: lost.createdAt <= Clock(a)
    ensures |Carried(page)| >= relay.cap
    ensures forall e, a | e in held - Carried(page) && a in page :: e.createdAt <= a.createdAt
  {
    forall e, a | e in held - Carried(page) && a in page ensures e.createdAt <= a.createdAt {
      assert Clock(e) == e.createdAt && Clock(a) == a.createdAt;
      if e != lost { assert e in held - {lost} - Carried(page); }
    }
  }

  /** A relay can always answer a walk to its end. */
  lemma {:induction false} SomeEnd(relay: Relay, from: int, until: int) returns (answers: seq<Answer>)
    requires Sane(relay) && until <= I64_MAX && !CanStall(relay, from)
    ensures Honest(relay, from, until, answers) && Finished(from, until, answers)
    decreases if Resolves(from, until) then until - from else 0
  {
    answers := [];
    if !Resolves(from, until) { return; }
    var page := SomeAnswer(relay, Asked(from, until));
    answers := [Some(page)];
    if page == [] { return; }
    EarliestWasAsked(relay, from, until, page);
    var rest := SomeEnd(relay, from, NextUntil(until, page));
    answers := [Some(page)] + rest;
    assert answers[1..] == rest;
  }

  lemma {:induction false} SecondCanLose(relay: Relay, from: int, until: int, lost: Event)
    returns (answers: seq<Answer>)
    requires Sane(relay) && Resolves(from, until) && until <= I64_MAX && !CanStall(relay, from)
    requires lost in relay.held && from <= lost.createdAt < until && |Second(relay, lost.createdAt)| > relay.cap
    ensures Honest(relay, from, until, answers) && Finished(from, until, answers)
    ensures lost !in Handed(Pages(from, until, answers))
    decreases until - from
  {
    var page := AnswerWithout(relay, from, until, lost);
    EarliestWasAsked(relay, from, until, page);
    var next := NextUntil(until, page);
    var rest;
    if lost.createdAt < next {
      rest := SecondCanLose(relay, from, next, lost);
    } else {
      rest := SomeEnd(relay, from, next);
      if lost in Handed(Pages(from, next, rest)) { HandedAreHeld(relay, from, next, rest, lost); }
    }
    answers := [Some(page)] + rest;
    assert answers[1..] == rest;
    HandedNext(Pages(from, until, answers), page, Pages(from, next, rest), []);
    ReversedHolds(page);
  }

  /** Whether a walk hands over everything the relay holds in the window. */
  ghost predicate HandsOverAll(relay: Relay, from: int, until: int, answers: seq<Answer>) {
    forall e | e in relay.held && from <= e.createdAt < until :: e in Handed(Pages(from, until, answers))
  }

  /** Main result: whatever the relay answers, a walk that ends by itself hands over
      everything it holds in the window, if and only if no second of the window holds more
      events than one page carries. */
  lemma CompleteExactlyWhen(relay: Relay, from: int, until: int)
    requires Sane(relay) && Resolves(from, until) && until <= I64_MAX && !CanStall(relay, from)
    ensures (forall answers | Honest(relay, from, until, answers) && Finished(from, until, answers) ::
               HandsOverAll(relay, from, until, answers))
       <==> forall e | e in relay.held && from <= e.createdAt < until :: |Second(relay, e.createdAt)| <= relay.cap
  {
    if lost :| lost in relay.held && from <= lost.createdAt < until && |Second(relay, lost.createdAt)| > relay.cap {
      var answers := SecondCanLose(relay, from, until, lost);
      assert !HandsOverAll(relay, from, until, answers);
    } else {
      forall answers | Honest(relay, from, until, answers) && Finished(from, until, answers)
        ensures HandsOverAll(relay, from, until, answers)
      {
        forall e | e in relay.held && from <= e.createdAt < until ensures e in Handed(Pages(from, until, answers)) {
          WalkIsComplete(relay, from, until, answers, e);
        }
      }
    }
  }

  // ---- The walk over the database ----

  /** Events brought by one relay, one after the other. */
  function Brings(url: Url, now: int, events: seq<Event>): seq<Attempt> {
    if events == [] then []
    else Brings(url, now, events[..|events| - 1]) + [Committed(Delivery(events[|events| - 1], url, now))]
  }

  lemma {:induction false} BringsHolds(url: Url, now: int, events: seq<Event>)
    ensures |Brings(url, now, events)| == |events|
    ensures forall i | 0 <= i < |events| :: Brings(url, now, events)[i] == Committed(Delivery(events[i], url, now))
  {
    if events != [] { BringsHolds(url, now, events[..|events| - 1]); }
  }

  lemma OneMoreBrought(r: Rules, t: Tables, url: Url, now: int, events: seq<Event>, e: Event)
    ensures var before, d := Brings(url, now, events), Delivery(e, url, now);
            && RunFrom(r, t, Brings(url, now, events + [e])) == Step(r, RunFrom(r, t, before), d)
            && TallyOf(r, t, Brings(url, now, events + [e]))
               == TallyOf(r, t, before).Record(OutcomeOf(r, RunFrom(r, t, before), e))
  {
    assert (events + [e])[..|events|] == events;
    OneMoreStep(r, t, Brings(url, now, events), Delivery(e, url, now));
    OneMoreTallied(r, t, Brings(url, now, events), Delivery(e, url, now));
  }

  lemma RecordCounts(tally: Tally, outcome: Outcome)
    ensures tally.Record(outcome).Total() == tally.Total() + 1
  {
  }

  function Counted(r: Rules, t: Tables, url: Url, now: int, events: seq<Event>): nat {
    TallyOf(r, t, Brings(url, now, events)).Total()
  }

  lemma OneMoreCounted(r: Rules, t: Tables, url: Url, now: int, events: seq<Event>, e: Event)
    ensures Counted(r, t, url, now, events + [e]) == Counted(r, t, url, now, events) + 1
  {
    OneMoreBrought(r, t, url, now, events, e);
    RecordCounts(TallyOf(r, t, Brings(url, now, events)), OutcomeOf(r, RunFrom(r, t, Brings(url, now, events)), e));
  }

  lemma NothingCounted(r: Rules, t: Tables, url: Url, now: int)
    ensures Counted(r, t, url, now, []) == 0
  {
  }

  /** Everything delivered is counted once. */
  lemma {:induction false} EverythingIsCounted(r: Rules, t: Tables, url: Url, now: int, events: seq<Event>)
    ensures Counted(r, t, url, now, events) == |events|
  {
    if events == [] {
      NothingCounted(r, t, url, now);
    } else {
      var front, last := events[..|events| - 1], events[|events| - 1];
      EverythingIsCounted(r, t, url, now, front);
      OneMoreCounted(r, t, url, now, front, last);
      assert events == front + [last];
    }
  }

  /** Whether a database stands, and is tallied, as after these events of one relay. */
  predicate HasIngested(r: Rules, start: Tables, url: Url, now: int, events: seq<Event>, t: Tables, counts: Tally) {
    t == RunFrom(r, start, Brings(url, now, events)) && counts == TallyOf(r, start, Brings(url, now, events))
  }

  lemma IngestedNext(r: Rules, start: Tables, url: Url, now: int, events: seq<Event>, t: Tables, counts: Tally,
                     e: Event)
    requires HasIngested(r, start, url, now, events, t, counts)
    ensures HasIngested(r, start, url, now, events + [e], Step(r, t, Delivery(e, url, now)),
                        counts.Record(OutcomeOf(r, t, e)))
  {
    OneMoreBrought(r, start, url, now, events, e);
  }

  /** Feeds one page to the pipeline, from its last event to its first. */
  method IngestAll(db: Store, r: Rules, page: seq<Event>, url: Url, now: int, ghost start: Tables,
                   ghost done: seq<Event>, before: Tally)
    returns (counts: Tally)
    requires HasIngested(r, start, url, now, done, db.View(), before)
    modifies db
    ensures HasIngested(r, start, url, now, done + Reversed(page), db.View(), counts)
  {
    counts := before;
    ghost var fed := done;
    assert page[|page|..] == [] && done + [] == done;
    for i := |page| downto 0
      invariant fed == done + Reversed(page[i..])
      invariant HasIngested(r, start, url, now, fed, db.View(), counts)
    {
      IngestedNext(r, start, url, now, fed, db.View(), counts, page[i]);
      OneShorter(page, i);
      var outcome := db.Ingest(r, Delivery(page[i], url, now));
      counts := counts.Record(outcome);
      fed := fed + [page[i]];
    }
    assert page[0..] == page;
  }

  /** What a relay holds of what it is asked for. */
  function Narrowed(holder: Relay, q: Request): Relay {
    holder.(held := set e | e in holder.held && Fits(q, e))
  }

  /** Whether a relay answers what it is asked honestly, to the end of the walk. */
  ghost predicate Serves(holder: Relay, q: Request, from: int, until: int, answers: seq<Answer>) {
    && Sane(holder) && until - from <= 3_155_760_000 && until <= I64_MAX
    && Honest(Narrowed(holder, q), from, until, answers) && Finished(from, until, answers)
  }

  /** Whether such a relay has to come out with an event: it holds it, was asked for it,
      and its second is not overfull. */
  ghost predicate Owes(holder: Relay, q: Request, from: int, until: int, answers: seq<Answer>, e: Event) {
    && Serves(holder, q, from, until, answers)
    && e in holder.held && Fits(q, e) && from <= e.createdAt < until
    && |Second(Narrowed(holder, q), e.createdAt)| <= holder.cap
  }

  lemma OwedIsHandedOver(holder: Relay, q: Request, from: int, until: int, answers: seq<Answer>, e: Event)
    requires Owes(holder, q, from, until, answers, e)
    ensures e in Handed(Pages(from, until, answers))
  {
    WalkIsComplete(Narrowed(holder, q), from, until, answers, e);
  }

  /** One relay, one kind, from the top of the range down to its floor. `answers` is
      what the relay says, request by request; where they end, it has failed. An untagged
      kind is asked for exactly when somebody is listed or proven, and a tagged one
      always; what a relay then owes is handed over. */
  method Walk(db: Store, r: Rules, url: Url, kind: Kind, from: int, until: int, now: int, answers: seq<Answer>)
    returns (counts: Tally)
    modifies db
    ensures var handed := Handed(Pages(from, until, answers));
            var asks := (kind == 30078 || kind == 10002) ==>
                          exists pubkey :: pubkey in r.policy.instances || IsPlatformProven(old(db.Derived()), pubkey);
            && (asks ==> HasIngested(r, old(db.View()), url, now, handed, db.View(), counts)
                         && counts.Total() == |handed|)
            && (!asks ==> db.View() == old(db.View()) && counts == NO_TALLY)
            && forall holder, q, e | ForKind(r, old(db.Derived()), kind) == Some(q)
                                     && Owes(holder, q, from, until, answers, e) :: asks && e in handed
  {
    counts := NO_TALLY;
    NobodyToAsk(r, db.Derived(), kind);
    forall holder, q, e | Owes(holder, q, from, until, answers, e) ensures e in Handed(Pages(from, until, answers)) {
      OwedIsHandedOver(holder, q, from, until, answers, e);
    }
    if ForKind(r, db.Derived(), kind).Some? {
      ghost var start := db.View();
      counts := WalkPages(db, r, url, from, until, now, answers);
      EverythingIsCounted(r, start, url, now, Handed(Pages(from, until, answers)));
    }
  }

  lemma NothingIngested(r: Rules, start: Tables, url: Url, now: int)
    ensures HasIngested(r, start, url, now, [], start, NO_TALLY)
  {
  }

  /** The loop: a page, the next bound, until the floor is met, a page is empty or the
      relay fails. */
  method WalkPages(db: Store, r: Rules, url: Url, from: int, until: int, now: int, answers: seq<Answer>)
    returns (counts: Tally)
    modifies db
    ensures HasIngested(r, old(db.View()), url, now, Handed(Pages(from, until, answers)), db.View(), counts)
  {
    counts := NO_TALLY;
    ghost var start, done: seq<Event>, all := db.View(), [], Handed(Pages(from, until, answers));
    NothingIngested(r, start, url, now);
    AllLeft(from, until, answers);
    var bound, next := until, 0;
    while WalksOn(from, bound, answers, next)
      invariant next <= |answers|
      invariant HasIngested(r, start, url, now, done, db.View(), counts)
      invariant LeftToHand(all, done, from, bound, answers, next)
      decreases |answers| - next
    {
      var page := answers[next].value;
      HandsNext(all, done, from, bound, answers, next);
      counts := IngestAll(db, r, page, url, now, start, done, counts);
      done := done + Reversed(page);
      bound := NextUntil(bound, page);
      next := next + 1;
    }
    NothingLeft(all, done, from, bound, answers, next);
  }

  lemma AllLeft(from: int, until: int, answers: seq<Answer>)
    ensures LeftToHand(Handed(Pages(from, until, answers)), [], from, until, answers, 0)
  {
    assert answers[0..] == answers;
  }

  /** Whether the walk goes on to answer number `next`: the window is not closed and the
      answer is a page with something on it. */
  predicate WalksOn(from: int, bound: int, answers: seq<Answer>, next: nat)
    requires next <= |answers|
  {
    Resolves(from, bound) && next < |answers| && answers[next].Some? && answers[next].value != []
  }

  predicate LeftToHand(all: seq<Event>, done: seq<Event>, from: int, bound: int, answers: seq<Answer>, next: nat)
    requires next <= |answers|
  {
    all == done + Handed(Pages(from, bound, answers[next..]))
  }

  lemma HandsNext(all: seq<Event>, done: seq<Event>, from: int, bound: int, answers: seq<Answer>, next: nat)
    requires next <= |answers| && WalksOn(from, bound, answers, next)
    requires LeftToHand(all, done, from, bound, answers, next)
    ensures var page := answers[next].value;
            LeftToHand(all, done + Reversed(page), from, NextUntil(bound, page), answers, next + 1)
  {
    var page := answers[next].value;
    OneShorter(answers, next);
    HandedNext(Pages(from, bound, answers[next..]), page, Pages(from, NextUntil(bound, page), answers[next + 1..]),
               done);
  }

  lemma NothingLeft(all: seq<Event>, done: seq<Event>, from: int, bound: int, answers: seq<Answer>, next: nat)
    requires next <= |answers| && !WalksOn(from, bound, answers, next)
    requires LeftToHand(all, done, from, bound, answers, next)
    ensures all == done
  {
    assert Pages(from, bound, answers[next..]) == [];
    assert done + [] == done;
  }

  lemma OneShorter<T>(s: seq<T>, n: nat)
    requires n < |s|
    ensures s[n..][1..] == s[n + 1..] && s[n..][0] == s[n]
  {
  }

  lemma HandedNext(pages: seq<seq<Event>>, page: seq<Event>, rest: seq<seq<Event>>, done: seq<Event>)
    requires pages == [page] + rest
    ensures done + Handed(pages) == done + Reversed(page) + Handed(rest)
  {
    assert pages[1..] == rest;
    assert Handed(pages) == Reversed(page) + Handed(rest);
  }
}
