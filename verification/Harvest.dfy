/** What a walk of an untagged kind brings home: every relay named and every hour priced by
    what the walked relay held. */
module Harvest {
  import opened Events
  import opened Schema
  import opened Grouping
  import opened Pipeline
  import opened Admission
  import opened Reachability
  import opened Confluence
  import opened Priming
  import opened Requests
  import opened Backfill

  // ---- What stays once it is there ----

  predicate HasPrice(rates: Rows<RateSnapshot>, e: Event, publishedAt: nat) {
    exists id | id in rates :: rates[id].pubkey == e.pubkey && rates[id].publishedAt / 3600 == publishedAt / 3600
  }

  /** Whether what an untagged event says is in the tables: its relays are known, or its
      publisher's prices of its hour. */
  predicate IsKnown(p: Parsers, t: Tables, e: Event) {
    && RelaysNamed(p, e) <= t.relays.Keys
    && (e.kind == 30078 && ReadRates(p, e).Some? ==> HasPrice(t.derived.rates, e, ReadRates(p, e).value.publishedAt))
  }

  lemma PriceStays(before: Rows<RateSnapshot>, after: Rows<RateSnapshot>, e: Event, publishedAt: nat)
    requires HasPrice(before, e, publishedAt) && forall id | id in before :: id in after && after[id] == before[id]
    ensures HasPrice(after, e, publishedAt)
  {
    var id :| id in before && before[id].pubkey == e.pubkey && before[id].publishedAt / 3600 == publishedAt / 3600;
    assert id in after && after[id] == before[id];
  }

  lemma KnownStays(r: Rules, t: Tables, d: Delivery, e: Event)
    requires IsKnown(r.parsers, t, e)
    ensures IsKnown(r.parsers, Step(r, t, d), e)
  {
    StepRelays(r, t, d);
    RatesGrow(r, t, d);
    if e.kind == 30078 && ReadRates(r.parsers, e).Some? {
      PriceStays(t.derived.rates, Step(r, t, d).derived.rates, e, ReadRates(r.parsers, e).value.publishedAt);
    }
  }

  lemma {:induction false} KnownStaysInRun(r: Rules, t: Tables, attempts: seq<Attempt>, e: Event)
    requires IsKnown(r.parsers, t, e)
    ensures IsKnown(r.parsers, RunFrom(r, t, attempts), e)
  {
    if attempts != [] {
      var n := |attempts| - 1;
      KnownStaysInRun(r, t, attempts[..n], e);
      if attempts[n].Committed? { KnownStays(r, RunFrom(r, t, attempts[..n]), attempts[n].delivery, e); }
    }
  }

  // ---- One delivery ----

  lemma ArchivedIsKnown(r: Rules, t: Tables, e: Event)
    requires Inv(r, t) && e.id in t.events && t.events[e.id].event == e
    ensures IsKnown(r.parsers, t, e)
  {
    if e.kind == 30078 && ReadRates(r.parsers, e).Some? {
      DerivedRows(r, t, e.id);
      assert t.derived.rates[e.id].publishedAt == ReadRates(r.parsers, e).value.publishedAt;
    }
  }

  lemma ListRepeats(r: Rules, t: Tables, e: Event)
    requires OutcomeOf(r, t, e) == Redundant && e.kind == RELAY_LIST
    ensures Parses(r.parsers, e) && RepeatsPredecessor(t.events, e)
  {
  }

  lemma RepeatedList(r: Rules, t: Tables, e: Event)
    requires RelaysFollow(r.parsers, t.events, t.relays)
    requires e.kind == RELAY_LIST && Parses(r.parsers, e) && RepeatsPredecessor(t.events, e)
    ensures RelaysNamed(r.parsers, e) <= t.relays.Keys
  {
    PredecessorParses(r, t.events, e);
    SameRelays(r.parsers, t.events[Ranking.Newest(Preceding(t.events, e))].event, e);
  }

  lemma RepeatedIsKnown(r: Rules, t: Tables, e: Event)
    requires Inv(r, t) && OutcomeOf(r, t, e) == Redundant && e.kind in UNTAGGED_KINDS
    ensures IsKnown(r.parsers, t, e)
  {
    if e.kind == RELAY_LIST {
      ListRepeats(r, t, e);
      RepeatedList(r, t, e);
    } else {
      PriceIsThere(r, t, e);
    }
  }

  /** A welcome event of an untagged kind leaves what it says in the tables, stored or
      not. */
  lemma LetInIsKnown(r: Rules, t: Tables, d: Delivery)
    requires Inv(r, t) && d.event.kind in UNTAGGED_KINDS && !OutcomeOf(r, t, d.event).Rejected?
    requires d.event.id in t.events ==> t.events[d.event.id].event == d.event
    ensures IsKnown(r.parsers, Step(r, t, d), d.event)
  {
    if OutcomeOf(r, t, d.event) == Redundant {
      RepeatedIsKnown(r, t, d.event);
      KnownStays(r, t, d, d.event);
    } else {
      StepKeeps(r, t, d);
      FiledOrThere(r, t, d);
      ArchivedIsKnown(r, Step(r, t, d), d.event);
    }
  }

  lemma SameRelays(p: Parsers, a: Event, b: Event)
    requires a.kind == b.kind && multiset(a.tags) == multiset(b.tags)
    ensures RelaysNamed(p, a) == RelaysNamed(p, b)
  {
  }

  lemma PriceIsThere(r: Rules, t: Tables, e: Event)
    requires OutcomeOf(r, t, e) == Redundant && e.kind == RATES
    ensures IsKnown(r.parsers, t, e)
  {
    var at := ReadRates(r.parsers, e).value.publishedAt;
    var id :| id in t.derived.rates && id != e.id && t.derived.rates[id].pubkey == e.pubkey
              && RatesBucket(t.derived.rates[id].publishedAt) == RatesBucket(at);
    assert HasPrice(t.derived.rates, e, at);
  }

  // ---- A whole walk ----

  /** An untagged event of a vouched publisher is let in whenever it is delivered. */
  lemma VouchedIsLetIn(r: Rules, t: Tables, attempts: seq<Attempt>, e: Event)
    requires Acceptable(r, e) && Parses(r.parsers, e) && Vouched(r, t, e)
    ensures !OutcomeOf(r, RunFrom(r, t, attempts), e).Rejected?
  {
    AdmitMeaning(r, e);
    if IsPlatformProven(t.derived, e.pubkey) { ProvenStaysInRun(r, t, attempts, e.pubkey); }
  }

  /** Main result: whatever was delivered before, a walk of an untagged kind that ended by
      itself leaves known every relay and every hour's price that the walked relay held, in
      the window, from publishers vouched for when it began; save some of a second that
      holds more events than one page carries. */
  lemma WalkBringsHome(r: Rules, before: seq<Attempt>, holder: Relay, url: Url, now: int, from: int, until: int,
                       answers: seq<Answer>, e: Event)
    requires e.kind in UNTAGGED_KINDS && Acceptable(r, e) && Parses(r.parsers, e) && Vouched(r, Run(r, before), e)
    requires var q := ForKind(r, Run(r, before).derived, e.kind);
             && q.Some? && Serves(holder, q.value, from, until, answers)
             && e in holder.held && from <= e.createdAt < until
             && |Second(Narrowed(holder, q.value), e.createdAt)| <= holder.cap
    requires CollisionFree(r, Delivered(before + Brings(url, now, Handed(Pages(from, until, answers)))))
    ensures IsKnown(r.parsers, Run(r, before + Brings(url, now, Handed(Pages(from, until, answers)))), e)
  {
    var handed := Handed(Pages(from, until, answers));
    WelcomeIsAskedFor(r, Run(r, before), e);
    OwedIsHandedOver(holder, ForKind(r, Run(r, before).derived, e.kind).value, from, until, answers, e);
    BringsHolds(url, now, handed);
    var i :| 0 <= i < |handed| && handed[i] == e;
    BroughtIsKnown(r, before, Brings(url, now, handed), i);
  }

  lemma BroughtIsKnown(r: Rules, before: seq<Attempt>, brought: seq<Attempt>, i: nat)
    requires i < |brought| && brought[i].Committed? && CollisionFree(r, Delivered(before + brought))
    requires var e := brought[i].delivery.event;
             e.kind in UNTAGGED_KINDS && Acceptable(r, e) && Parses(r.parsers, e) && Vouched(r, Run(r, before), e)
    ensures IsKnown(r.parsers, Run(r, before + brought), brought[i].delivery.event)
  {
    var d, all, n := brought[i].delivery, before + brought, |before| + i;
    var now, next := all[..n], all[..n + 1];
    assert now == before + brought[..i] && all == next + all[n + 1..] && next == now + [Committed(d)];
    RunOn(r, EMPTY, before, brought[..i]);
    VouchedIsLetIn(r, Run(r, before), brought[..i], d.event);
    Reachable(r, now);
    DeliveredHere(r, all, n);
    LetInIsKnown(r, Run(r, now), d);
    OneMoreStep(r, EMPTY, now, d);
    KnownStaysInRun(r, Run(r, next), all[n + 1..], d.event);
    RunOn(r, EMPTY, next, all[n + 1..]);
  }

  /** What is archived under the id of a delivered event is that event. */
  lemma DeliveredHere(r: Rules, attempts: seq<Attempt>, n: nat)
    requires CollisionFree(r, Delivered(attempts)) && n < |attempts| && attempts[n].Committed?
    requires Acceptable(r, attempts[n].delivery.event)
    ensures var archive, e := Run(r, attempts[..n]).events, attempts[n].delivery.event;
            e.id in archive ==> archive[e.id].event == e
  {
    var archive, e := Run(r, attempts[..n]).events, attempts[n].delivery.event;
    DeliveredGrows(attempts, n);
    Reachable(r, attempts[..n]);
    TradeArchive(r, attempts[..n]);
    if e.id in archive { assert archive[e.id].event in Delivered(attempts); }
  }
}
