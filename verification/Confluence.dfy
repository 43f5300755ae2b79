/** Arrival order does not matter to orders, disputes and dev fees. */
module Confluence {
  import opened Ranking
  import opened Events
  import opened Schema
  import opened Projection
  import opened Pipeline
  import opened Admission
  import opened Reachability

  /** The kinds whose every version is kept. */
  const TRADE_KINDS: set<Kind> := {ORDER, DEV_FEE, DISPUTE}

  /** The events some committed attempt brought. */
  function Delivered(attempts: seq<Attempt>): set<Event> {
    set a | a in attempts && a.Committed? :: a.delivery.event
  }

  /** An id names one event: it is the hash the signature covers. */
  ghost predicate CollisionFree(r: Rules, events: set<Event>) {
    forall a, b | a in events && b in events && r.parsers.verify(a) && r.parsers.verify(b) && a.id == b.id :: a == b
  }

  function Wanted(r: Rules, events: set<Event>): set<Event> {
    set e | e in events && e.kind in TRADE_KINDS && Acceptable(r, e)
  }

  function TradeEvents(archive: Archive): set<Event> {
    set id | id in archive && archive[id].event.kind in TRADE_KINDS :: archive[id].event
  }

  ghost predicate ArchiveWithin(archive: Archive, events: set<Event>) {
    forall id | id in archive :: archive[id].event in events
  }

  /** An admitted event of a trade kind is archived unless its id already is. */
  lemma TradeIsFiled(r: Rules, t: Tables, e: Event)
    requires e.kind in TRADE_KINDS
    ensures Files(r, t, e) <==> e.id !in t.events && Acceptable(r, e)
  {
    AdmitMeaning(r, e);
  }

  lemma TradeGrows(archive: Archive, row: Archived)
    requires row.event.id !in archive
    ensures TradeEvents(archive[row.event.id := row])
         == TradeEvents(archive) + if row.event.kind in TRADE_KINDS then {row.event} else {}
  {
    var grown := archive[row.event.id := row];
    assert grown[row.event.id] == row;
    forall id | id in archive && archive[id].event.kind in TRADE_KINDS
      ensures archive[id].event in TradeEvents(grown)
    {
      assert grown[id] == archive[id];
    }
  }

  lemma OneMoreDelivery(r: Rules, t: Tables, d: Delivery, events: set<Event>)
    requires WellKeyed(r, t.events) && ArchiveWithin(t.events, events)
    requires CollisionFree(r, events + {d.event})
    requires TradeEvents(t.events) == Wanted(r, events)
    ensures ArchiveWithin(Step(r, t, d).events, events + {d.event})
    ensures TradeEvents(Step(r, t, d).events) == Wanted(r, events + {d.event})
  {
    var e := d.event;
    assert Wanted(r, events + {e}) == Wanted(r, events) + Wanted(r, {e});
    if Files(r, t, e) { TradeGrows(t.events, Archived(e, d.relay, d.now)); }
    if e.kind in TRADE_KINDS {
      TradeIsFiled(r, t, e);
      if Acceptable(r, e) && e.id in t.events {
        var kept := t.events[e.id].event;
        assert kept in events && Acceptable(r, kept);
        assert kept == e;
      }
    }
  }

  /** The archive of a run holds exactly the admitted trade events delivered. */
  lemma {:induction false} TradeArchive(r: Rules, attempts: seq<Attempt>)
    requires CollisionFree(r, Delivered(attempts))
    ensures ArchiveWithin(Run(r, attempts).events, Delivered(attempts))
    ensures TradeEvents(Run(r, attempts).events) == Wanted(r, Delivered(attempts))
  {
    if attempts != [] {
      var n := |attempts| - 1;
      var before := attempts[..n];
      assert attempts == before + [attempts[n]];
      assert Delivered(attempts)
          == Delivered(before) + if attempts[n].Committed? then {attempts[n].delivery.event} else {};
      TradeArchive(r, before);
      Reachable(r, before);
      if attempts[n].Committed? {
        OneMoreDelivery(r, Run(r, before), attempts[n].delivery, Delivered(before));
      }
    }
  }

  /** A version table over trade kinds depends on the archived trade events alone. */
  lemma SelectAgrees<R>(r: Rules, a: Archive, b: Archive, pick: Pick<R>)
    requires WellKeyed(r, a) && WellKeyed(r, b) && TradeEvents(a) == TradeEvents(b)
    requires forall e :: pick(r.parsers, e).Some? ==> e.kind in TRADE_KINDS
    ensures Select(r.parsers, a, pick) == Select(r.parsers, b, pick)
  {
    forall id ensures id in Select(r.parsers, a, pick) ==>
                        id in Select(r.parsers, b, pick) && b[id].event == a[id].event {
      if id in Select(r.parsers, a, pick) { TradeEventKept(r, a, b, id); }
    }
    forall id ensures id in Select(r.parsers, b, pick) ==> id in Select(r.parsers, a, pick) {
      if id in Select(r.parsers, b, pick) { TradeEventKept(r, b, a, id); }
    }
  }

  lemma TradeEventKept(r: Rules, a: Archive, b: Archive, id: EventId)
    requires WellKeyed(r, a) && WellKeyed(r, b) && TradeEvents(a) == TradeEvents(b)
    requires id in a && a[id].event.kind in TRADE_KINDS
    ensures id in b && b[id].event == a[id].event
  {
    assert a[id].event in TradeEvents(b);
    var other :| other in b && b[other].event == a[id].event;
  }

  /** Main result: two runs that were brought the same events, in any order, with
      any repeats, by any relays, and with any transactions aborted on the way, end
      with the same versions, the same projections and the same duplicate flags. */
  lemma ArrivalOrderDoesNotMatter(r: Rules, one: seq<Attempt>, other: seq<Attempt>)
    requires CollisionFree(r, Delivered(one))
    requires Delivered(one) == Delivered(other)
    ensures var a, b := Run(r, one).derived, Run(r, other).derived;
            && a.orderVersions == b.orderVersions && a.orders == b.orders
            && a.disputeVersions == b.disputeVersions && a.disputes == b.disputes
            && a.devFees == b.devFees
    ensures TradeEvents(Run(r, one).events) == TradeEvents(Run(r, other).events)
  {
    TradeArchive(r, one);
    TradeArchive(r, other);
    Reachable(r, one);
    Reachable(r, other);
    var a, b := Run(r, one).events, Run(r, other).events;
    SelectAgrees(r, a, b, AsOrder);
    SelectAgrees(r, a, b, AsDispute);
    SelectAgrees(r, a, b, AsFee);
  }
}
