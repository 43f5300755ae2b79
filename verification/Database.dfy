/** The database, rewritten in place one event at a time. */
module Database {
  import opened Prelude
  import opened Events
  import opened Schema
  import opened Grouping
  import opened Projection
  import opened Pipeline

  class Store {
    var events: Archive
    var orderVersions: Rows<OrderVersion>
    var orders: map<OrderId, Order>
    var disputeVersions: Rows<DisputeVersion>
    var disputes: map<DisputeId, Dispute>
    var devFees: Rows<Marked<DevFee>>
    var info: Rows<InstanceInfo>
    var rates: Rows<RateSnapshot>
    var relays: map<Url, RelayRow>
    var instances: map<PubKey, Instance>
    var names: map<(PubKey, string), nat>
    var cursors: map<(Url, Kind), Cursor>

    function Derived(): Derived
      reads this
    {
      Schema.Derived(orderVersions, orders, disputeVersions, disputes, devFees, info, rates)
    }

    function View(): Tables
      reads this
    {
      Tables(events, Derived(), relays, instances, names, cursors)
    }

    constructor ()
      ensures View() == EMPTY
    {
      events, orderVersions, orders, disputeVersions, disputes, devFees := map[], map[], map[], map[], map[], map[];
      info, rates, relays, instances, names, cursors := map[], map[], map[], map[], map[], map[];
    }

    /** The dedup gate: the first copy of an event is the one kept. */
    method InsertIfNew(d: Delivery) returns (isNew: bool)
      modifies this`events
      ensures isNew == (d.event.id !in old(events))
      ensures events == InsertOrIgnore(old(events), d.event.id, Archived(d.event, d.relay, d.now))
    {
      isNew := d.event.id !in events;
      if isNew {
        events := events[d.event.id := Archived(d.event, d.relay, d.now)];
      }
    }

    method RefreshOrder(orderId: OrderId)
      modifies this`orders
      ensures orders == Refresh(old(orders), orderVersions, OrderKey, ProjectOrder, orderId)
    {
      var versions := Group(orderVersions, OrderKey, orderId);
      if versions.Keys != {} {
        orders := orders[orderId := ProjectOrder(versions)];
      }
    }

    method RefreshDispute(disputeId: DisputeId)
      modifies this`disputes
      ensures disputes == Refresh(old(disputes), disputeVersions, DisputeKey, ProjectDispute, disputeId)
    {
      var versions := Group(disputeVersions, DisputeKey, disputeId);
      if versions.Keys != {} {
        disputes := disputes[disputeId := ProjectDispute(versions)];
      }
    }

    method RefreshDuplicates(orderId: OrderId)
      modifies this`devFees
      ensures devFees == RefreshFlags(old(devFees), FeeKey, FeeStamp, orderId)
    {
      devFees := RefreshFlags(devFees, FeeKey, FeeStamp, orderId);
    }

    /** The version, then the projection it feeds. */
    method Insert(parsed: Parsed)
      modifies this`orderVersions, this`orders, this`disputeVersions, this`disputes, this`devFees, this`info, this`rates
      ensures Derived() == AddRow(old(Derived()), parsed)
    {
      match parsed {
        case ParsedOrder(v) =>
          orderVersions := InsertOrIgnore(orderVersions, v.eventId, v);
          RefreshOrder(v.orderId);
        case ParsedFee(f) =>
          devFees := InsertOrIgnore(devFees, f.eventId, Marked(f, false));
          RefreshDuplicates(f.orderId);
        case ParsedDispute(v) =>
          disputeVersions := InsertOrIgnore(disputeVersions, v.eventId, v);
          RefreshDispute(v.disputeId);
        case ParsedInfo(i) => info := InsertOrIgnore(info, i.eventId, i);
        case ParsedRates(s) => rates := InsertOrIgnore(rates, s.eventId, s);
        case ParsedRelayList(_) =>
      }
    }

    /** One row per url the list names, in whatever order. */
    method UpsertRelayList(urls: set<Url>, source: Source, at: int)
      modifies this`relays
      ensures relays == UpsertRelays(old(relays), urls, source, at)
    {
      var todo := urls;
      while todo != {}
        invariant todo <= urls
        invariant relays == UpsertRelays(old(relays), urls - todo, source, at)
      {
        var url :| url in todo;
        todo := todo - {url};
        if url !in relays {
          relays := relays[url := RelayRow(source, at)];
        }
      }
    }

    method Persist(e: Event, parsed: Parsed)
      modifies this`orderVersions, this`orders, this`disputeVersions, this`disputes, this`devFees, this`info, this`rates
      modifies this`relays, this`instances, this`names
      ensures Derived() == AddRow(old(Derived()), parsed)
      ensures relays == UpsertRelays(old(relays), RelaysIn(Ok(parsed)), Nip65(e.pubkey), e.createdAt)
      ensures instances == UpsertInstance(old(instances), e.pubkey, InstanceName(e), e.createdAt)
      ensures names == RecordName(old(names), e.pubkey, InstanceName(e), e.createdAt)
    {
      var name := InstanceName(e);
      instances := UpsertInstance(instances, e.pubkey, name, e.createdAt);
      if name.Some? {
        names := RecordName(names, e.pubkey, name, e.createdAt);
      }
      Insert(parsed);
      RecordRelays(e, parsed);
    }

    /** The relays a list names; any other event names none. */
    method RecordRelays(e: Event, parsed: Parsed)
      modifies this`relays
      ensures relays == UpsertRelays(old(relays), RelaysIn(Ok(parsed)), Nip65(e.pubkey), e.createdAt)
    {
      if parsed.ParsedRelayList? {
        UpsertRelayList(parsed.relays, Nip65(e.pubkey), e.createdAt);
      } else {
        NoUrls(relays, Nip65(e.pubkey), e.createdAt);
      }
    }

    /** The cursor of this relay and kind moves forward, in neither clock back. */
    method Advance(d: Delivery)
      modifies this`cursors
      ensures cursors == WithCursor(old(cursors), d)
    {
      var key := (d.relay, d.event.kind);
      cursors := cursors[key := AdvanceCursor(Find(cursors, key), d.event.createdAt, d.now)];
    }

    /** One event, run through the whole pipeline. */
    method Ingest(r: Rules, d: Delivery) returns (outcome: Outcome)
      modifies this
      ensures View() == Step(r, old(View()), d)
      ensures outcome == OutcomeOf(r, old(View()), d.event)
    {
      var e := d.event;
      var rejection := Admit(r, e);
      if rejection.Some? {
        return Rejected(rejection.value);
      }
      if !Vouched(r, View(), e) {
        return Rejected(UnvouchedPublisher);
      }
      var read := Parse(r.parsers, e);
      if read.Err? {
        var _ := InsertIfNew(d);
        return Rejected(read.error);
      }
      outcome := Apply(r, d, read.value);
    }

    /** Step 6a: what a redundant event leaves behind. */
    method Touch(r: Rules, d: Delivery, parsed: Parsed)
      requires Admit(r, d.event).None? && Vouched(r, View(), d.event) && Parse(r.parsers, d.event) == Ok(parsed)
      requires IsRedundant(View(), d.event, parsed)
      modifies this`instances, this`cursors
      ensures View() == Step(r, old(View()), d)
    {
      StepRedundant(r, View(), d, parsed);
      instances := UpsertInstance(instances, d.event.pubkey, None, d.event.createdAt);
      Advance(d);
    }

    /** Steps 6 to 8 for an event that is worth keeping. */
    method Keep(r: Rules, d: Delivery, parsed: Parsed) returns (isNew: bool)
      requires Admit(r, d.event).None? && Vouched(r, View(), d.event) && Parse(r.parsers, d.event) == Ok(parsed)
      requires !IsRedundant(View(), d.event, parsed)
      modifies this
      ensures View() == Step(r, old(View()), d)
      ensures isNew == (d.event.id !in old(events))
    {
      isNew := d.event.id !in events;
      if isNew {
        StepStored(r, View(), d, parsed);
        Write(d, parsed);
      } else {
        StepDuplicate(r, View(), d, parsed);
        var kept := InsertIfNew(d);
        Advance(d);
      }
    }

    /** The first copy of an event: archived, projected, and advanced over. */
    method Write(d: Delivery, parsed: Parsed)
      requires d.event.id !in events
      modifies this
      ensures View() == Written(old(View()), d, parsed)
    {
      var isNew := InsertIfNew(d);
      Persist(d.event, parsed);
      Advance(d);
    }

    /** The transaction of an admitted event that parses. */
    method Apply(r: Rules, d: Delivery, parsed: Parsed) returns (outcome: Outcome)
      requires Admit(r, d.event).None? && Vouched(r, View(), d.event) && Parse(r.parsers, d.event) == Ok(parsed)
      modifies this
      ensures View() == Step(r, old(View()), d)
      ensures outcome == OutcomeOf(r, old(View()), d.event)
    {
      if IsRedundant(View(), d.event, parsed) {
        Touch(r, d, parsed);
        outcome := Redundant;
      } else {
        var isNew := Keep(r, d, parsed);
        outcome := if isNew then Stored else Duplicate;
      }
    }
  }

  /** A rejected event leaves no trace, unless it was admitted and only no parser reads
      it: then its raw form is archived, and nothing else. */
  lemma StepRejected(r: Rules, t: Tables, d: Delivery)
    requires OutcomeOf(r, t, d.event).Rejected?
    ensures var e := d.event;
            var kept := Admit(r, e).None? && Vouched(r, t, e) && e.id !in t.events;
            Step(r, t, d) == if kept then t.(events := t.events[e.id := Archived(e, d.relay, d.now)]) else t
  {
    NoUrls(t.relays, Nip65(d.event.pubkey), d.event.createdAt);
  }

  lemma StepRedundant(r: Rules, t: Tables, d: Delivery, parsed: Parsed)
    requires Admit(r, d.event).None? && Vouched(r, t, d.event) && Parse(r.parsers, d.event) == Ok(parsed)
    requires IsRedundant(t, d.event, parsed)
    ensures Step(r, t, d) == Tables(t.events, t.derived, t.relays,
                                    UpsertInstance(t.instances, d.event.pubkey, None, d.event.createdAt), t.names,
                                    WithCursor(t.cursors, d))
    ensures OutcomeOf(r, t, d.event) == Redundant
  {
  }

  lemma StepDuplicate(r: Rules, t: Tables, d: Delivery, parsed: Parsed)
    requires Admit(r, d.event).None? && Vouched(r, t, d.event) && Parse(r.parsers, d.event) == Ok(parsed)
    requires !IsRedundant(t, d.event, parsed) && d.event.id in t.events
    ensures Step(r, t, d) == t.(cursors := WithCursor(t.cursors, d)) && OutcomeOf(r, t, d.event) == Duplicate
  {
  }

  /** The tables once a new event has been archived and projected. */
  function Written(t: Tables, d: Delivery, parsed: Parsed): Tables {
    var e := d.event;
    Tables(t.events[e.id := Archived(e, d.relay, d.now)], AddRow(t.derived, parsed),
           UpsertRelays(t.relays, RelaysIn(Ok(parsed)), Nip65(e.pubkey), e.createdAt),
           UpsertInstance(t.instances, e.pubkey, InstanceName(e), e.createdAt),
           RecordName(t.names, e.pubkey, InstanceName(e), e.createdAt), WithCursor(t.cursors, d))
  }

  lemma StepStored(r: Rules, t: Tables, d: Delivery, parsed: Parsed)
    requires Admit(r, d.event).None? && Vouched(r, t, d.event) && Parse(r.parsers, d.event) == Ok(parsed)
    requires !IsRedundant(t, d.event, parsed) && d.event.id !in t.events
    ensures Step(r, t, d) == Written(t, d, parsed) && OutcomeOf(r, t, d.event) == Stored
  {
  }
}
