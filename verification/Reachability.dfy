/** What holds in every state the pipeline reaches. */
module Reachability {
  import opened Prelude
  import opened Ranking
  import opened Events
  import opened Schema
  import opened Grouping
  import opened Projection
  import opened Pipeline
  import opened Admission

  /** Rows are kept under the id of their event, and every one was admitted. */
  ghost predicate WellKeyed(r: Rules, archive: Archive) {
    forall id | id in archive :: archive[id].event.id == id && Acceptable(r, archive[id].event)
  }

  /** Everybody who published an archived event that parses. */
  function Publishers(p: Parsers, archive: Archive): set<PubKey> {
    set id | id in archive && Parses(p, archive[id].event) :: archive[id].event.pubkey
  }

  /** The bestiary lists exactly those, and spans at least what is archived. */
  ghost predicate Sightings(p: Parsers, t: Tables) {
    && t.instances.Keys == Publishers(p, t.events)
    && forall id | id in t.events && Parses(p, t.events[id].event) :: Spans(t.instances, t.events[id].event)
  }

  predicate Spans(instances: map<PubKey, Instance>, e: Event) {
    e.pubkey in instances
    && instances[e.pubkey].firstSeenAt <= e.createdAt <= instances[e.pubkey].lastSeenAt
  }

  /** The relays an event names: those of a relay list. */
  function RelaysNamed(p: Parsers, e: Event): set<Url> {
    if e.kind == 10002 then p.relays(multiset(e.tags)) else {}
  }

  /** Whether a row says who named the relay, and when: the publisher and the clock of an
      archived list. */
  predicate IsNamedAs(p: Parsers, archive: Archive, url: Url, row: RelayRow) {
    exists id | id in archive ::
      && url in RelaysNamed(p, archive[id].event)
      && row == RelayRow(Nip65(archive[id].event.pubkey), archive[id].event.createdAt)
  }

  /** Every relay an archived list names is known, and every row but the operator's own
      says which list named it. */
  ghost predicate RelaysFollow(p: Parsers, archive: Archive, relays: map<Url, RelayRow>) {
    && (forall id | id in archive :: RelaysNamed(p, archive[id].event) <= relays.Keys)
    && (forall url | url in relays && relays[url].source.Nip65? :: IsNamedAs(p, archive, url, relays[url]))
  }

  /** At most one snapshot per publisher and hour. */
  ghost predicate OnePerHour(rates: Rows<RateSnapshot>) {
    forall a, b | a in rates && b in rates && a != b && rates[a].pubkey == rates[b].pubkey ::
      rates[a].publishedAt / 3600 != rates[b].publishedAt / 3600
  }

  predicate Trusted(r: Rules, t: Derived, pubkey: PubKey) {
    pubkey in r.policy.instances || IsPlatformProven(t, pubkey)
  }

  /** Nobody sets a price or names a relay without being listed or proven. */
  ghost predicate FeedsTrusted(r: Rules, t: Derived, relays: map<Url, RelayRow>) {
    && (forall id | id in t.rates :: Trusted(r, t, t.rates[id].pubkey))
    && (forall url | url in relays && relays[url].source.Nip65? :: Trusted(r, t, relays[url].source.pubkey))
  }

  predicate SaysName(p: Parsers, e: Event, pubkey: PubKey, name: string) {
    Parses(p, e) && e.pubkey == pubkey && InstanceName(e) == Some(name)
  }

  type NameHistory = map<(PubKey, string), nat>

  /** The name history holds every name an archived event says, at its latest clock, and
      no other. */
  ghost predicate NamesFollow(p: Parsers, archive: Archive, names: NameHistory) {
    && (forall key | key in names :: NameIsSaid(p, archive, key.0, key.1, names[key]))
    && forall id | id in archive :: NameIsNoted(p, archive[id].event, names)
  }

  ghost predicate NameIsSaid(p: Parsers, archive: Archive, pubkey: PubKey, name: string, at: nat) {
    exists id | id in archive :: SaysName(p, archive[id].event, pubkey, name) && archive[id].event.createdAt == at
  }

  predicate NameIsNoted(p: Parsers, e: Event, names: NameHistory) {
    Parses(p, e) && InstanceName(e).Some? ==>
      (e.pubkey, InstanceName(e).value) in names && e.createdAt <= names[(e.pubkey, InstanceName(e).value)]
  }

  predicate IsNaming(p: Parsers, e: Event, pubkey: PubKey) {
    Parses(p, e) && e.pubkey == pubkey && InstanceName(e).Some?
  }

  /** A row's name is that of a newest archived event of its publisher to say one. */
  ghost predicate NewestName(p: Parsers, archive: Archive, pubkey: PubKey, row: Instance) {
    && (row.nameSeenAt.Some? <==> row.name.Some?)
    && (row.name.Some? ==> NameIsSaid(p, archive, pubkey, row.name.value, row.nameSeenAt.value))
    && forall id | id in archive && IsNaming(p, archive[id].event, pubkey) ::
         row.nameSeenAt.Some? && archive[id].event.createdAt <= row.nameSeenAt.value
  }

  ghost predicate Named(p: Parsers, archive: Archive, instances: map<PubKey, Instance>) {
    forall pubkey | pubkey in instances :: NewestName(p, archive, pubkey, instances[pubkey])
  }

  ghost predicate Inv(r: Rules, t: Tables) {
    && WellKeyed(r, t.events)
    && t.derived == Derive(r.parsers, t.events)
    && Sightings(r.parsers, t)
    && NamesFollow(r.parsers, t.events, t.names)
    && Named(r.parsers, t.events, t.instances)
    && RelaysFollow(r.parsers, t.events, t.relays)
    && OnePerHour(t.derived.rates)
    && FeedsTrusted(r, t.derived, t.relays)
  }

  /** Whether nothing of the publisher is archived. */
  ghost predicate UnknownSoFar(t: Tables, pubkey: PubKey) {
    forall id | id in t.events :: t.events[id].event.pubkey != pubkey
  }

  lemma UnknownIsUnlisted(r: Rules, t: Tables, pubkey: PubKey)
    requires Inv(r, t) && UnknownSoFar(t, pubkey)
    ensures pubkey !in t.instances
  {
    assert pubkey !in Publishers(r.parsers, t.events);
  }

  // ---- Everything derived keeps following the archive ----

  lemma DerivedFollows(r: Rules, t: Tables, d: Delivery)
    requires WellKeyed(r, t.events) && t.derived == Derive(r.parsers, t.events)
    ensures WellKeyed(r, Step(r, t, d).events) && Step(r, t, d).derived == Derive(r.parsers, Step(r, t, d).events)
  {
    AdmitMeaning(r, d.event);
    if Files(r, t, d.event) {
      DeriveNew(r.parsers, t.events, d.event.id, Archived(d.event, d.relay, d.now));
    }
  }

  // ---- Proof grows and never shrinks ----

  lemma PublisherStays<V>(before: Rows<V>, after: Rows<V>, publisher: V -> PubKey, pubkey: PubKey)
    requires HasPublisher(before, publisher, pubkey)
    requires forall id | id in before :: id in after && publisher(after[id]) == publisher(before[id])
    ensures HasPublisher(after, publisher, pubkey)
  {
    var id :| id in before && publisher(before[id]) == pubkey;
    assert id in after && publisher(after[id]) == pubkey;
  }

  lemma ProvenStaysInRow(t: Derived, parsed: Parsed, pubkey: PubKey)
    requires IsPlatformProven(t, pubkey)
    ensures IsPlatformProven(AddRow(t, parsed), pubkey)
  {
    var after := AddRow(t, parsed);
    if HasPublisher(t.orderVersions, OrderPublisher, pubkey) {
      PublisherStays(t.orderVersions, after.orderVersions, OrderPublisher, pubkey);
    } else if HasPublisher(t.devFees, FeePublisher, pubkey) {
      PublisherStays(t.devFees, after.devFees, FeePublisher, pubkey);
    } else if HasPublisher(t.disputeVersions, DisputePublisher, pubkey) {
      PublisherStays(t.disputeVersions, after.disputeVersions, DisputePublisher, pubkey);
    } else {
      PublisherStays(t.info, after.info, InfoPublisher, pubkey);
    }
  }

  /** Once proven, always proven, whatever is delivered next. */
  lemma ProvenStays(r: Rules, t: Tables, d: Delivery, pubkey: PubKey)
    requires IsPlatformProven(t.derived, pubkey)
    ensures IsPlatformProven(Step(r, t, d).derived, pubkey)
  {
    var read := Parse(r.parsers, d.event);
    if Files(r, t, d.event) && read.Ok? {
      ProvenStaysInRow(t.derived, read.value, pubkey);
    }
  }

  // ---- The bestiary ----

  lemma PublishersGrow(p: Parsers, archive: Archive, row: Archived)
    requires row.event.id !in archive
    ensures Publishers(p, archive[row.event.id := row])
         == Publishers(p, archive) + if Parses(p, row.event) then {row.event.pubkey} else {}
  {
    var grown := archive[row.event.id := row];
    assert grown[row.event.id] == row;
    forall id | id in archive && Parses(p, archive[id].event)
      ensures archive[id].event.pubkey in Publishers(p, grown)
    {
      assert grown[id] == archive[id];
    }
  }

  /** What an announcement repeats is an archived event of the same publisher that
      parses the same way. */
  lemma PredecessorParses(r: Rules, archive: Archive, e: Event)
    requires Parses(r.parsers, e) && e.kind in {INFO, RELAY_LIST} && RepeatsPredecessor(archive, e)
    ensures var id := Newest(Preceding(archive, e));
            && id in archive && archive[id].event.pubkey == e.pubkey && archive[id].event.kind == e.kind
            && multiset(archive[id].event.tags) == multiset(e.tags)
            && Parses(r.parsers, archive[id].event)
  {
    var before := archive[Newest(Preceding(archive, e))].event;
    SameTagsIsUpToOrder(before, e);
    TagOrderDoesNotMatter(before.tags, e.tags, "d");
  }

  lemma RatesRowParses(p: Parsers, archive: Archive, id: EventId)
    requires id in Select(p, archive, AsRates)
    ensures id in archive && Parses(p, archive[id].event)
    ensures Select(p, archive, AsRates)[id].pubkey == archive[id].event.pubkey
  {
  }

  lemma SnapshotPublisher(p: Parsers, archive: Archive, e: Event, publishedAt: nat)
    requires HasSnapshotInHour(Select(p, archive, AsRates), e, publishedAt)
    ensures e.pubkey in Publishers(p, archive)
  {
    var rates := Select(p, archive, AsRates);
    var id :| id in rates && rates[id].pubkey == e.pubkey;
    RatesRowParses(p, archive, id);
  }

  lemma RedundantIsKnown(r: Rules, t: Tables, e: Event)
    requires t.derived.rates == Select(r.parsers, t.events, AsRates)
    requires Parse(r.parsers, e).Ok? && IsRedundant(t, e, Parse(r.parsers, e).value)
    ensures e.pubkey in Publishers(r.parsers, t.events)
  {
    var parsed := Parse(r.parsers, e).value;
    if parsed.ParsedRates? {
      SnapshotPublisher(r.parsers, t.events, e, parsed.snapshot.publishedAt);
    } else {
      PredecessorParses(r, t.events, e);
    }
  }

  lemma SightingWidens(instances: map<PubKey, Instance>, outcome: Outcome, sender: Event, e: Event)
    requires Spans(instances, e) || (e == sender && outcome == Stored)
    ensures Spans(WithSighting(instances, outcome, sender), e)
  {
  }

  lemma BestiaryKeys(instances: map<PubKey, Instance>, outcome: Outcome, e: Event)
    ensures WithSighting(instances, outcome, e).Keys
         == instances.Keys + if outcome in {Stored, Redundant} then {e.pubkey} else {}
  {
  }

  lemma SightingsKept(r: Rules, t: Tables, d: Delivery)
    requires t.derived.rates == Select(r.parsers, t.events, AsRates) && Sightings(r.parsers, t)
    ensures Sightings(r.parsers, Step(r, t, d))
  {
    var p, e, after, outcome := r.parsers, d.event, Step(r, t, d), OutcomeOf(r, t, d.event);
    if outcome == Redundant { RedundantIsKnown(r, t, e); }
    BestiaryKeys(t.instances, outcome, e);
    if Files(r, t, e) { PublishersGrow(p, t.events, Archived(e, d.relay, d.now)); }
    SpansKept(r, t, d);
  }

  lemma SpansKept(r: Rules, t: Tables, d: Delivery)
    requires forall id | id in t.events && Parses(r.parsers, t.events[id].event) ::
               Spans(t.instances, t.events[id].event)
    ensures forall id | id in Step(r, t, d).events && Parses(r.parsers, Step(r, t, d).events[id].event) ::
              Spans(Step(r, t, d).instances, Step(r, t, d).events[id].event)
  {
    var after, outcome := Step(r, t, d), OutcomeOf(r, t, d.event);
    forall id | id in after.events && Parses(r.parsers, after.events[id].event)
      ensures Spans(after.instances, after.events[id].event)
    {
      SightingWidens(t.instances, outcome, d.event, after.events[id].event);
    }
  }

  // ---- Names ----

  lemma SaidStays(p: Parsers, archive: Archive, id: EventId, row: Archived, pubkey: PubKey, name: string, at: nat)
    requires id !in archive && NameIsSaid(p, archive, pubkey, name, at)
    ensures NameIsSaid(p, archive[id := row], pubkey, name, at)
  {
    var o :| o in archive && SaysName(p, archive[o].event, pubkey, name) && archive[o].event.createdAt == at;
    assert archive[id := row][o] == archive[o];
  }

  lemma SaidNow(p: Parsers, archive: Archive, id: EventId, row: Archived, name: string)
    requires SaysName(p, row.event, row.event.pubkey, name)
    ensures NameIsSaid(p, archive[id := row], row.event.pubkey, name, row.event.createdAt)
  {
    assert archive[id := row][id] == row;
  }

  /** The names one event adds, if it parses. */
  function NamesWith(p: Parsers, names: NameHistory, e: Event): NameHistory {
    if Parses(p, e) then RecordName(names, e.pubkey, InstanceName(e), e.createdAt) else names
  }

  /** The rows one event moves, if it parses. */
  function InstancesWith(p: Parsers, instances: map<PubKey, Instance>, e: Event): map<PubKey, Instance> {
    if Parses(p, e) then UpsertInstance(instances, e.pubkey, InstanceName(e), e.createdAt) else instances
  }

  lemma NotedStays(p: Parsers, names: NameHistory, e: Event, other: Event)
    requires NameIsNoted(p, other, names)
    ensures NameIsNoted(p, other, NamesWith(p, names, e)) && NameIsNoted(p, e, NamesWith(p, names, e))
  {
  }

  lemma NamesGrow(p: Parsers, archive: Archive, names: NameHistory, id: EventId, row: Archived)
    requires id !in archive && NamesFollow(p, archive, names)
    ensures NamesFollow(p, archive[id := row], NamesWith(p, names, row.event))
  {
    var e, grown, after := row.event, archive[id := row], NamesWith(p, names, row.event);
    forall key | key in after ensures NameIsSaid(p, grown, key.0, key.1, after[key]) {
      if key in names && after[key] == names[key] {
        SaidStays(p, archive, id, row, key.0, key.1, names[key]);
      } else {
        SaidNow(p, archive, id, row, key.1);
      }
    }
    forall o | o in grown ensures NameIsNoted(p, grown[o].event, after) {
      if o in archive { NotedStays(p, names, e, archive[o].event); }
    }
  }

  lemma NewestNameGrows(p: Parsers, archive: Archive, id: EventId, row: Archived, pubkey: PubKey, before: Instance)
    requires id !in archive && NewestName(p, archive, pubkey, before)
    requires row.event.pubkey == pubkey && Parses(p, row.event)
    ensures NewestName(p, archive[id := row], pubkey,
                       Sighted(Some(before), InstanceName(row.event), row.event.createdAt))
  {
    var after := Sighted(Some(before), InstanceName(row.event), row.event.createdAt);
    if before.name.Some? { SaidStays(p, archive, id, row, pubkey, before.name.value, before.nameSeenAt.value); }
    if InstanceName(row.event).Some? { SaidNow(p, archive, id, row, InstanceName(row.event).value); }
    forall o | o in archive ensures archive[id := row][o] == archive[o] { }
  }

  lemma NewestNameStays(p: Parsers, archive: Archive, id: EventId, row: Archived, pubkey: PubKey, before: Instance)
    requires id !in archive && NewestName(p, archive, pubkey, before)
    requires row.event.pubkey != pubkey || !Parses(p, row.event)
    ensures NewestName(p, archive[id := row], pubkey, before)
  {
    if before.name.Some? { SaidStays(p, archive, id, row, pubkey, before.name.value, before.nameSeenAt.value); }
    forall o | o in archive ensures archive[id := row][o] == archive[o] { }
  }

  lemma FirstName(p: Parsers, archive: Archive, id: EventId, row: Archived)
    requires id !in archive && Parses(p, row.event) && row.event.pubkey !in Publishers(p, archive)
    ensures NewestName(p, archive[id := row], row.event.pubkey,
                       Sighted(None, InstanceName(row.event), row.event.createdAt))
  {
    if InstanceName(row.event).Some? { SaidNow(p, archive, id, row, InstanceName(row.event).value); }
    forall o | o in archive ensures !IsNaming(p, archive[o].event, row.event.pubkey) {
      if Parses(p, archive[o].event) { assert archive[o].event.pubkey in Publishers(p, archive); }
    }
    forall o | o in archive ensures archive[id := row][o] == archive[o] { }
  }

  lemma NamedGrows(p: Parsers, archive: Archive, instances: map<PubKey, Instance>, id: EventId, row: Archived)
    requires id !in archive && Named(p, archive, instances) && instances.Keys == Publishers(p, archive)
    ensures Named(p, archive[id := row], InstancesWith(p, instances, row.event))
  {
    var e, grown, after := row.event, archive[id := row], InstancesWith(p, instances, row.event);
    forall pubkey | pubkey in after ensures NewestName(p, grown, pubkey, after[pubkey]) {
      if pubkey != e.pubkey || !Parses(p, e) {
        NewestNameStays(p, archive, id, row, pubkey, instances[pubkey]);
      } else if pubkey in instances {
        NewestNameGrows(p, archive, id, row, pubkey, instances[pubkey]);
      } else {
        FirstName(p, archive, id, row);
      }
    }
  }

  /** What a delivery that archives its event does to the names. */
  lemma FiledNames(r: Rules, t: Tables, d: Delivery)
    requires Files(r, t, d.event)
    ensures var after := Step(r, t, d);
            && after.events == t.events[d.event.id := Archived(d.event, d.relay, d.now)]
            && after.names == NamesWith(r.parsers, t.names, d.event)
            && after.instances == InstancesWith(r.parsers, t.instances, d.event)
  {
  }

  /** One that does not at most sights the publisher, under no name. */
  lemma OtherNames(r: Rules, t: Tables, d: Delivery)
    requires !Files(r, t, d.event)
    ensures var after := Step(r, t, d);
            && after.events == t.events && after.names == t.names
            && after.instances == (if OutcomeOf(r, t, d.event) == Redundant
                                   then UpsertInstance(t.instances, d.event.pubkey, None, d.event.createdAt)
                                   else t.instances)
  {
  }

  lemma NamelessSighting(p: Parsers, archive: Archive, instances: map<PubKey, Instance>, pubkey: PubKey, at: nat)
    requires Named(p, archive, instances) && pubkey in instances
    ensures Named(p, archive, UpsertInstance(instances, pubkey, None, at))
  {
  }

  lemma NamesKept(r: Rules, t: Tables, d: Delivery)
    requires t.derived.rates == Select(r.parsers, t.events, AsRates) && Sightings(r.parsers, t)
    requires NamesFollow(r.parsers, t.events, t.names) && Named(r.parsers, t.events, t.instances)
    ensures NamesFollow(r.parsers, Step(r, t, d).events, Step(r, t, d).names)
    ensures Named(r.parsers, Step(r, t, d).events, Step(r, t, d).instances)
  {
    var e := d.event;
    if Files(r, t, e) {
      FiledNames(r, t, d);
      NamesGrow(r.parsers, t.events, t.names, e.id, Archived(e, d.relay, d.now));
      NamedGrows(r.parsers, t.events, t.instances, e.id, Archived(e, d.relay, d.now));
    } else {
      OtherNames(r, t, d);
      if OutcomeOf(r, t, e) == Redundant {
        RedundantIsKnown(r, t, e);
        NamelessSighting(r.parsers, t.events, t.instances, e.pubkey, e.createdAt);
      }
    }
  }

  // ---- Relays and rates ----

  lemma RelaysRead(p: Parsers, e: Event)
    ensures RelaysIn(Parse(p, e)) == RelaysNamed(p, e)
  {
  }

  /** One more archived list, its relays recorded. */
  lemma RelaysGrow(p: Parsers, archive: Archive, relays: map<Url, RelayRow>, id: EventId, row: Archived)
    requires id !in archive && RelaysFollow(p, archive, relays)
    ensures var e := row.event;
            RelaysFollow(p, archive[id := row], UpsertRelays(relays, RelaysNamed(p, e), Nip65(e.pubkey), e.createdAt))
  {
    var e, grown := row.event, archive[id := row];
    var after := UpsertRelays(relays, RelaysNamed(p, e), Nip65(e.pubkey), e.createdAt);
    forall url | url in after && after[url].source.Nip65? ensures IsNamedAs(p, grown, url, after[url]) {
      if url in relays {
        var o :| o in archive && url in RelaysNamed(p, archive[o].event)
                 && relays[url] == RelayRow(Nip65(archive[o].event.pubkey), archive[o].event.createdAt);
        assert grown[o] == archive[o];
      } else {
        assert grown[id] == row;
      }
    }
  }

  lemma StepRelays(r: Rules, t: Tables, d: Delivery)
    ensures var e, after := d.event, Step(r, t, d);
            if Files(r, t, e) then
              after.events == t.events[e.id := Archived(e, d.relay, d.now)]
              && after.relays == UpsertRelays(t.relays, RelaysNamed(r.parsers, e), Nip65(e.pubkey), e.createdAt)
            else after.events == t.events && after.relays == t.relays
  {
    RelaysRead(r.parsers, d.event);
  }

  lemma RelaysKeepFollowing(r: Rules, t: Tables, d: Delivery)
    requires RelaysFollow(r.parsers, t.events, t.relays)
    ensures RelaysFollow(r.parsers, Step(r, t, d).events, Step(r, t, d).relays)
  {
    StepRelays(r, t, d);
    if Files(r, t, d.event) {
      RelaysGrow(r.parsers, t.events, t.relays, d.event.id, Archived(d.event, d.relay, d.now));
    }
  }

  predicate AllNamed(relays: map<Url, RelayRow>) {
    forall url | url in relays :: relays[url].source.Nip65?
  }

  /** A run records no relay an operator would have configured. */
  lemma {:induction false} NothingIsConfigured(r: Rules, t: Tables, attempts: seq<Attempt>)
    requires AllNamed(t.relays)
    ensures AllNamed(RunFrom(r, t, attempts).relays)
  {
    if attempts != [] {
      var n := |attempts| - 1;
      NothingIsConfigured(r, t, attempts[..n]);
      if attempts[n].Committed? { StepRelays(r, RunFrom(r, t, attempts[..n]), attempts[n].delivery); }
    }
  }

  /** A run knows exactly the relays its archived lists name, each under the publisher and
      the clock of one of them. */
  lemma RelaysAreNamed(r: Rules, attempts: seq<Attempt>, url: Url)
    ensures var t := Run(r, attempts);
            && (url in t.relays <==> exists id :: id in t.events && url in RelaysNamed(r.parsers, t.events[id].event))
            && (url in t.relays ==> IsNamedAs(r.parsers, t.events, url, t.relays[url]))
  {
    Reachable(r, attempts);
    NothingIsConfigured(r, EMPTY, attempts);
  }

  lemma AddRowRates(t: Derived, parsed: Parsed)
    ensures AddRow(t, parsed).rates
         == if parsed.ParsedRates? then InsertOrIgnore(t.rates, parsed.snapshot.eventId, parsed.snapshot) else t.rates
  {
    match parsed {
      case ParsedOrder(v) => assert AddOrder(t, v).rates == t.rates;
      case ParsedDispute(v) => assert AddDispute(t, v).rates == t.rates;
      case ParsedFee(f) => assert AddFee(t, f).rates == t.rates;
      case _ =>
    }
  }

  lemma RatesGrow(r: Rules, t: Tables, d: Delivery)
    ensures Step(r, t, d).derived.rates
         == if Files(r, t, d.event) && Parse(r.parsers, d.event).Ok? && Parse(r.parsers, d.event).value.ParsedRates?
            then InsertOrIgnore(t.derived.rates, d.event.id, Parse(r.parsers, d.event).value.snapshot)
            else t.derived.rates
  {
    ParsedIsStamped(r.parsers, d.event);
    if Parse(r.parsers, d.event).Ok? { AddRowRates(t.derived, Parse(r.parsers, d.event).value); }
  }

  lemma OneMoreSnapshot(rates: Rows<RateSnapshot>, e: Event, s: RateSnapshot)
    requires OnePerHour(rates) && s.pubkey == e.pubkey && !HasSnapshotInHour(rates, e, s.publishedAt)
    ensures OnePerHour(InsertOrIgnore(rates, e.id, s))
  {
  }

  lemma StillOnePerHour(r: Rules, t: Tables, d: Delivery)
    requires OnePerHour(t.derived.rates)
    ensures OnePerHour(Step(r, t, d).derived.rates)
  {
    var read := Parse(r.parsers, d.event);
    RatesGrow(r, t, d);
    if Files(r, t, d.event) && read.Ok? && read.value.ParsedRates? {
      OneMoreSnapshot(t.derived.rates, d.event, read.value.snapshot);
    }
  }

  lemma TrustStays(r: Rules, t: Tables, d: Delivery, pubkey: PubKey)
    requires Trusted(r, t.derived, pubkey)
    ensures Trusted(r, Step(r, t, d).derived, pubkey)
  {
    if IsPlatformProven(t.derived, pubkey) { ProvenStays(r, t, d, pubkey); }
  }

  /** Only a vouched event writes a snapshot or names a relay. */
  lemma FeedIsTrusted(r: Rules, t: Tables, e: Event)
    requires Files(r, t, e) && e.kind in UNTAGGED_KINDS
    ensures Trusted(r, t.derived, e.pubkey)
  {
  }

  lemma SnapshotIsUntagged(p: Parsers, e: Event)
    requires Parse(p, e).Ok? && Parse(p, e).value.ParsedRates?
    ensures e.kind in UNTAGGED_KINDS && Parse(p, e).value.snapshot.pubkey == e.pubkey
  {
  }

  lemma SnapshotsStayTrusted(r: Rules, t: Tables, d: Delivery, id: EventId)
    requires FeedsTrusted(r, t.derived, t.relays) && id in Step(r, t, d).derived.rates
    ensures Trusted(r, Step(r, t, d).derived, Step(r, t, d).derived.rates[id].pubkey)
  {
    RatesGrow(r, t, d);
    if id !in t.derived.rates {
      SnapshotIsUntagged(r.parsers, d.event);
      FeedIsTrusted(r, t, d.event);
    }
    TrustStays(r, t, d, Step(r, t, d).derived.rates[id].pubkey);
  }

  lemma RelayStaysTrusted(r: Rules, t: Tables, d: Delivery, url: Url)
    requires FeedsTrusted(r, t.derived, t.relays)
    requires url in Step(r, t, d).relays && Step(r, t, d).relays[url].source.Nip65?
    ensures Trusted(r, Step(r, t, d).derived, Step(r, t, d).relays[url].source.pubkey)
  {
    StepRelays(r, t, d);
    if url !in t.relays { FeedIsTrusted(r, t, d.event); }
    TrustStays(r, t, d, Step(r, t, d).relays[url].source.pubkey);
  }

  lemma FeedsStayTrusted(r: Rules, t: Tables, d: Delivery)
    requires FeedsTrusted(r, t.derived, t.relays)
    ensures FeedsTrusted(r, Step(r, t, d).derived, Step(r, t, d).relays)
  {
    var after := Step(r, t, d);
    forall id | id in after.derived.rates ensures Trusted(r, after.derived, after.derived.rates[id].pubkey) {
      SnapshotsStayTrusted(r, t, d, id);
    }
    forall url | url in after.relays && after.relays[url].source.Nip65?
      ensures Trusted(r, after.derived, after.relays[url].source.pubkey)
    {
      RelayStaysTrusted(r, t, d, url);
    }
  }

  /** Main result: whatever is delivered, by whichever relay, every table stays what
      the archive determines and what admission promises. */
  lemma StepKeeps(r: Rules, t: Tables, d: Delivery)
    requires Inv(r, t)
    ensures Inv(r, Step(r, t, d))
  {
    DerivedFollows(r, t, d);
    SightingsKept(r, t, d);
    NamesKept(r, t, d);
    RelaysKeepFollowing(r, t, d);
    StillOnePerHour(r, t, d);
    FeedsStayTrusted(r, t, d);
  }

  lemma EmptyIsSound(r: Rules)
    ensures Inv(r, EMPTY)
  {
    assert Derive(r.parsers, map[]) == NOTHING;
  }

  lemma {:induction false} RunKeeps(r: Rules, t: Tables, attempts: seq<Attempt>)
    requires Inv(r, t)
    ensures Inv(r, RunFrom(r, t, attempts))
  {
    if attempts != [] {
      var n := |attempts| - 1;
      RunKeeps(r, t, attempts[..n]);
      if attempts[n].Committed? { StepKeeps(r, RunFrom(r, t, attempts[..n]), attempts[n].delivery); }
    }
  }

  /** Every state a fresh database reaches. */
  lemma Reachable(r: Rules, attempts: seq<Attempt>)
    ensures Inv(r, Run(r, attempts))
  {
    EmptyIsSound(r);
    RunKeeps(r, EMPTY, attempts);
  }

  // ---- What the version tables hold ----

  function OrderRow(p: Parsers, e: Event): Option<OrderVersion> {
    if e.kind != 38383 || p.order(e).None? then None
    else Some(p.order(e).value.(eventId := e.id, pubkey := e.pubkey, createdAt := e.createdAt))
  }

  function DisputeRow(p: Parsers, e: Event): Option<DisputeVersion> {
    if e.kind != 38386 || p.dispute(e).None? then None
    else Some(p.dispute(e).value.(eventId := e.id, pubkey := e.pubkey, createdAt := e.createdAt))
  }

  function FeeRow(p: Parsers, e: Event): Option<DevFee> {
    if e.kind != 8383 || p.devFee(e).None? then None
    else Some(p.devFee(e).value.(eventId := e.id, pubkey := e.pubkey, createdAt := e.createdAt))
  }

  function InfoRowOf(p: Parsers, e: Event): Option<InstanceInfo> {
    if e.kind != 38385 || ReadInfo(p, e).None? then None
    else Some(ReadInfo(p, e).value.(eventId := e.id, pubkey := e.pubkey, createdAt := e.createdAt))
  }

  function RatesRow(p: Parsers, e: Event): Option<RateSnapshot> {
    if e.kind != 30078 || ReadRates(p, e).None? then None
    else Some(ReadRates(p, e).value.(eventId := e.id, pubkey := e.pubkey))
  }

  /** The row an archived event has, if any. */
  function RowIn<V>(archive: Archive, id: EventId, row: Event -> Option<V>): Option<V> {
    if id in archive then row(archive[id].event) else None
  }

  function Unmarked(fees: Rows<Marked<DevFee>>, id: EventId): Option<DevFee> {
    if id in fees then Some(fees[id].row) else None
  }

  /** In every reachable state a version row is its event, read by the parser of its kind
      and stamped with the event's own id, publisher and clock; and every archived event
      that its parser reads has its row. */
  lemma RowsAreEvents(r: Rules, attempts: seq<Attempt>, id: EventId)
    ensures var t, p := Run(r, attempts), r.parsers;
            && Find(t.derived.orderVersions, id) == RowIn(t.events, id, e => OrderRow(p, e))
            && Find(t.derived.disputeVersions, id) == RowIn(t.events, id, e => DisputeRow(p, e))
            && Unmarked(t.derived.devFees, id) == RowIn(t.events, id, e => FeeRow(p, e))
            && Find(t.derived.info, id) == RowIn(t.events, id, e => InfoRowOf(p, e))
            && Find(t.derived.rates, id) == RowIn(t.events, id, e => RatesRow(p, e))
  {
    Reachable(r, attempts);
    DerivedRows(r, Run(r, attempts), id);
  }

  lemma DerivedRows(r: Rules, t: Tables, id: EventId)
    requires t.derived == Derive(r.parsers, t.events)
    requires id in t.events ==> t.events[id].event.id == id
    ensures var p := r.parsers;
            && Find(t.derived.orderVersions, id) == RowIn(t.events, id, e => OrderRow(p, e))
            && Find(t.derived.disputeVersions, id) == RowIn(t.events, id, e => DisputeRow(p, e))
            && Unmarked(t.derived.devFees, id) == RowIn(t.events, id, e => FeeRow(p, e))
            && Find(t.derived.info, id) == RowIn(t.events, id, e => InfoRowOf(p, e))
            && Find(t.derived.rates, id) == RowIn(t.events, id, e => RatesRow(p, e))
  {
    var p := r.parsers;
    if id in t.events { ReadAsRows(p, t.events[id].event); }
    SelectedRow(p, t.events, AsOrder, e => OrderRow(p, e), id);
    SelectedRow(p, t.events, AsDispute, e => DisputeRow(p, e), id);
    SelectedRow(p, t.events, AsFee, e => FeeRow(p, e), id);
    SelectedRow(p, t.events, AsInfo, e => InfoRowOf(p, e), id);
    SelectedRow(p, t.events, AsRates, e => RatesRow(p, e), id);
    UnmarkedRow(Select(p, t.events, AsFee), id);
  }

  lemma ReadAsRows(p: Parsers, e: Event)
    ensures AsOrder(p, e) == OrderRow(p, e) && AsDispute(p, e) == DisputeRow(p, e) && AsFee(p, e) == FeeRow(p, e)
    ensures AsInfo(p, e) == InfoRowOf(p, e) && AsRates(p, e) == RatesRow(p, e)
  {
  }

  lemma SelectedRow<V>(p: Parsers, archive: Archive, pick: Pick<V>, row: Event -> Option<V>, id: EventId)
    requires id in archive ==> pick(p, archive[id].event) == row(archive[id].event)
    ensures Find(Select(p, archive, pick), id) == RowIn(archive, id, row)
  {
  }

  lemma UnmarkedRow(rows: Rows<DevFee>, id: EventId)
    ensures Unmarked(FeesOf(rows), id) == Find(rows, id)
  {
    if id in rows { FlaggedKeepsRow(rows, FeeKey, FeeStamp, id); }
  }

  /** Of the fees paid for one order, the one not flagged is the earliest, in a tie
      the one with the lowest id; every order paid for has exactly one. */
  lemma OneFeeCounts(r: Rules, attempts: seq<Attempt>, id: EventId) returns (canonical: EventId)
    requires id in Run(r, attempts).derived.devFees
    ensures var fees := Run(r, attempts).derived.devFees;
            && (fees[id].isDuplicate <==> !Counts(fees, FeeKey, FeeStamp, id))
            && canonical in fees && fees[canonical].row.orderId == fees[id].row.orderId
            && !fees[canonical].isDuplicate
            && forall o | o in fees && fees[o].row.orderId == fees[id].row.orderId && o != canonical ::
                 fees[o].isDuplicate
  {
    Reachable(r, attempts);
    canonical := OneFeePerOrder(Select(r.parsers, Run(r, attempts).events, AsFee), id);
  }

  lemma OneFeePerOrder(rows: Rows<DevFee>, id: EventId) returns (canonical: EventId)
    requires id in rows
    ensures var fees := FeesOf(rows);
            && (fees[id].isDuplicate <==> !Counts(fees, FeeKey, FeeStamp, id))
            && canonical in fees && fees[canonical].row.orderId == fees[id].row.orderId
            && !fees[canonical].isDuplicate
            && forall o | o in fees && fees[o].row.orderId == fees[id].row.orderId && o != canonical ::
                 fees[o].isDuplicate
  {
    FlagsSayWhichCounts(Unflagged(rows), FeeKey, FeeStamp, id);
    canonical := OneRowCounts(Unflagged(rows), FeeKey, FeeStamp, id);
  }

  /** Whose copy of an event came first, and when, no later delivery changes. */
  lemma {:induction false} FirstCopyStays(r: Rules, t: Tables, attempts: seq<Attempt>, id: EventId)
    requires id in t.events
    ensures id in RunFrom(r, t, attempts).events && RunFrom(r, t, attempts).events[id] == t.events[id]
  {
    if attempts != [] { FirstCopyStays(r, t, attempts[..|attempts| - 1], id); }
  }

  /** Whether attempt `i` is the one that brought what is archived under `id`. */
  ghost predicate BroughtFirst(r: Rules, attempts: seq<Attempt>, id: EventId, row: Archived, i: nat) {
    && i < |attempts| && attempts[i].Committed? && attempts[i].delivery.event.id == id
    && row == Archived(attempts[i].delivery.event, attempts[i].delivery.relay, attempts[i].delivery.now)
    && id !in Run(r, attempts[..i]).events
  }

  /** What is archived is what the delivery that archived it brought: the event, by which
      relay, and when. */
  lemma {:induction false} ArchivedAsBrought(r: Rules, attempts: seq<Attempt>, id: EventId)
    requires id in Run(r, attempts).events
    ensures exists i: nat :: BroughtFirst(r, attempts, id, Run(r, attempts).events[id], i)
  {
    var n := |attempts| - 1;
    var before := attempts[..n];
    if id in Run(r, before).events {
      ArchivedAsBrought(r, before, id);
      var i: nat :| BroughtFirst(r, before, id, Run(r, before).events[id], i);
      assert before[..i] == attempts[..i];
      assert BroughtFirst(r, attempts, id, Run(r, attempts).events[id], i);
    } else {
      assert BroughtFirst(r, attempts, id, Run(r, attempts).events[id], n);
    }
  }

  // ---- Cursors ----

  /** The deliveries that were not turned away, in order. */
  function Accepted(r: Rules, attempts: seq<Attempt>): seq<Delivery> {
    if attempts == [] then []
    else
      var n := |attempts| - 1;
      var d := attempts[n].delivery;
      Accepted(r, attempts[..n]) +
      if attempts[n].Committed? && !OutcomeOf(r, Run(r, attempts[..n]), d.event).Rejected? then [d] else []
  }

  function Cursored(d: Delivery): (Url, Kind) { (d.relay, d.event.kind) }

  /** Each relay's cursor for a kind stands at the newest event it delivered that
      was not turned away, and at the latest clock it did so; there is none where there was
      no such event. */
  lemma {:induction false} CursorIsNewestAccepted(r: Rules, attempts: seq<Attempt>, key: (Url, Kind))
    ensures var cursors := Run(r, attempts).cursors;
            key in cursors <==> exists d | d in Accepted(r, attempts) :: Cursored(d) == key
    ensures var cursors := Run(r, attempts).cursors;
            key in cursors ==>
              && (forall d | d in Accepted(r, attempts) && Cursored(d) == key ::
                    d.event.createdAt <= cursors[key].lastCreatedAt)
              && (exists d | d in Accepted(r, attempts) && Cursored(d) == key ::
                    d.event.createdAt == cursors[key].lastCreatedAt)
              && (forall d | d in Accepted(r, attempts) && Cursored(d) == key :: d.now <= cursors[key].updatedAt)
              && (exists d | d in Accepted(r, attempts) && Cursored(d) == key :: d.now == cursors[key].updatedAt)
  {
    if attempts != [] {
      var n := |attempts| - 1;
      var before, d := attempts[..n], attempts[n].delivery;
      CursorIsNewestAccepted(r, before, key);
      var now, earlier := Accepted(r, attempts), Accepted(r, before);
      if attempts[n].Committed? && !OutcomeOf(r, Run(r, before), d.event).Rejected? {
        assert now == earlier + [d];
        assert forall x :: x in now <==> x in earlier || x == d;
        CursorMoves(Run(r, before).cursors, d, key);
      } else {
        assert now == earlier;
      }
    }
  }

  lemma CursorMoves(cursors: map<(Url, Kind), Cursor>, d: Delivery, key: (Url, Kind))
    ensures var after := WithCursor(cursors, d);
            && (key in after <==> key in cursors || Cursored(d) == key)
            && (Cursored(d) != key ==> Find(after, key) == Find(cursors, key))
            && (Cursored(d) == key ==>
                  after[key] == if key in cursors
                                then Cursor(Max(cursors[key].lastCreatedAt, d.event.createdAt),
                                            Max(cursors[key].updatedAt, d.now))
                                else Cursor(d.event.createdAt, d.now))
  {
  }
}
