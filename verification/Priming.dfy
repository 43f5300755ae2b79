/** The two subscriptions of a live run: the tagged kinds are read to the end of
    what is stored before anything untagged is asked for. */
module Priming {
  import opened Ranking
  import opened Events
  import opened Schema
  import opened Grouping
  import opened Projection
  import opened Pipeline
  import opened Admission
  import opened Reachability
  import opened Confluence
  import opened Database
  import Discovery

  // ---- What an accepted tagged event proves ----

  lemma PickedIsThere<R>(p: Parsers, archive: Archive, pick: Pick<R>, publisher: R -> PubKey, e: Event)
    requires e.id in archive && archive[e.id].event == e && pick(p, e).Some? && publisher(pick(p, e).value) == e.pubkey
    ensures HasPublisher(Select(p, archive, pick), publisher, e.pubkey)
  {
    assert e.id in Select(p, archive, pick);
  }

  lemma FeeIsThere(rows: Rows<DevFee>, id: EventId)
    requires id in rows
    ensures HasPublisher(FeesOf(rows), FeePublisher, rows[id].pubkey)
  {
    FlaggedKeepsRow(rows, FeeKey, FeeStamp, id);
    FeeOf(FeesOf(rows), id);
  }

  lemma FeeOf(fees: Rows<Marked<DevFee>>, id: EventId)
    requires id in fees
    ensures HasPublisher(fees, FeePublisher, fees[id].row.pubkey)
  {
    assert FeePublisher(fees[id]) == fees[id].row.pubkey;
  }

  /** An archived tagged event that parses has its row, under its publisher. */
  lemma ArchivedProves(p: Parsers, archive: Archive, e: Event)
    requires e.id in archive && archive[e.id].event == e && e.kind in PLATFORM_TAGGED && Parses(p, e)
    ensures IsPlatformProven(Derive(p, archive), e.pubkey)
  {
    if e.kind == ORDER {
      PickedIsThere(p, archive, AsOrder, OrderPublisher, e);
    } else if e.kind == DEV_FEE {
      assert Select(p, archive, AsFee)[e.id].pubkey == e.pubkey;
      FeeIsThere(Select(p, archive, AsFee), e.id);
    } else if e.kind == DISPUTE {
      PickedIsThere(p, archive, AsDispute, DisputePublisher, e);
    } else {
      PickedIsThere(p, archive, AsInfo, InfoPublisher, e);
    }
  }

  lemma RepeatedProves(r: Rules, archive: Archive, e: Event)
    requires WellKeyed(r, archive) && Parses(r.parsers, e) && e.kind == INFO && RepeatsPredecessor(archive, e)
    ensures IsPlatformProven(Derive(r.parsers, archive), e.pubkey)
  {
    PredecessorParses(r, archive, e);
    ArchivedProves(r.parsers, archive, archive[Newest(Preceding(archive, e))].event);
  }

  lemma OnlyNoticesRepeat(r: Rules, t: Tables, e: Event)
    requires e.kind in PLATFORM_TAGGED && OutcomeOf(r, t, e) == Redundant
    ensures e.kind == INFO && Parses(r.parsers, e) && RepeatsPredecessor(t.events, e)
  {
  }

  lemma FiledOrThere(r: Rules, t: Tables, d: Delivery)
    requires OutcomeOf(r, t, d.event) in {Stored, Duplicate}
    requires d.event.id in t.events ==> t.events[d.event.id].event == d.event
    ensures Parses(r.parsers, d.event)
    ensures d.event.id in Step(r, t, d).events && Step(r, t, d).events[d.event.id].event == d.event
  {
  }

  /** A tagged event that is stored, already there or redundant leaves its publisher
      proven. */
  lemma AcceptedProves(r: Rules, t: Tables, d: Delivery)
    requires Inv(r, t) && d.event.kind in PLATFORM_TAGGED
    requires d.event.id in t.events ==> t.events[d.event.id].event == d.event
    requires !OutcomeOf(r, t, d.event).Rejected?
    ensures IsPlatformProven(Step(r, t, d).derived, d.event.pubkey)
  {
    var e := d.event;
    if OutcomeOf(r, t, e) == Redundant {
      OnlyNoticesRepeat(r, t, e);
      RepeatedProves(r, t.events, e);
      ProvenStays(r, t, d, e.pubkey);
    } else {
      DerivedFollows(r, t, d);
      FiledOrThere(r, t, d);
      ArchivedProves(r.parsers, Step(r, t, d).events, e);
    }
  }

  lemma {:induction false} ProvenStaysInRun(r: Rules, t: Tables, attempts: seq<Attempt>, pubkey: PubKey)
    requires IsPlatformProven(t.derived, pubkey)
    ensures IsPlatformProven(RunFrom(r, t, attempts).derived, pubkey)
  {
    if attempts != [] {
      var n := |attempts| - 1;
      ProvenStaysInRun(r, t, attempts[..n], pubkey);
      if attempts[n].Committed? { ProvenStays(r, RunFrom(r, t, attempts[..n]), attempts[n].delivery, pubkey); }
    }
  }

  /** Once a tagged event has been accepted, its publisher is proven in every later
      state. */
  lemma AcceptedStaysProven(r: Rules, attempts: seq<Attempt>, i: nat)
    requires CollisionFree(r, Delivered(attempts)) && i < |attempts| && attempts[i].Committed?
    requires var e := attempts[i].delivery.event;
             e.kind in PLATFORM_TAGGED && !OutcomeOf(r, Run(r, attempts[..i]), e).Rejected?
    ensures IsPlatformProven(Run(r, attempts).derived, attempts[i].delivery.event.pubkey)
  {
    var now, next, d := attempts[..i], attempts[..i + 1], attempts[i].delivery;
    assert next[..i] == now && attempts == next + attempts[i + 1..];
    DeliveredGrows(attempts, i);
    TradeArchive(r, now);
    Reachable(r, now);
    if d.event.id in Run(r, now).events {
      assert Run(r, now).events[d.event.id].event in Delivered(attempts);
    }
    AcceptedProves(r, Run(r, now), d);
    ProvenStaysInRun(r, Run(r, next), attempts[i + 1..], d.event.pubkey);
    RunOn(r, EMPTY, next, attempts[i + 1..]);
  }

  lemma DeliveredGrows(attempts: seq<Attempt>, n: nat)
    requires n <= |attempts|
    ensures Delivered(attempts[..n]) <= Delivered(attempts)
    ensures n < |attempts| && attempts[n].Committed? ==> attempts[n].delivery.event in Delivered(attempts)
  {
    assert forall a | a in attempts[..n] :: a in attempts;
    if n < |attempts| { assert attempts[n] in attempts; }
  }

  /** A tagged event that passes on its own merits is never turned away, whatever the
      archive holds. */
  lemma TaggedIsAccepted(r: Rules, t: Tables, e: Event)
    requires e.kind in PLATFORM_TAGGED && Acceptable(r, e) && Parses(r.parsers, e)
    ensures !OutcomeOf(r, t, e).Rejected?
  {
    AdmitMeaning(r, e);
  }

  lemma PickedFrom<R>(p: Parsers, archive: Archive, pick: Pick<R>, publisher: R -> PubKey, pubkey: PubKey)
    returns (id: EventId)
    requires HasPublisher(Select(p, archive, pick), publisher, pubkey)
    ensures id in archive && pick(p, archive[id].event).Some? && publisher(pick(p, archive[id].event).value) == pubkey
  {
    id :| id in Select(p, archive, pick) && publisher(Select(p, archive, pick)[id]) == pubkey;
  }

  lemma FeeFrom(rows: Rows<DevFee>, pubkey: PubKey) returns (id: EventId)
    requires HasPublisher(FeesOf(rows), FeePublisher, pubkey)
    ensures id in rows && rows[id].pubkey == pubkey
  {
    var fees := FeesOf(rows);
    id :| id in fees && FeePublisher(fees[id]) == pubkey;
    FlaggedRowIsRow(rows, id);
  }

  lemma FlaggedRowIsRow(rows: Rows<DevFee>, id: EventId)
    requires id in FeesOf(rows)
    ensures id in rows && FeesOf(rows)[id].row == rows[id]
  {
    FlaggedKeysAreRows(rows);
    FlaggedKeepsRow(rows, FeeKey, FeeStamp, id);
  }

  lemma FlaggedKeysAreRows(rows: Rows<DevFee>)
    ensures FeesOf(rows).Keys == rows.Keys
  {
  }

  lemma FeePublisherIs(p: Parsers, e: Event)
    requires AsFee(p, e).Some?
    ensures AsFee(p, e).value.pubkey == e.pubkey && e.kind == DEV_FEE && Parses(p, e)
  {
  }

  /** Whoever is proven published an archived tagged event that parses. */
  lemma ProofIsArchived(p: Parsers, archive: Archive, pubkey: PubKey) returns (id: EventId)
    requires IsPlatformProven(Derive(p, archive), pubkey)
    ensures id in archive && archive[id].event.pubkey == pubkey
    ensures archive[id].event.kind in PLATFORM_TAGGED && Parses(p, archive[id].event)
  {
    if HasPublisher(Select(p, archive, AsOrder), OrderPublisher, pubkey) {
      id := PickedFrom(p, archive, AsOrder, OrderPublisher, pubkey);
    } else if HasPublisher(FeesOf(Select(p, archive, AsFee)), FeePublisher, pubkey) {
      id := FeeFrom(Select(p, archive, AsFee), pubkey);
      FeePublisherIs(p, archive[id].event);
    } else if HasPublisher(Select(p, archive, AsDispute), DisputePublisher, pubkey) {
      id := PickedFrom(p, archive, AsDispute, DisputePublisher, pubkey);
    } else {
      id := PickedFrom(p, archive, AsInfo, InfoPublisher, pubkey);
    }
  }

  /** Whether delivery `i` is a tagged event of the publisher that was let in. */
  predicate ProvesPublisher(r: Rules, attempts: seq<Attempt>, i: nat, pubkey: PubKey)
    requires i < |attempts|
  {
    && attempts[i].Committed? && attempts[i].delivery.event.pubkey == pubkey
    && attempts[i].delivery.event.kind in PLATFORM_TAGGED
    && !OutcomeOf(r, Run(r, attempts[..i]), attempts[i].delivery.event).Rejected?
  }

  /** Main result: after any run a publisher is proven exactly when some tagged event of
      its was let in on the way. */
  lemma ProvenExactlyWhenLetIn(r: Rules, attempts: seq<Attempt>, pubkey: PubKey)
    requires CollisionFree(r, Delivered(attempts))
    ensures IsPlatformProven(Run(r, attempts).derived, pubkey)
       <==> exists i: nat :: i < |attempts| && ProvesPublisher(r, attempts, i, pubkey)
  {
    if i: nat :| i < |attempts| && ProvesPublisher(r, attempts, i, pubkey) {
      AcceptedStaysProven(r, attempts, i);
    }
    if IsPlatformProven(Run(r, attempts).derived, pubkey) {
      Reachable(r, attempts);
      TradeArchive(r, attempts);
      var archive := Run(r, attempts).events;
      var id := ProofIsArchived(r.parsers, archive, pubkey);
      var e := archive[id].event;
      var a :| a in attempts && a.Committed? && a.delivery.event == e;
      var i: nat :| i < |attempts| && attempts[i] == a;
      TaggedIsAccepted(r, Run(r, attempts[..i]), e);
      assert ProvesPublisher(r, attempts, i, pubkey);
    }
  }

  // ---- Who is asked for the untagged kinds ----

  /** The listed instances, and every key a tagged table has a row of. */
  function Askable(r: Rules, t: Derived): set<PubKey> {
    r.policy.instances
    + (set id | id in t.orderVersions :: OrderPublisher(t.orderVersions[id]))
    + (set id | id in t.devFees :: FeePublisher(t.devFees[id]))
    + (set id | id in t.disputeVersions :: DisputePublisher(t.disputeVersions[id]))
    + (set id | id in t.info :: InfoPublisher(t.info[id]))
  }

  /** An untagged kind is asked of exactly the authors whose events admission would
      not turn away as unvouched. */
  lemma AskedIsVouched(r: Rules, t: Tables, e: Event)
    requires e.kind in UNTAGGED_KINDS
    ensures e.pubkey in Askable(r, t.derived) <==> Vouched(r, t, e)
  {
    if HasPublisher(t.derived.orderVersions, OrderPublisher, e.pubkey) {
      assert e.pubkey in Askable(r, t.derived);
    }
  }

  // ---- Priming ----

  /** What a subscription hands over: a relay's copy of an event, word that a relay
      has no more stored ones, or one of the two clocks running out. */
  datatype Incoming =
    | Brought(delivery: Delivery)
    | EndOfStored(relay: Url)
    | Deadline
    | Interrupt

  datatype Priming = Done | Shutdown | RelaysChanged

  predicate Stops(i: Incoming) { i.Deadline? || i.Interrupt? }

  function Deliveries(incoming: seq<Incoming>): seq<Attempt> {
    if incoming == [] then []
    else
      var n := |incoming| - 1;
      Deliveries(incoming[..n]) + if incoming[n].Brought? then [Committed(incoming[n].delivery)] else []
  }

  function Ended(incoming: seq<Incoming>): set<Url> {
    set i | i in incoming && i.EndOfStored? :: i.relay
  }

  /** The relays that have not finished. */
  function Waiting(targets: set<Url>, incoming: seq<Incoming>): set<Url> {
    targets - Ended(incoming)
  }

  /** How many messages are read, once `at` of them have been and `waiting` have not
      finished. */
  function ReadsFrom(waiting: set<Url>, incoming: seq<Incoming>, at: nat): nat
    requires at <= |incoming|
    decreases |incoming| - at
  {
    if at == |incoming| || waiting == {} || Stops(incoming[at]) then at
    else ReadsFrom(StillWaiting(waiting, incoming[at]), incoming, at + 1)
  }

  function StillWaiting(waiting: set<Url>, i: Incoming): set<Url> {
    if i.EndOfStored? then waiting - {i.relay} else waiting
  }

  /** Whether every relay has said, among the first `n` messages, that it has no more. */
  predicate AllEnded(targets: set<Url>, incoming: seq<Incoming>, n: nat)
    requires n <= |incoming|
  {
    forall relay | relay in targets :: EndOfStored(relay) in incoming[..n]
  }

  /** Whether reading stops after `n` messages: at the first at which every relay has
      ended or a clock has run out, and not before. */
  predicate ReadsExactly(targets: set<Url>, incoming: seq<Incoming>, n: nat) {
    && n <= |incoming|
    && (n < |incoming| ==> AllEnded(targets, incoming, n) || incoming[n].Deadline? || incoming[n].Interrupt?)
    && forall k: nat | k < n ::
         !AllEnded(targets, incoming, k) && (incoming[k].Brought? || incoming[k].EndOfStored?)
  }

  lemma WaitingMeaning(targets: set<Url>, incoming: seq<Incoming>, n: nat)
    requires n <= |incoming|
    ensures Waiting(targets, incoming[..n]) == {} <==> AllEnded(targets, incoming, n)
  {
    var waiting := Waiting(targets, incoming[..n]);
    if waiting == {} {
      forall relay | relay in targets ensures EndOfStored(relay) in incoming[..n] {
        assert relay !in waiting;
      }
    }
    if AllEnded(targets, incoming, n) {
      assert forall relay | relay in targets :: relay in Ended(incoming[..n]);
    }
  }

  lemma {:induction false} ReadsUntil(targets: set<Url>, incoming: seq<Incoming>, at: nat)
    requires at <= |incoming|
    requires forall k: nat | k < at ::
               !AllEnded(targets, incoming, k) && (incoming[k].Brought? || incoming[k].EndOfStored?)
    ensures ReadsExactly(targets, incoming, ReadsFrom(Waiting(targets, incoming[..at]), incoming, at))
    decreases |incoming| - at
  {
    WaitingMeaning(targets, incoming, at);
    if at < |incoming| && !AllEnded(targets, incoming, at) && !Stops(incoming[at]) {
      EndedGrows(targets, incoming, at);
      ReadsUntil(targets, incoming, at + 1);
    }
  }

  lemma EndedGrows(targets: set<Url>, incoming: seq<Incoming>, n: nat)
    requires n < |incoming|
    ensures Waiting(targets, incoming[..n + 1]) == StillWaiting(Waiting(targets, incoming[..n]), incoming[n])
  {
    assert incoming[..n + 1] == incoming[..n] + [incoming[n]];
  }

  /** Reads the tagged subscription until every relay has reported the end of its
      history, the clock runs out, the stream ends, or the run is stopped. */
  method Listen(db: Store, r: Rules, targets: set<Url>, incoming: seq<Incoming>, soFar: Tally)
    returns (waiting: set<Url>, counts: Tally, namedRelays: bool, heard: nat)
    modifies db
    ensures ReadsExactly(targets, incoming, heard)
    ensures db.View() == RunFrom(r, old(db.View()), Deliveries(incoming[..heard]))
    ensures counts == soFar.Plus(TallyOf(r, old(db.View()), Deliveries(incoming[..heard])))
    ensures namedRelays <==> NewList(old(db.events), db.events)
    ensures waiting == {} <==> AllEnded(targets, incoming, heard)
  {
    waiting, counts, namedRelays, heard := targets, soFar, false, 0;
    ghost var start := db.View();
    ReadsUntil(targets, incoming, 0);
    while heard < |incoming| && waiting != {} && !Stops(incoming[heard])
      invariant heard <= |incoming|
      invariant ReadsFrom(targets, incoming, 0) == ReadsFrom(waiting, incoming, heard)
      invariant waiting == Waiting(targets, incoming[..heard])
      invariant db.View() == RunFrom(r, start, Deliveries(incoming[..heard]))
      invariant counts == soFar.Plus(TallyOf(r, start, Deliveries(incoming[..heard])))
      invariant namedRelays == ListStored(r, start, incoming[..heard])
    {
      OneMoreHeard(r, start, incoming, heard);
      EndedGrows(targets, incoming, heard);
      waiting := StillWaiting(waiting, incoming[heard]);
      if incoming[heard].Brought? {
        var named;
        named, counts := Hear(db, r, incoming[heard].delivery, counts, soFar, start, Deliveries(incoming[..heard]));
        namedRelays := namedRelays || named;
      }
      heard := heard + 1;
    }
    WaitingMeaning(targets, incoming, heard);
    ListStoredMeaning(r, start, incoming[..heard]);
  }

  /** Ingests one event and tallies its outcome, reporting whether it stored a relay
      list. */
  method Hear(db: Store, r: Rules, d: Delivery, counts: Tally, ghost soFar: Tally, ghost start: Tables,
              ghost before: seq<Attempt>)
    returns (named: bool, after: Tally)
    requires db.View() == RunFrom(r, start, before) && counts == soFar.Plus(TallyOf(r, start, before))
    modifies db
    ensures db.View() == Step(r, old(db.View()), d) && named == StoresList(r, old(db.View()), d)
    ensures after == soFar.Plus(TallyOf(r, start, before).Record(OutcomeOf(r, old(db.View()), d.event)))
  {
    var outcome := db.Ingest(r, d);
    named := outcome == Stored && d.event.kind == RELAY_LIST;
    after := counts.Record(outcome);
    RecordedOn(soFar, TallyOf(r, start, before), outcome);
  }

  /** Listens, and asks again who to dial when what it stored may have named a relay: it
      does not stop at a list that named nobody new. */
  method Prime(db: Store, r: Rules, client: Discovery.RelayClient, s: Discovery.Settings, targets: set<Url>,
               incoming: seq<Incoming>, soFar: Tally)
    returns (ending: Priming, counts: Tally, heard: nat)
    modifies db, client`configured
    ensures ReadsExactly(targets, incoming, heard)
    ensures var reached := RunFrom(r, old(db.View()), Deliveries(incoming[..heard]));
            var stopped := !AllEnded(targets, incoming, heard) && heard < |incoming| && incoming[heard].Interrupt?;
            var asks := !stopped && s.discover && NewList(old(db.events), reached.events);
            && db.View() == (if asks
                             then reached.(relays := Discovery.WithConfigured(reached.relays, s.configured, s.now))
                             else reached)
            && client.configured == (if asks then Discovery.DialSet(s, reached.relays) else old(client.configured))
            && (ending == Shutdown <==> stopped)
            && (ending == RelaysChanged <==> asks && exists relay ::
                  Discovery.Names(Discovery.DialSet(s, reached.relays), s.normal, relay) && relay !in client.relays)
    ensures counts == soFar.Plus(TallyOf(r, old(db.View()), Deliveries(incoming[..heard])))
  {
    var waiting, namedRelays;
    waiting, counts, namedRelays, heard := Listen(db, r, targets, incoming, soFar);
    if waiting != {} && heard < |incoming| && incoming[heard].Interrupt? {
      return Shutdown, counts, heard;
    }
    ending := Done;
    if namedRelays {
      var relays, changed := Discovery.Rediscover(client, s, db.relays);
      db.relays := relays;
      if changed { ending := RelaysChanged; }
    }
  }

  predicate StoresList(r: Rules, t: Tables, d: Delivery) {
    OutcomeOf(r, t, d.event) == Stored && d.event.kind == RELAY_LIST
  }

  /** Whether one of the messages stored a relay list. */
  predicate ListStored(r: Rules, t: Tables, incoming: seq<Incoming>) {
    incoming != [] &&
    var n := |incoming| - 1;
    ListStored(r, t, incoming[..n])
    || (incoming[n].Brought? && StoresList(r, RunFrom(r, t, Deliveries(incoming[..n])), incoming[n].delivery))
  }

  /** Whether a relay list was archived that was not before. */
  ghost predicate NewList(before: Archive, after: Archive) {
    exists id | id in after :: id !in before && after[id].event.kind == 10002
  }

  /** A relay list always reads: the one that is newly archived is the one that is
      stored. */
  lemma ListIsStored(r: Rules, t: Tables, d: Delivery)
    ensures StoresList(r, t, d) <==>
              d.event.kind == 10002 && d.event.id !in t.events && d.event.id in Step(r, t, d).events
    ensures || Step(r, t, d).events == t.events
            || Step(r, t, d).events == t.events[d.event.id := Archived(d.event, d.relay, d.now)]
    ensures forall id | id in t.events :: id in Step(r, t, d).events && Step(r, t, d).events[id] == t.events[id]
  {
  }

  lemma NewListNext(before: Archive, now: Archive, after: Archive, row: Archived)
    requires forall id | id in before :: id in now && now[id] == before[id]
    requires after == now || (row.event.id !in now && after == now[row.event.id := row])
    ensures NewList(before, after) <==> NewList(before, now) || (after != now && row.event.kind == 10002)
  {
    if after != now {
      assert after[row.event.id] == row && row.event.id !in before;
      if NewList(before, now) {
        var id :| id in now && id !in before && now[id].event.kind == 10002;
        assert after[id] == now[id];
      }
    }
  }

  lemma {:induction false} ArchiveStays(r: Rules, t: Tables, attempts: seq<Attempt>)
    ensures forall id | id in t.events ::
              id in RunFrom(r, t, attempts).events && RunFrom(r, t, attempts).events[id] == t.events[id]
  {
    forall id | id in t.events
      ensures id in RunFrom(r, t, attempts).events && RunFrom(r, t, attempts).events[id] == t.events[id]
    {
      FirstCopyStays(r, t, attempts, id);
    }
  }

  /** Some message stored a relay list exactly when the archive holds one it did not. */
  lemma {:induction false} ListStoredMeaning(r: Rules, t: Tables, incoming: seq<Incoming>)
    ensures ListStored(r, t, incoming) <==> NewList(t.events, RunFrom(r, t, Deliveries(incoming)).events)
  {
    if incoming != [] {
      var n := |incoming| - 1;
      var now := RunFrom(r, t, Deliveries(incoming[..n]));
      ListStoredMeaning(r, t, incoming[..n]);
      assert incoming[..n + 1] == incoming;
      OneMoreHeard(r, t, incoming, n);
      if incoming[n].Brought? {
        var d := incoming[n].delivery;
        ListIsStored(r, now, d);
        ArchiveStays(r, t, Deliveries(incoming[..n]));
        NewListNext(t.events, now.events, Step(r, now, d).events, Archived(d.event, d.relay, d.now));
      }
    }
  }

  lemma OneMoreHeard(r: Rules, t: Tables, incoming: seq<Incoming>, n: nat)
    requires n < |incoming|
    ensures var before, after := Deliveries(incoming[..n]), Deliveries(incoming[..n + 1]);
            var now := RunFrom(r, t, before);
            if incoming[n].Brought? then
              var d := incoming[n].delivery;
              && RunFrom(r, t, after) == Step(r, now, d)
              && TallyOf(r, t, after) == TallyOf(r, t, before).Record(OutcomeOf(r, now, d.event))
              && ListStored(r, t, incoming[..n + 1]) == (ListStored(r, t, incoming[..n]) || StoresList(r, now, d))
            else
              after == before && ListStored(r, t, incoming[..n + 1]) == ListStored(r, t, incoming[..n])
  {
    assert incoming[..n + 1][..n] == incoming[..n];
    if incoming[n].Brought? {
      OneMoreStep(r, t, Deliveries(incoming[..n]), incoming[n].delivery);
      OneMoreTallied(r, t, Deliveries(incoming[..n]), incoming[n].delivery);
    } else {
      assert Deliveries(incoming[..n + 1]) == Deliveries(incoming[..n]);
    }
  }

  /** A relay sends each event it holds before it reports the end of its history. */
  ghost predicate Faithful(incoming: seq<Incoming>, relay: Url, held: set<Event>) {
    forall e | e in held :: exists i: nat :: i < |incoming| && BringsBeforeEnd(incoming, i, relay, e)
  }

  predicate BringsBeforeEnd(incoming: seq<Incoming>, i: nat, relay: Url, e: Event)
    requires i < |incoming|
  {
    incoming[i].Brought? && incoming[i].delivery.event == e && incoming[i].delivery.relay == relay
    && EndOfStored(relay) !in incoming[..i]
  }

  lemma EndComesAfter(incoming: seq<Incoming>, i: nat, heard: nat, relay: Url, e: Event)
    requires i < |incoming| && heard <= |incoming| && BringsBeforeEnd(incoming, i, relay, e)
    requires relay in Ended(incoming[..heard])
    ensures i < heard
  {
    var n :| 0 <= n < heard && incoming[..heard][n] == EndOfStored(relay);
    forall k | 0 <= k < i ensures incoming[k] != EndOfStored(relay) {
      assert incoming[k] in incoming[..i];
    }
  }

  lemma {:induction false} DeliveriesHold(incoming: seq<Incoming>, i: nat) returns (k: nat)
    requires i < |incoming| && incoming[i].Brought?
    ensures k < |Deliveries(incoming)| && Deliveries(incoming)[k] == Committed(incoming[i].delivery)
  {
    var n := |incoming| - 1;
    if i == n { k := |Deliveries(incoming[..n])|; } else { k := DeliveriesHold(incoming[..n], i); }
  }

  /** Main result: however the relays' answers interleave, once every relay has
      reported the end of its history, every publisher of an acceptable tagged event
      one of them held is proven, then and in every later state: nothing untagged of
      theirs is turned away as unvouched. */
  lemma PrimingVouches(r: Rules, before: seq<Attempt>, incoming: seq<Incoming>, heard: nat, relay: Url,
                       held: set<Event>, e: Event, after: seq<Attempt>, x: Event)
    requires heard <= |incoming| && relay in Ended(incoming[..heard]) && Faithful(incoming, relay, held)
    requires CollisionFree(r, Delivered(before + Deliveries(incoming[..heard]) + after))
    requires e in held && e.kind in PLATFORM_TAGGED && Acceptable(r, e) && Parses(r.parsers, e)
    requires x.pubkey == e.pubkey
    ensures var t := Run(r, before + Deliveries(incoming[..heard]) + after);
            IsPlatformProven(t.derived, e.pubkey) && OutcomeOf(r, t, x) != Rejected(UnvouchedPublisher)
  {
    var i: nat :| i < |incoming| && BringsBeforeEnd(incoming, i, relay, e);
    EndComesAfter(incoming, i, heard, relay, e);
    var mid := Deliveries(incoming[..heard]);
    var k := DeliveriesHold(incoming[..heard], i);
    var all := before + mid + after;
    var at := |before| + k;
    assert all[at] == Committed(incoming[i].delivery);
    TaggedIsAccepted(r, Run(r, all[..at]), e);
    AcceptedStaysProven(r, all, at);
    ParseNeverSaysUnvouched(r, Run(r, all), x);
  }

  lemma ParseNeverSaysUnvouched(r: Rules, t: Tables, x: Event)
    ensures OutcomeOf(r, t, x) == Rejected(UnvouchedPublisher) ==> !Vouched(r, t, x)
  {
  }

  /** Asking for every kind at once loses that: a relay that answers with the
      untagged event first has it turned away, neither archived nor advanced over,
      though the same two events the other way round are both let in. */
  lemma OneSubscriptionLoses(r: Rules, tagged: Delivery, untagged: Delivery)
    requires tagged.event.kind in PLATFORM_TAGGED && Acceptable(r, tagged.event) && Parses(r.parsers, tagged.event)
    requires untagged.event.kind in UNTAGGED_KINDS && Acceptable(r, untagged.event)
    requires untagged.event.pubkey == tagged.event.pubkey && untagged.event.pubkey !in r.policy.instances
    ensures Run(r, [Committed(untagged)]) == EMPTY
    ensures OutcomeOf(r, EMPTY, untagged.event) == Rejected(UnvouchedPublisher)
    ensures OutcomeOf(r, Run(r, [Committed(tagged)]), untagged.event) != Rejected(UnvouchedPublisher)
  {
    AdmitMeaning(r, untagged.event);
    NobodyIsProvenYet(untagged.event.pubkey);
    var first := [Committed(tagged)];
    assert Delivered(first) == {tagged.event};
    TaggedIsAccepted(r, Run(r, first[..0]), tagged.event);
    AcceptedStaysProven(r, first, 0);
    ParseNeverSaysUnvouched(r, Run(r, first), untagged.event);
    assert [Committed(untagged)][..0] == [];
  }

  lemma NobodyIsProvenYet(pubkey: PubKey)
    ensures !IsPlatformProven(EMPTY.derived, pubkey)
  {
  }
}
