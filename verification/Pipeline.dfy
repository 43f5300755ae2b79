/** The eight steps one delivered event goes through, as a function of the tables
    and as the methods that rewrite them in place. */
module Pipeline {
  import opened Prelude
  import opened Ranking
  import opened Events
  import opened Schema
  import opened Grouping
  import opened Projection
  import opened Counting

  /** Which events this indexer wants. */
  datatype Policy = Policy(instances: set<PubKey>, acceptUnknown: bool, networks: set<Network>)

  datatype Rules = Rules(policy: Policy, parsers: Parsers)

  /** One event, brought by one relay at one moment. */
  datatype Delivery = Delivery(event: Event, relay: Url, now: int)

  datatype Outcome = Stored | Duplicate | Redundant | Rejected(why: Rejection)

  // ---- Steps 2 to 5: what the event alone decides ----

  function Admit(r: Rules, e: Event): Option<Rejection> {
    if !r.parsers.verify(e) then Some(InvalidSignature)
    else if !r.policy.acceptUnknown && e.pubkey !in r.policy.instances then Some(UnknownInstance)
    else if e.kind in PLATFORM_TAGGED && !IsMostro(e) then Some(OtherPlatform)
    else if e.kind in NETWORK_TAGGED then
      match r.parsers.network(e.tags)
      case Ok(Some(network)) => if network in r.policy.networks then None else Some(OtherNetwork(network))
      case Ok(None) => None
      case Err(_) => Some(Malformed)
    else None
  }

  // ---- Step 4b: what the archive has to answer ----

  predicate HasPublisher<V>(rows: Rows<V>, publisher: V -> PubKey, pubkey: PubKey) {
    exists id | id in rows :: publisher(rows[id]) == pubkey
  }

  function OrderPublisher(v: OrderVersion): PubKey { v.pubkey }

  function FeePublisher(f: Marked<DevFee>): PubKey { f.row.pubkey }

  function DisputePublisher(v: DisputeVersion): PubKey { v.pubkey }

  function InfoPublisher(i: InstanceInfo): PubKey { i.pubkey }

  /** Whether this key has published an event that identified itself as Mostro's. */
  predicate IsPlatformProven(t: Derived, pubkey: PubKey) {
    || HasPublisher(t.orderVersions, OrderPublisher, pubkey)
    || HasPublisher(t.devFees, FeePublisher, pubkey)
    || HasPublisher(t.disputeVersions, DisputePublisher, pubkey)
    || HasPublisher(t.info, InfoPublisher, pubkey)
  }

  predicate Vouched(r: Rules, t: Tables, e: Event) {
    e.kind !in UNTAGGED_KINDS || e.pubkey in r.policy.instances || IsPlatformProven(t.derived, e.pubkey)
  }

  // ---- Step 6a: heartbeats ----

  const RATES_BUCKET_SECS := 3600

  function RatesBucket(publishedAt: nat): nat {
    publishedAt / RATES_BUCKET_SECS
  }

  /** The archived events at the address of `e`, no later than it and not itself. */
  function Preceding(archive: Archive, e: Event): Stamps {
    map id | id in archive && id != e.id && archive[id].event.pubkey == e.pubkey
      && archive[id].event.kind == e.kind && DTag(archive[id].event) == DTag(e)
      && archive[id].event.createdAt <= e.createdAt :: archive[id].event.createdAt
  }

  predicate SaysTheSame(a: Event, b: Event) {
    a.content == b.content && SameTags(a, b)
  }

  /** Whether `e` repeats what the archive already holds. */
  predicate IsRedundant(t: Tables, e: Event, parsed: Parsed) {
    match parsed
    case ParsedRates(snapshot) =>
      HasSnapshotInHour(t.derived.rates, e, snapshot.publishedAt)
    case ParsedInfo(_) => RepeatsPredecessor(t.events, e)
    case ParsedRelayList(_) => RepeatsPredecessor(t.events, e)
    case _ => false
  }

  predicate HasSnapshotInHour(rates: Rows<RateSnapshot>, e: Event, publishedAt: nat) {
    exists id | id in rates :: id != e.id && rates[id].pubkey == e.pubkey
      && RatesBucket(rates[id].publishedAt) == RatesBucket(publishedAt)
  }

  predicate RepeatsPredecessor(archive: Archive, e: Event) {
    var before := Preceding(archive, e);
    before.Keys != {} && SaysTheSame(archive[Newest(before)].event, e)
  }

  // ---- Steps 6 to 8: the rows one event writes ----

  /** A sighting of `pubkey` at `at`, perhaps under a name: a name wins unless a
      newer one is known. */
  function Sighted(before: Option<Instance>, name: Option<string>, at: nat): Instance {
    match before
    case None => Instance(name, if name.None? then None else Some(at), at, at)
    case Some(i) =>
      var wins := name.Some? && (i.nameSeenAt.None? || at >= i.nameSeenAt.value);
      Instance(
        if wins then name else i.name,
        if wins then Some(at) else i.nameSeenAt,
        Min(i.firstSeenAt, at),
        Max(i.lastSeenAt, at))
  }

  function Find<K, V>(table: map<K, V>, key: K): Option<V> {
    if key in table then Some(table[key]) else None
  }

  function UpsertInstance(instances: map<PubKey, Instance>, pubkey: PubKey, name: Option<string>, at: nat)
    : map<PubKey, Instance>
  {
    instances[pubkey := Sighted(Find(instances, pubkey), name, at)]
  }

  function RecordName(names: map<(PubKey, string), nat>, pubkey: PubKey, name: Option<string>, at: nat)
    : map<(PubKey, string), nat>
  {
    if name.None? then names
    else
      var key := (pubkey, name.value);
      names[key := if key in names then Max(names[key], at) else at]
  }

  /** Records each url, keeping the source that named it first. */
  function UpsertRelays(relays: map<Url, RelayRow>, urls: set<Url>, source: Source, at: int): map<Url, RelayRow> {
    map url | url in relays.Keys + urls :: if url in relays then relays[url] else RelayRow(source, at)
  }

  lemma NoUrls(relays: map<Url, RelayRow>, source: Source, at: int)
    ensures UpsertRelays(relays, {}, source, at) == relays
  {
  }

  function AdvanceCursor(before: Option<Cursor>, at: nat, now: int): Cursor {
    match before
    case None => Cursor(at, now)
    case Some(c) => Cursor(Max(c.lastCreatedAt, at), Max(c.updatedAt, now))
  }

  // ---- The whole step ----

  function OutcomeOf(r: Rules, t: Tables, e: Event): Outcome {
    if Admit(r, e).Some? then Rejected(Admit(r, e).value)
    else if !Vouched(r, t, e) then Rejected(UnvouchedPublisher)
    else match Parse(r.parsers, e)
      case Err(why) => Rejected(why)
      case Ok(parsed) =>
        if IsRedundant(t, e, parsed) then Redundant
        else if e.id in t.events then Duplicate
        else Stored
  }

  /** Whether this delivery is the one that archives its event: an admitted event
      no parser reads is kept too. */
  predicate Files(r: Rules, t: Tables, e: Event) {
    && e.id !in t.events && Admit(r, e).None? && Vouched(r, t, e)
    && (Parse(r.parsers, e).Err? || !IsRedundant(t, e, Parse(r.parsers, e).value))
  }

  function WithRow(t: Derived, read: Reading): Derived {
    match read case Ok(parsed) => AddRow(t, parsed) case Err(_) => t
  }

  function RelaysIn(read: Reading): set<Url> {
    match read case Ok(ParsedRelayList(urls)) => urls case _ => {}
  }

  function WithSighting(t: map<PubKey, Instance>, outcome: Outcome, e: Event): map<PubKey, Instance> {
    match outcome
    case Stored => UpsertInstance(t, e.pubkey, InstanceName(e), e.createdAt)
    case Redundant => UpsertInstance(t, e.pubkey, None, e.createdAt)
    case _ => t
  }

  function WithCursor(t: map<(Url, Kind), Cursor>, d: Delivery): map<(Url, Kind), Cursor> {
    var key := (d.relay, d.event.kind);
    t[key := AdvanceCursor(Find(t, key), d.event.createdAt, d.now)]
  }

  /** The tables after one delivery, table by table. */
  function Step(r: Rules, t: Tables, d: Delivery): Tables {
    var e := d.event;
    var read, outcome, files := Parse(r.parsers, e), OutcomeOf(r, t, e), Files(r, t, e);
    Tables(
      if files then t.events[e.id := Archived(e, d.relay, d.now)] else t.events,
      if files then WithRow(t.derived, read) else t.derived,
      if files then UpsertRelays(t.relays, RelaysIn(read), Nip65(e.pubkey), e.createdAt) else t.relays,
      WithSighting(t.instances, outcome, e),
      if outcome == Stored then RecordName(t.names, e.pubkey, InstanceName(e), e.createdAt) else t.names,
      if outcome.Rejected? then t.cursors else WithCursor(t.cursors, d))
  }

  /** What one parsed event writes beside the archive. */
  function Persist(t: Tables, e: Event, parsed: Parsed): Tables {
    t.(derived := AddRow(t.derived, parsed),
       relays := UpsertRelays(t.relays, RelaysIn(Ok(parsed)), Nip65(e.pubkey), e.createdAt),
       instances := UpsertInstance(t.instances, e.pubkey, InstanceName(e), e.createdAt),
       names := RecordName(t.names, e.pubkey, InstanceName(e), e.createdAt))
  }

  /** One delivery attempt: a transaction commits or leaves nothing behind. */
  datatype Attempt = Committed(delivery: Delivery) | RolledBack(delivery: Delivery)

  function Take(r: Rules, t: Tables, a: Attempt): Tables {
    if a.Committed? then Step(r, t, a.delivery) else t
  }

  function RunFrom(r: Rules, t: Tables, attempts: seq<Attempt>): Tables {
    if attempts == [] then t else Take(r, RunFrom(r, t, attempts[..|attempts| - 1]), attempts[|attempts| - 1])
  }

  /** The tables a database fresh from its migrations ends with. */
  function Run(r: Rules, attempts: seq<Attempt>): Tables {
    RunFrom(r, EMPTY, attempts)
  }

  lemma OneMoreStep(r: Rules, t: Tables, before: seq<Attempt>, d: Delivery)
    ensures RunFrom(r, t, before + [Committed(d)]) == Step(r, RunFrom(r, t, before), d)
  {
    var more := before + [Committed(d)];
    assert more[..|more| - 1] == before;
  }

  lemma {:induction false} RunOn(r: Rules, t: Tables, a: seq<Attempt>, b: seq<Attempt>)
    ensures RunFrom(r, t, a + b) == RunFrom(r, RunFrom(r, t, a), b)
  {
    if b == [] {
      assert a + b == a;
    } else {
      assert (a + b)[..|a + b| - 1] == a + b[..|b| - 1];
      RunOn(r, t, a, b[..|b| - 1]);
    }
  }

  /** The tally of a run. */
  datatype Tally = Tally(stored: nat, duplicate: nat, redundant: nat, rejected: nat) {
    function Total(): nat { stored + duplicate + redundant + rejected }

    function Plus(other: Tally): Tally {
      Tally(stored + other.stored, duplicate + other.duplicate, redundant + other.redundant, rejected + other.rejected)
    }

    function Record(outcome: Outcome): Tally {
      match outcome
      case Stored => this.(stored := stored + 1)
      case Duplicate => this.(duplicate := duplicate + 1)
      case Redundant => this.(redundant := redundant + 1)
      case Rejected(_) => this.(rejected := rejected + 1)
    }
  }

  const NO_TALLY := Tally(0, 0, 0, 0)

  /** The tally of what `attempts` do to `t`. */
  function TallyOf(r: Rules, t: Tables, attempts: seq<Attempt>): Tally {
    if attempts == [] then NO_TALLY
    else
      var n := |attempts| - 1;
      var before := TallyOf(r, t, attempts[..n]);
      if attempts[n].RolledBack? then before
      else before.Record(OutcomeOf(r, RunFrom(r, t, attempts[..n]), attempts[n].delivery.event))
  }

  lemma OneMoreTallied(r: Rules, t: Tables, before: seq<Attempt>, d: Delivery)
    ensures TallyOf(r, t, before + [Committed(d)])
         == TallyOf(r, t, before).Record(OutcomeOf(r, RunFrom(r, t, before), d.event))
  {
    assert (before + [Committed(d)])[..|before|] == before;
  }

  /** Whether attempt `i` was committed and answered so. */
  predicate AnsweredAt(r: Rules, t: Tables, attempts: seq<Attempt>, test: Outcome -> bool, i: nat) {
    i < |attempts| && attempts[i].Committed?
    && test(OutcomeOf(r, RunFrom(r, t, attempts[..i]), attempts[i].delivery.event))
  }

  function Answered(r: Rules, t: Tables, attempts: seq<Attempt>, test: Outcome -> bool): set<nat> {
    Upto(|attempts|, Answering(r, t, attempts, test))
  }

  function Answering(r: Rules, t: Tables, attempts: seq<Attempt>, test: Outcome -> bool): nat -> bool {
    (i: nat) => AnsweredAt(r, t, attempts, test, i)
  }

  lemma AnsweredEarlier(r: Rules, t: Tables, attempts: seq<Attempt>, n: nat, test: Outcome -> bool, i: nat)
    requires i < n <= |attempts|
    ensures AnsweredAt(r, t, attempts[..n], test, i) == AnsweredAt(r, t, attempts, test, i)
  {
    assert attempts[..n][..i] == attempts[..i];
  }

  lemma AnsweredNext(r: Rules, t: Tables, attempts: seq<Attempt>, test: Outcome -> bool)
    requires attempts != []
    ensures var n := |attempts| - 1;
            |Answered(r, t, attempts, test)|
            == |Answered(r, t, attempts[..n], test)| + if AnsweredAt(r, t, attempts, test, n) then 1 else 0
  {
    var n := |attempts| - 1;
    var before, now := Answering(r, t, attempts[..n], test), Answering(r, t, attempts, test);
    forall i: nat | i < n ensures before(i) == now(i) {
      AnsweredEarlier(r, t, attempts, n, test, i);
    }
    UptoSame(n, before, now);
    UptoNext(n, now);
  }

  /** Each figure of a tally is how many committed attempts were answered so. */
  lemma {:induction false} TallyMeaning(r: Rules, t: Tables, attempts: seq<Attempt>)
    ensures var tally := TallyOf(r, t, attempts);
            && tally.stored == |Answered(r, t, attempts, (o: Outcome) => o == Stored)|
            && tally.duplicate == |Answered(r, t, attempts, (o: Outcome) => o == Duplicate)|
            && tally.redundant == |Answered(r, t, attempts, (o: Outcome) => o == Redundant)|
            && tally.rejected == |Answered(r, t, attempts, (o: Outcome) => o.Rejected?)|
  {
    if attempts != [] {
      TallyMeaning(r, t, attempts[..|attempts| - 1]);
      AnsweredNext(r, t, attempts, (o: Outcome) => o == Stored);
      AnsweredNext(r, t, attempts, (o: Outcome) => o == Duplicate);
      AnsweredNext(r, t, attempts, (o: Outcome) => o == Redundant);
      AnsweredNext(r, t, attempts, (o: Outcome) => o.Rejected?);
    }
  }

  lemma RecordedOn(a: Tally, b: Tally, outcome: Outcome)
    ensures a.Plus(b).Record(outcome) == a.Plus(b.Record(outcome))
  {
  }
}
