/** What a delivery is answered, said of the event and the archive alone. */
module Answers {
  import opened Prelude
  import opened Ranking
  import opened Events
  import opened Schema
  import opened Projection
  import opened Pipeline
  import opened Admission
  import opened Reachability
  import opened Priming

  // ---- Reading ----

  predicate IsKnownKind(kind: Kind) {
    IsTagged(kind) || kind == 30078 || kind == 10002
  }

  /** Whether the one `d` tag of an event holds this value and nothing else. */
  predicate IsAddressed(e: Event, value: string) {
    exists i: nat | i < |e.tags| :: OnlyTag(e.tags, "d", i) && e.tags[i][1..] == [value]
  }

  /** The prices an event of kind 30078 quotes. */
  function Quoted(p: Parsers, e: Event): Option<RateSnapshot> {
    if IsAddressed(e, "mostro-rates") then p.rates(e) else None
  }

  /** Whether the parser of an event's kind reads it; a relay list always reads. */
  predicate IsRead(p: Parsers, e: Event) {
    if e.kind == 38383 then p.order(e).Some?
    else if e.kind == 8383 then p.devFee(e).Some?
    else if e.kind == 38386 then p.dispute(e).Some?
    else if e.kind == 38385 then IsAddressed(e, p.hex(e.pubkey)) && p.info(e.pubkey, multiset(e.tags)).Some?
    else if e.kind == 30078 then Quoted(p, e).Some?
    else e.kind == 10002
  }

  lemma InfoIsRead(p: Parsers, e: Event)
    ensures ReadInfo(p, e).Some? <==> IsAddressed(e, p.hex(e.pubkey)) && p.info(e.pubkey, multiset(e.tags)).Some?
  {
    TagValuesMeaning(e.tags, "d");
  }

  lemma RatesAreRead(p: Parsers, e: Event)
    ensures ReadRates(p, e) == Quoted(p, e)
  {
    TagValuesMeaning(e.tags, "d");
  }

  /** An event no parser reads is of an unknown kind, or malformed. */
  lemma ReadMeaning(p: Parsers, e: Event)
    ensures Parse(p, e).Ok? <==> IsRead(p, e)
    ensures Parse(p, e) == Err(UnsupportedKind) <==> !IsKnownKind(e.kind)
    ensures Parse(p, e) == Err(Malformed) <==> IsKnownKind(e.kind) && !IsRead(p, e)
  {
    InfoIsRead(p, e);
    RatesAreRead(p, e);
  }

  // ---- Vouching ----

  /** Whether an archived event of the publisher said it was Mostro's. */
  predicate HasShownItself(p: Parsers, archive: Archive, pubkey: PubKey) {
    exists id | id in archive ::
      archive[id].event.pubkey == pubkey && IsTagged(archive[id].event.kind) && IsRead(p, archive[id].event)
  }

  predicate IsVouchedFor(r: Rules, archive: Archive, e: Event) {
    e.kind == 30078 || e.kind == 10002 ==>
      e.pubkey in r.policy.instances || HasShownItself(r.parsers, archive, e.pubkey)
  }

  lemma ProofIsShown(p: Parsers, archive: Archive, pubkey: PubKey)
    requires IsPlatformProven(Derive(p, archive), pubkey)
    ensures HasShownItself(p, archive, pubkey)
  {
    var id := ProofIsArchived(p, archive, pubkey);
    ReadMeaning(p, archive[id].event);
  }

  lemma ShownIsProof(p: Parsers, archive: Archive, pubkey: PubKey)
    requires HasShownItself(p, archive, pubkey) && forall id | id in archive :: archive[id].event.id == id
    ensures IsPlatformProven(Derive(p, archive), pubkey)
  {
    var id :| id in archive && archive[id].event.pubkey == pubkey
              && IsTagged(archive[id].event.kind) && IsRead(p, archive[id].event);
    ReadMeaning(p, archive[id].event);
    ArchivedProves(p, archive, archive[id].event);
  }

  /** A publisher is proven exactly when it has shown itself. */
  lemma ProvenMeaning(r: Rules, t: Tables, pubkey: PubKey)
    requires Inv(r, t)
    ensures IsPlatformProven(t.derived, pubkey) <==> HasShownItself(r.parsers, t.events, pubkey)
  {
    if IsPlatformProven(t.derived, pubkey) {
      ProofIsShown(r.parsers, t.events, pubkey);
    } else if HasShownItself(r.parsers, t.events, pubkey) {
      ShownIsProof(r.parsers, t.events, pubkey);
    }
  }

  lemma VouchedMeaning(r: Rules, t: Tables, e: Event)
    requires Inv(r, t)
    ensures Vouched(r, t, e) <==> IsVouchedFor(r, t.events, e)
  {
    ProvenMeaning(r, t, e.pubkey);
  }

  // ---- Repetition ----

  predicate InOneHour(a: nat, b: nat) { a / 3600 == b / 3600 }

  /** Whether another archived event of the publisher quotes prices of the same hour. */
  predicate HourIsTaken(p: Parsers, archive: Archive, e: Event) {
    Quoted(p, e).Some? &&
    exists id | id in archive && id != e.id ::
      && archive[id].event.kind == 30078 && archive[id].event.pubkey == e.pubkey
      && Quoted(p, archive[id].event).Some?
      && InOneHour(Quoted(p, archive[id].event).value.publishedAt, Quoted(p, e).value.publishedAt)
  }

  /** Whether `a` stands at the address of `e`, no later than it. */
  predicate PrecedesAtAddress(a: Event, e: Event) {
    a.id != e.id && a.pubkey == e.pubkey && a.kind == e.kind && DTag(a) == DTag(e) && a.createdAt <= e.createdAt
  }

  /** Whether the archived version before `e`, at its address, says what `e` says. */
  predicate SaysItAgain(archive: Archive, e: Event) {
    exists id | id in archive ::
      && PrecedesAtAddress(archive[id].event, e)
      && (forall o | o in archive && o != id && PrecedesAtAddress(archive[o].event, e) ::
            archive[o].event.createdAt < archive[id].event.createdAt
            || (archive[o].event.createdAt == archive[id].event.createdAt && id < o))
      && archive[id].event.content == e.content && multiset(archive[id].event.tags) == multiset(e.tags)
  }

  predicate Repeats(p: Parsers, archive: Archive, e: Event) {
    || (e.kind == 30078 && HourIsTaken(p, archive, e))
    || ((e.kind == 38385 || e.kind == 10002) && SaysItAgain(archive, e))
  }

  lemma AgainMeaning(r: Rules, archive: Archive, e: Event)
    requires WellKeyed(r, archive)
    ensures RepeatsPredecessor(archive, e) <==> SaysItAgain(archive, e)
  {
    var before := Preceding(archive, e);
    forall id | id in archive
      ensures id in before <==> PrecedesAtAddress(archive[id].event, e)
      ensures SaysTheSame(archive[id].event, e) <==>
                archive[id].event.content == e.content && multiset(archive[id].event.tags) == multiset(e.tags)
    {
      SameTagsIsUpToOrder(archive[id].event, e);
    }
    assert forall id :: id in before ==> before[id] == archive[id].event.createdAt;
    if before.Keys != {} { assert IsNewest(before, Newest(before)); }
  }

  lemma QuoteRow(p: Parsers, archive: Archive, id: EventId)
    ensures var rates := Select(p, archive, AsRates);
            && (id in rates <==> id in archive && archive[id].event.kind == 30078 && Quoted(p, archive[id].event).Some?)
            && (id in rates ==> rates[id].pubkey == archive[id].event.pubkey
                                && rates[id].publishedAt == Quoted(p, archive[id].event).value.publishedAt)
  {
    if id in archive { RatesAreRead(p, archive[id].event); }
  }

  lemma HourMeaning(p: Parsers, archive: Archive, e: Event)
    requires Quoted(p, e).Some?
    ensures HasSnapshotInHour(Select(p, archive, AsRates), e, Quoted(p, e).value.publishedAt)
       <==> HourIsTaken(p, archive, e)
  {
    var rates, at := Select(p, archive, AsRates), Quoted(p, e).value.publishedAt;
    if HasSnapshotInHour(rates, e, at) {
      var id :| id in rates && id != e.id && rates[id].pubkey == e.pubkey
                && RatesBucket(rates[id].publishedAt) == RatesBucket(at);
      QuoteRow(p, archive, id);
    }
    if HourIsTaken(p, archive, e) {
      var id :| id in archive && id != e.id && archive[id].event.kind == 30078 && archive[id].event.pubkey == e.pubkey
                && Quoted(p, archive[id].event).Some?
                && InOneHour(Quoted(p, archive[id].event).value.publishedAt, at);
      QuoteRow(p, archive, id);
    }
  }

  /** Only three kinds can repeat, and each is compared in its own way. */
  lemma RedundantByKind(p: Parsers, t: Tables, e: Event)
    requires Parse(p, e).Ok?
    ensures IsRedundant(t, e, Parse(p, e).value)
       <==> if e.kind == 30078 then HasSnapshotInHour(t.derived.rates, e, ReadRates(p, e).value.publishedAt)
            else (e.kind == 38385 || e.kind == 10002) && RepeatsPredecessor(t.events, e)
  {
  }

  lemma RepetitionMeaning(r: Rules, t: Tables, e: Event)
    requires WellKeyed(r, t.events) && t.derived.rates == Select(r.parsers, t.events, AsRates)
    requires Parse(r.parsers, e).Ok?
    ensures IsRedundant(t, e, Parse(r.parsers, e).value) <==> Repeats(r.parsers, t.events, e)
  {
    RedundantByKind(r.parsers, t, e);
    AgainMeaning(r, t.events, e);
    RatesAreRead(r.parsers, e);
    if e.kind == 30078 { HourMeaning(r.parsers, t.events, e); }
  }

  // ---- The answer ----

  predicate IsWelcome(r: Rules, archive: Archive, e: Event) {
    Acceptable(r, e) && IsVouchedFor(r, archive, e) && IsRead(r.parsers, e)
  }

  /** Whether `o` is the answer to `e`, over this archive. */
  predicate IsAnswer(r: Rules, archive: Archive, e: Event, o: Outcome) {
    match o
    case Stored => IsWelcome(r, archive, e) && !Repeats(r.parsers, archive, e) && e.id !in archive
    case Duplicate => IsWelcome(r, archive, e) && !Repeats(r.parsers, archive, e) && e.id in archive
    case Redundant => IsWelcome(r, archive, e) && Repeats(r.parsers, archive, e)
    case Rejected(UnvouchedPublisher) => Acceptable(r, e) && !IsVouchedFor(r, archive, e)
    case Rejected(UnsupportedKind) => Acceptable(r, e) && !IsKnownKind(e.kind)
    case Rejected(why) =>
      || FailsFirst(r, e, why)
      || (why == Malformed && Acceptable(r, e) && IsVouchedFor(r, archive, e)
          && IsKnownKind(e.kind) && !IsRead(r.parsers, e))
  }

  /** Main result: in every state that keeps the invariant each delivery has exactly one
      answer, and it is decided by what the event and the archive say. */
  lemma AnswerMeaning(r: Rules, t: Tables, e: Event, o: Outcome)
    requires Inv(r, t)
    ensures OutcomeOf(r, t, e) == o <==> IsAnswer(r, t.events, e, o)
  {
    AdmitMeaning(r, e);
    RejectionMeaning(r, e);
    VouchedMeaning(r, t, e);
    ReadMeaning(r.parsers, e);
    if Parse(r.parsers, e).Ok? { RepetitionMeaning(r, t, e); }
  }

  /** So it is after every run. */
  lemma AnswerAfterRun(r: Rules, attempts: seq<Attempt>, e: Event, o: Outcome)
    ensures OutcomeOf(r, Run(r, attempts), e) == o <==> IsAnswer(r, Run(r, attempts).events, e, o)
  {
    Reachable(r, attempts);
    AnswerMeaning(r, Run(r, attempts), e, o);
  }
}
