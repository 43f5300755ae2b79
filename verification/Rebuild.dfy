/** Re-deriving everything that was derived, from the archived events. */
module Rebuild {
  import opened Prelude
  import opened Ranking
  import opened Events
  import opened Schema
  import opened Grouping
  import opened Projection
  import opened Pipeline
  import opened Reachability
  import opened Database

  // ---- What a rebuild comes to ----

  /** `SELECT … FROM events ORDER BY created_at, id`. */
  function ReplayOrder(archive: Archive): (ids: seq<EventId>)
    decreases |archive|
  {
    if archive.Keys == {} then []
    else
      var stamps: Stamps := map id | id in archive :: archive[id].event.createdAt;
      assert stamps.Keys == archive.Keys;
      var first := Oldest(stamps);
      [first] + ReplayOrder(archive - {first})
  }

  /** Re-derives what one archived event feeds; admission is not asked again. */
  function Replay(p: Parsers, t: Tables, e: Event): Tables {
    match Parse(p, e) case Ok(parsed) => Persist(t, e, parsed) case Err(_) => t
  }

  function ReplayAll(p: Parsers, t: Tables, ids: seq<EventId>): Tables
    requires forall id | id in ids :: id in t.events
    ensures ReplayAll(p, t, ids).events == t.events && ReplayAll(p, t, ids).cursors == t.cursors
  {
    if ids == [] then t
    else
      var n := |ids| - 1;
      Replay(p, ReplayAll(p, t, ids[..n]), t.events[ids[n]].event)
  }

  /** What a rebuild empties before it replays. */
  function Cleared(t: Tables, fromRaw: bool): Tables {
    t.(derived := if fromRaw then NOTHING else t.derived.(orders := map[], disputes := map[]),
       instances := map[], names := map[])
  }

  /** Every projection and every flag, recomputed from the version tables. */
  function Swept(t: Derived): Derived {
    t.(orders := OrdersOf(t.orderVersions), disputes := DisputesOf(t.disputeVersions),
       devFees := Flagged(t.devFees, FeeKey, FeeStamp))
  }

  function Rebuilt(p: Parsers, t: Tables, fromRaw: bool): Tables {
    ReplayOrderIsTheArchive(t.events);
    var replayed := ReplayAll(p, Cleared(t, fromRaw), ReplayOrder(t.events));
    replayed.(derived := Swept(replayed.derived))
  }

  /** Whether the event under `a` is replayed before the one under `b`. */
  predicate Before(archive: Archive, a: EventId, b: EventId)
    requires a in archive && b in archive
  {
    archive[a].event.createdAt < archive[b].event.createdAt
    || (archive[a].event.createdAt == archive[b].event.createdAt && a < b)
  }

  lemma FirstReplayed(archive: Archive) returns (first: EventId)
    requires archive.Keys != {}
    ensures first in archive && forall id | id in archive && id != first :: Before(archive, first, id)
    ensures ReplayOrder(archive) == [first] + ReplayOrder(archive - {first})
  {
    var stamps: Stamps := map id | id in archive :: archive[id].event.createdAt;
    assert stamps.Keys == archive.Keys;
    first := Oldest(stamps);
    forall id | id in archive && id != first ensures Before(archive, first, id) {
      assert id in stamps;
    }
  }

  ghost predicate Ascending(archive: Archive, ids: seq<EventId>) {
    && (forall id | id in ids :: id in archive)
    && forall i, j | 0 <= i < j < |ids| :: Before(archive, ids[i], ids[j])
  }

  lemma Prepended(archive: Archive, first: EventId, tail: seq<EventId>)
    requires first in archive && Ascending(archive - {first}, tail)
    requires forall id | id in archive && id != first :: Before(archive, first, id)
    ensures Ascending(archive, [first] + tail)
  {
    var ids, rest := [first] + tail, archive - {first};
    forall i, j | 0 <= i < j < |ids| ensures ids[i] in archive && ids[j] in archive && Before(archive, ids[i], ids[j]) {
      assert ids[j] == tail[j - 1] && tail[j - 1] in rest;
      if i > 0 { assert ids[i] == tail[i - 1] && Before(rest, tail[i - 1], tail[j - 1]); }
    }
  }

  lemma AscendingIsDistinct(archive: Archive, ids: seq<EventId>)
    requires Ascending(archive, ids)
    ensures Distinct(ids)
  {
    forall i, j | 0 <= i < j < |ids| ensures ids[i] != ids[j] {
      assert Before(archive, ids[i], ids[j]);
    }
  }

  /** The replay visits every archived event once, oldest first, and within one
      second by id. */
  lemma {:induction false} ReplayOrderIsTheArchive(archive: Archive)
    ensures forall id :: id in ReplayOrder(archive) <==> id in archive
    ensures Ascending(archive, ReplayOrder(archive)) && Distinct(ReplayOrder(archive))
    decreases |archive|
  {
    if archive.Keys != {} {
      var first := FirstReplayed(archive);
      var rest := archive - {first};
      assert rest.Keys == archive.Keys - {first};
      ReplayOrderIsTheArchive(rest);
      Prepended(archive, first, ReplayOrder(rest));
      AscendingIsDistinct(archive, ReplayOrder(archive));
    }
  }

  // ---- The derived tables ----

  ghost predicate Keyed(archive: Archive) {
    forall id | id in archive :: archive[id].event.id == id
  }

  function Among(archive: Archive, ids: seq<EventId>): Archive {
    map id | id in archive && id in ids :: archive[id]
  }

  lemma AmongGrows(archive: Archive, ids: seq<EventId>, id: EventId)
    requires id in archive && id !in ids
    ensures id !in Among(archive, ids)
    ensures Among(archive, ids + [id]) == Among(archive, ids)[id := archive[id]]
  {
    var one, other := Among(archive, ids + [id]), Among(archive, ids)[id := archive[id]];
    forall o ensures o in one <==> o in other {
      assert o in ids + [id] <==> o in ids || o == id;
    }
  }

  lemma {:induction false} ReplayDerives(p: Parsers, t: Tables, ids: seq<EventId>)
    requires Keyed(t.events) && Distinct(ids) && forall id | id in ids :: id in t.events
    requires t.derived == NOTHING
    ensures ReplayAll(p, t, ids).derived == Derive(p, Among(t.events, ids))
  {
    if ids == [] {
      assert Among(t.events, ids) == map[];
      EmptyDerivesNothing(p);
    } else {
      var n := |ids| - 1;
      var id := ids[n];
      assert ids == ids[..n] + [id];
      ReplayDerives(p, t, ids[..n]);
      AmongGrows(t.events, ids[..n], id);
      DeriveNew(p, Among(t.events, ids[..n]), id, t.events[id]);
    }
  }

  lemma EmptyDerivesNothing(p: Parsers)
    ensures Derive(p, map[]) == NOTHING
  {
  }

  /** Whether the version tables hold what the archive says, whatever the
      projections and the flags beside them hold. */
  ghost predicate VersionsFollow(p: Parsers, archive: Archive, t: Derived) {
    && t.orderVersions == Select(p, archive, AsOrder)
    && t.disputeVersions == Select(p, archive, AsDispute)
    && SameRows(t.devFees, Unflagged(Select(p, archive, AsFee)))
    && t.info == Select(p, archive, AsInfo)
    && t.rates == Select(p, archive, AsRates)
  }

  lemma DerivedVersionsFollow(p: Parsers, archive: Archive)
    ensures VersionsFollow(p, archive, Derive(p, archive))
  {
  }

  lemma SweptFollows(p: Parsers, archive: Archive, t: Derived)
    requires VersionsFollow(p, archive, t)
    ensures Swept(t) == Derive(p, archive)
  {
    FlagsDoNotMatter(t.devFees, Unflagged(Select(p, archive, AsFee)), FeeKey, FeeStamp);
  }

  predicate HasRow(t: Derived, parsed: Parsed, id: EventId) {
    match parsed
    case ParsedOrder(_) => id in t.orderVersions
    case ParsedFee(_) => id in t.devFees
    case ParsedDispute(_) => id in t.disputeVersions
    case ParsedInfo(_) => id in t.info
    case ParsedRates(_) => id in t.rates
    case ParsedRelayList(_) => true
  }

  lemma ReplayedRowIsThere(p: Parsers, archive: Archive, t: Derived, id: EventId)
    requires VersionsFollow(p, archive, t) && id in archive && Parses(p, archive[id].event)
    ensures HasRow(t, Parse(p, archive[id].event).value, id)
  {
  }

  /** Inserting a row again changes no version table. */
  lemma RowAgain(t: Derived, parsed: Parsed, id: EventId)
    requires HasRow(t, parsed, id) && Stamped(Ok(parsed), id)
    ensures var again := AddRow(t, parsed);
            && again.orderVersions == t.orderVersions && again.disputeVersions == t.disputeVersions
            && SameRows(again.devFees, t.devFees) && again.info == t.info && again.rates == t.rates
  {
    if parsed.ParsedFee? { RefreshKeepsRows(t.devFees, FeeKey, FeeStamp, parsed.fee.orderId); }
  }

  lemma {:induction false} ReplayKeepsVersions(p: Parsers, t: Tables, ids: seq<EventId>)
    requires Keyed(t.events) && forall id | id in ids :: id in t.events
    requires VersionsFollow(p, t.events, t.derived)
    ensures VersionsFollow(p, t.events, ReplayAll(p, t, ids).derived)
  {
    if ids != [] {
      var n := |ids| - 1;
      ReplayKeepsVersions(p, t, ids[..n]);
      var read := Parse(p, t.events[ids[n]].event);
      if read.Ok? {
        ReplayedRowIsThere(p, t.events, ReplayAll(p, t, ids[..n]).derived, ids[n]);
        ParsedIsStamped(p, t.events[ids[n]].event);
        RowAgain(ReplayAll(p, t, ids[..n]).derived, read.value, ids[n]);
      }
    }
  }

  /** Main result: a rebuild from the raw events derives what the archive says,
      whatever state the database was left in. */
  lemma RebuildFromRaw(p: Parsers, t: Tables)
    requires Keyed(t.events)
    ensures Rebuilt(p, t, true).derived == Derive(p, t.events)
    ensures Rebuilt(p, t, true).events == t.events && Rebuilt(p, t, true).cursors == t.cursors
  {
    var ids := ReplayOrder(t.events);
    ReplayOrderIsTheArchive(t.events);
    ReplayDerives(p, Cleared(t, true), ids);
    assert Among(t.events, ids) == t.events;
    DerivedVersionsFollow(p, t.events);
    SweptFollows(p, t.events, Derive(p, t.events));
  }

  /** A plain rebuild repairs projections and flags in any disorder, given the
      version tables. */
  lemma PlainRebuild(p: Parsers, t: Tables)
    requires Keyed(t.events) && VersionsFollow(p, t.events, t.derived)
    ensures Rebuilt(p, t, false).derived == Derive(p, t.events)
    ensures Rebuilt(p, t, false).events == t.events && Rebuilt(p, t, false).cursors == t.cursors
  {
    ReplayOrderIsTheArchive(t.events);
    ReplayKeepsVersions(p, Cleared(t, false), ReplayOrder(t.events));
    SweptFollows(p, t.events, ReplayAll(p, Cleared(t, false), ReplayOrder(t.events)).derived);
  }

  // ---- Relays ----

  lemma {:induction false} ReplayKnowsRelays(p: Parsers, t: Tables, ids: seq<EventId>)
    requires forall id | id in ids :: id in t.events
    ensures t.relays.Keys <= ReplayAll(p, t, ids).relays.Keys
    ensures forall id | id in ids ::
              RelaysIn(Parse(p, t.events[id].event)) <= ReplayAll(p, t, ids).relays.Keys
    ensures (forall id | id in ids :: RelaysIn(Parse(p, t.events[id].event)) <= t.relays.Keys)
            ==> ReplayAll(p, t, ids).relays == t.relays
  {
    if ids != [] {
      var n := |ids| - 1;
      assert ids == ids[..n] + [ids[n]];
      ReplayKnowsRelays(p, t, ids[..n]);
      var before, e := ReplayAll(p, t, ids[..n]).relays, t.events[ids[n]].event;
      if RelaysIn(Parse(p, e)) <= before.Keys {
        KnownUrls(before, RelaysIn(Parse(p, e)), Nip65(e.pubkey), e.createdAt);
      }
    }
  }

  lemma KnownUrls(relays: map<Url, RelayRow>, urls: set<Url>, source: Source, at: int)
    requires urls <= relays.Keys
    ensures UpsertRelays(relays, urls, source, at) == relays
  {
  }

  // ---- The bestiary ----

  /** The bestiary a replay leaves depends on the archive alone. */
  lemma {:induction false} BestiaryFromArchive(p: Parsers, s: Tables, t: Tables, ids: seq<EventId>)
    requires s.events == t.events && s.instances == t.instances && s.names == t.names
    requires forall id | id in ids :: id in t.events
    ensures ReplayAll(p, s, ids).instances == ReplayAll(p, t, ids).instances
    ensures ReplayAll(p, s, ids).names == ReplayAll(p, t, ids).names
  {
    if ids != [] { BestiaryFromArchive(p, s, t, ids[..|ids| - 1]); }
  }

  /** Whether one of the events was published by `pubkey` at `at` and parses. */
  ghost predicate SeenAt(p: Parsers, archive: Archive, ids: seq<EventId>, pubkey: PubKey, at: nat) {
    exists id | id in ids :: id in archive && Parses(p, archive[id].event)
      && archive[id].event.pubkey == pubkey && archive[id].event.createdAt == at
  }

  lemma SeenAtStays(p: Parsers, archive: Archive, ids: seq<EventId>, id: EventId, pubkey: PubKey, at: nat)
    requires SeenAt(p, archive, ids, pubkey, at)
    ensures SeenAt(p, archive, ids + [id], pubkey, at)
  {
    var o :| o in ids && o in archive && Parses(p, archive[o].event)
      && archive[o].event.pubkey == pubkey && archive[o].event.createdAt == at;
    assert o in ids + [id];
  }

  /** Whether every row opens and closes with one of the events, and spans them all. */
  ghost predicate Founded(p: Parsers, archive: Archive, ids: seq<EventId>, found: map<PubKey, Instance>) {
    && (forall pubkey | pubkey in found ::
          SeenAt(p, archive, ids, pubkey, found[pubkey].firstSeenAt)
          && SeenAt(p, archive, ids, pubkey, found[pubkey].lastSeenAt))
    && (forall id | id in ids && id in archive && Parses(p, archive[id].event) :: Spans(found, archive[id].event))
  }

  lemma FoundedStays(p: Parsers, archive: Archive, ids: seq<EventId>, found: map<PubKey, Instance>, id: EventId)
    requires Founded(p, archive, ids, found) && id in archive
    ensures var e := archive[id].event;
            Founded(p, archive, ids + [id],
              if Parses(p, e) then UpsertInstance(found, e.pubkey, InstanceName(e), e.createdAt) else found)
  {
    var e, more := archive[id].event, ids + [id];
    var after := if Parses(p, e) then UpsertInstance(found, e.pubkey, InstanceName(e), e.createdAt) else found;
    assert id in more;
    forall pubkey | pubkey in after
      ensures SeenAt(p, archive, more, pubkey, after[pubkey].firstSeenAt)
      ensures SeenAt(p, archive, more, pubkey, after[pubkey].lastSeenAt)
    {
      if pubkey in found {
        SeenAtStays(p, archive, ids, id, pubkey, found[pubkey].firstSeenAt);
        SeenAtStays(p, archive, ids, id, pubkey, found[pubkey].lastSeenAt);
      }
      if Parses(p, e) { assert SeenAt(p, archive, more, e.pubkey, e.createdAt); }
    }
    forall o | o in more && o in archive && Parses(p, archive[o].event) ensures Spans(after, archive[o].event) {
      assert o in ids || o == id;
    }
  }

  lemma {:induction false} ReplayedBestiary(p: Parsers, t: Tables, ids: seq<EventId>)
    requires t.instances == map[] && forall id | id in ids :: id in t.events
    ensures Founded(p, t.events, ids, ReplayAll(p, t, ids).instances)
  {
    if ids != [] {
      var n := |ids| - 1;
      assert ids == ids[..n] + [ids[n]];
      ReplayedBestiary(p, t, ids[..n]);
      FoundedStays(p, t.events, ids[..n], ReplayAll(p, t, ids[..n]).instances, ids[n]);
    }
  }

  /** A bestiary founded on the archive lies within the one the pipeline kept. */
  lemma FoundedWithin(r: Rules, t: Tables, ids: seq<EventId>, found: map<PubKey, Instance>)
    requires Sightings(r.parsers, t) && Founded(r.parsers, t.events, ids, found)
    requires forall id :: id in ids <==> id in t.events
    ensures found.Keys == t.instances.Keys
    ensures forall pubkey | pubkey in found ::
              t.instances[pubkey].firstSeenAt <= found[pubkey].firstSeenAt
              && found[pubkey].lastSeenAt <= t.instances[pubkey].lastSeenAt
  {
    forall pubkey | pubkey in t.instances ensures pubkey in found {
      var id :| id in t.events && Parses(r.parsers, t.events[id].event) && t.events[id].event.pubkey == pubkey;
      assert id in ids;
    }
  }

  // ---- Names ----

  lemma ReplayedNames(p: Parsers, t: Tables, e: Event)
    ensures Replay(p, t, e).names == NamesWith(p, t.names, e)
    ensures Replay(p, t, e).instances == InstancesWith(p, t.instances, e)
  {
  }

  lemma OneMorePublisher(p: Parsers, archive: Archive, instances: map<PubKey, Instance>, id: EventId, row: Archived)
    requires id !in archive && row.event.id == id && instances.Keys == Publishers(p, archive)
    ensures InstancesWith(p, instances, row.event).Keys == Publishers(p, archive[id := row])
  {
    PublishersGrow(p, archive, row);
  }

  /** The names a replay leaves are those of the archive. */
  lemma {:induction false} ReplayNames(p: Parsers, t: Tables, ids: seq<EventId>)
    requires Keyed(t.events) && Distinct(ids) && forall id | id in ids :: id in t.events
    requires t.instances.Keys == {} && t.names.Keys == {}
    ensures NamesFollow(p, Among(t.events, ids), ReplayAll(p, t, ids).names)
    ensures Named(p, Among(t.events, ids), ReplayAll(p, t, ids).instances)
    ensures ReplayAll(p, t, ids).instances.Keys == Publishers(p, Among(t.events, ids))
  {
    if ids != [] {
      var n := |ids| - 1;
      var id, before := ids[n], ReplayAll(p, t, ids[..n]);
      assert ids == ids[..n] + [id];
      ReplayNames(p, t, ids[..n]);
      AmongGrows(t.events, ids[..n], id);
      ReplayedNames(p, before, t.events[id].event);
      NamesGrow(p, Among(t.events, ids[..n]), before.names, id, t.events[id]);
      NamedGrows(p, Among(t.events, ids[..n]), before.instances, id, t.events[id]);
      OneMorePublisher(p, Among(t.events, ids[..n]), before.instances, id, t.events[id]);
    }
  }

  lemma SaidBefore(p: Parsers, archive: Archive, a: NameHistory, b: NameHistory, key: (PubKey, string))
    requires NamesFollow(p, archive, a) && NamesFollow(p, archive, b) && key in a
    ensures key in b && a[key] <= b[key]
  {
    var id :| id in archive && SaysName(p, archive[id].event, key.0, key.1) && archive[id].event.createdAt == a[key];
    assert NameIsNoted(p, archive[id].event, b);
  }

  /** An archive has one name history. */
  lemma OneNameHistory(p: Parsers, archive: Archive, a: NameHistory, b: NameHistory)
    requires NamesFollow(p, archive, a) && NamesFollow(p, archive, b)
    ensures a == b
  {
    forall key | key in a ensures key in b && a[key] == b[key] {
      SaidBefore(p, archive, a, b, key);
      SaidBefore(p, archive, b, a, key);
    }
    forall key | key in b ensures key in a {
      SaidBefore(p, archive, b, a, key);
    }
    SameTable(a, b);
  }

  /** Whether `id` is a newest archived event of the publisher to say a name. */
  predicate IsNewestNaming(p: Parsers, archive: Archive, pubkey: PubKey, id: EventId) {
    && id in archive && IsNaming(p, archive[id].event, pubkey)
    && forall o | o in archive && IsNaming(p, archive[o].event, pubkey) ::
         archive[o].event.createdAt <= archive[id].event.createdAt
  }

  /** Whether the newest of them agree on the name. */
  ghost predicate ArchiveAgreesOnName(p: Parsers, archive: Archive, pubkey: PubKey) {
    forall a, b | IsNewestNaming(p, archive, pubkey, a) && IsNewestNaming(p, archive, pubkey, b) ::
      InstanceName(archive[a].event) == InstanceName(archive[b].event)
  }

  lemma NewestSays(p: Parsers, archive: Archive, pubkey: PubKey, row: Instance) returns (id: EventId)
    requires NewestName(p, archive, pubkey, row) && row.name.Some?
    ensures IsNewestNaming(p, archive, pubkey, id)
    ensures InstanceName(archive[id].event) == row.name && archive[id].event.createdAt == row.nameSeenAt.value
  {
    id :| id in archive && SaysName(p, archive[id].event, pubkey, row.name.value)
          && archive[id].event.createdAt == row.nameSeenAt.value;
  }

  lemma NamedAlike(p: Parsers, archive: Archive, pubkey: PubKey, a: Instance, b: Instance)
    requires NewestName(p, archive, pubkey, a) && NewestName(p, archive, pubkey, b)
    ensures a.nameSeenAt == b.nameSeenAt && (ArchiveAgreesOnName(p, archive, pubkey) ==> a.name == b.name)
  {
    if a.name.Some? {
      var x := NewestSays(p, archive, pubkey, a);
      assert b.name.Some?;
      var y := NewestSays(p, archive, pubkey, b);
    } else if b.name.Some? {
      var y := NewestSays(p, archive, pubkey, b);
      assert false;
    }
  }

  // ---- The name a replay ends with ----

  /** The last of the events to say a name for the publisher. */
  function LastNaming(p: Parsers, archive: Archive, ids: seq<EventId>, pubkey: PubKey): (id: Option<EventId>)
    ensures id.Some? ==> id.value in ids && id.value in archive && IsNaming(p, archive[id.value].event, pubkey)
  {
    if ids == [] then None
    else
      var n := |ids| - 1;
      if ids[n] in archive && IsNaming(p, archive[ids[n]].event, pubkey) then Some(ids[n])
      else LastNaming(p, archive, ids[..n], pubkey)
  }

  /** Whether a row is named by an event, or by nothing. */
  predicate NamedAfter(archive: Archive, row: Option<Instance>, id: Option<EventId>)
    requires id.Some? ==> id.value in archive
  {
    match id
    case Some(o) =>
      && row.Some? && row.value.name == InstanceName(archive[o].event)
      && row.value.nameSeenAt == Some(archive[o].event.createdAt)
    case None => row.Some? ==> row.value.name.None? && row.value.nameSeenAt.None?
  }

  lemma NamedNext(p: Parsers, archive: Archive, instances: map<PubKey, Instance>, pubkey: PubKey,
                  last: Option<EventId>, id: EventId)
    requires id in archive && (last.Some? ==> last.value in archive)
    requires last.Some? ==> archive[last.value].event.createdAt <= archive[id].event.createdAt
    requires NamedAfter(archive, Find(instances, pubkey), last)
    ensures var e := archive[id].event;
            NamedAfter(archive, Find(InstancesWith(p, instances, e), pubkey),
                       if IsNaming(p, e, pubkey) then Some(id) else last)
  {
  }

  /** Replayed oldest first, a row is named by the last event to say a name. */
  lemma {:induction false} ReplayNamesAfterLast(p: Parsers, t: Tables, ids: seq<EventId>, pubkey: PubKey)
    requires Ascending(t.events, ids) && t.instances.Keys == {}
    ensures NamedAfter(t.events, Find(ReplayAll(p, t, ids).instances, pubkey), LastNaming(p, t.events, ids, pubkey))
  {
    if ids != [] {
      var n := |ids| - 1;
      var before, last := ReplayAll(p, t, ids[..n]), LastNaming(p, t.events, ids[..n], pubkey);
      assert ids == ids[..n] + [ids[n]];
      assert Ascending(t.events, ids[..n]);
      ReplayNamesAfterLast(p, t, ids[..n], pubkey);
      if last.Some? {
        var i :| 0 <= i < n && ids[i] == last.value;
        assert Before(t.events, ids[i], ids[n]);
      }
      ReplayedNames(p, before, t.events[ids[n]].event);
      NamedNext(p, t.events, before.instances, pubkey, last, ids[n]);
    }
  }

  /** Whether `id` says the publisher's final name: it is the newest archived event to say
      one, in a tie the one with the highest id. */
  predicate SaysFinalName(p: Parsers, archive: Archive, pubkey: PubKey, id: EventId) {
    && id in archive && IsNaming(p, archive[id].event, pubkey)
    && forall o | o in archive && o != id && IsNaming(p, archive[o].event, pubkey) :: Before(archive, o, id)
  }

  lemma {:induction false} LastNamingIsFinal(p: Parsers, archive: Archive, ids: seq<EventId>, pubkey: PubKey)
    requires Ascending(archive, ids)
    ensures var last := LastNaming(p, archive, ids, pubkey);
            forall o | o in ids && IsNaming(p, archive[o].event, pubkey) ::
              last.Some? && (o != last.value ==> Before(archive, o, last.value))
  {
    if ids != [] {
      var n := |ids| - 1;
      assert ids == ids[..n] + [ids[n]];
      assert Ascending(archive, ids[..n]);
      LastNamingIsFinal(p, archive, ids[..n], pubkey);
      forall o | o in ids[..n] ensures Before(archive, o, ids[n]) {
        var i :| 0 <= i < n && ids[i] == o;
      }
    }
  }

  // ---- The theorems about a reachable database ----

  /** Main result: from every state the pipeline reaches, either rebuild gives back
      the same versions, projections, flags, fee history, rates, relays and names.
      The bestiary lists the same publishers, each perhaps seen a little later first
      and a little earlier last: redundant heartbeats moved those two columns and
      were not archived. */
  lemma RebuildReproduces(r: Rules, t: Tables, fromRaw: bool)
    requires Inv(r, t)
    ensures var after := Rebuilt(r.parsers, t, fromRaw);
            && after.events == t.events && after.derived == t.derived
            && after.relays == t.relays && after.cursors == t.cursors && after.names == t.names
            && after.instances.Keys == t.instances.Keys
            && forall pubkey | pubkey in t.instances ::
                 t.instances[pubkey].firstSeenAt <= after.instances[pubkey].firstSeenAt
                 && after.instances[pubkey].lastSeenAt <= t.instances[pubkey].lastSeenAt
  {
    var p, ids, start := r.parsers, ReplayOrder(t.events), Cleared(t, fromRaw);
    ReplayOrderIsTheArchive(t.events);
    if fromRaw {
      RebuildFromRaw(p, t);
    } else {
      DerivedVersionsFollow(p, t.events);
      PlainRebuild(p, t);
    }
    forall id | id in ids ensures RelaysIn(Parse(p, t.events[id].event)) <= t.relays.Keys {
      RelaysRead(p, t.events[id].event);
    }
    ReplayKnowsRelays(p, start, ids);
    ReplayedBestiary(p, start, ids);
    FoundedWithin(r, t, ids, ReplayAll(p, start, ids).instances);
    RebuiltNames(r, t, fromRaw);
  }

  lemma RebuiltNames(r: Rules, t: Tables, fromRaw: bool)
    requires Inv(r, t)
    ensures Rebuilt(r.parsers, t, fromRaw).names == t.names
    ensures Named(r.parsers, t.events, Rebuilt(r.parsers, t, fromRaw).instances)
  {
    RebuiltBestiary(r.parsers, t, fromRaw);
    ReplayedAllNames(r.parsers, Cleared(t, fromRaw));
    OneNameHistory(r.parsers, t.events, Rebuilt(r.parsers, t, fromRaw).names, t.names);
  }

  lemma ReplayedAllNames(p: Parsers, t: Tables)
    requires Keyed(t.events) && t.instances.Keys == {} && t.names.Keys == {}
    ensures forall id | id in ReplayOrder(t.events) :: id in t.events
    ensures NamesFollow(p, t.events, ReplayAll(p, t, ReplayOrder(t.events)).names)
    ensures Named(p, t.events, ReplayAll(p, t, ReplayOrder(t.events)).instances)
  {
    ReplayOrderIsTheArchive(t.events);
    ReplayNames(p, t, ReplayOrder(t.events));
    assert Among(t.events, ReplayOrder(t.events)) == t.events;
  }

  lemma RebuiltBestiary(p: Parsers, t: Tables, fromRaw: bool)
    ensures forall id | id in ReplayOrder(t.events) :: id in Cleared(t, fromRaw).events
    ensures var replayed := ReplayAll(p, Cleared(t, fromRaw), ReplayOrder(t.events));
            && Rebuilt(p, t, fromRaw).names == replayed.names && Rebuilt(p, t, fromRaw).instances == replayed.instances
  {
    ReplayOrderIsTheArchive(t.events);
  }

  lemma RebuiltName(p: Parsers, t: Tables, fromRaw: bool, pubkey: PubKey)
    ensures var row := Find(Rebuilt(p, t, fromRaw).instances, pubkey);
            && (forall id | SaysFinalName(p, t.events, pubkey, id) :: NamedAfter(t.events, row, Some(id)))
            && ((forall id | id in t.events :: !IsNaming(p, t.events[id].event, pubkey)) ==>
                  NamedAfter(t.events, row, None))
  {
    var ids := ReplayOrder(t.events);
    ReplayOrderIsTheArchive(t.events);
    RebuiltBestiary(p, t, fromRaw);
    ReplayNamesAfterLast(p, Cleared(t, fromRaw), ids, pubkey);
    LastNamingIsFinal(p, t.events, ids, pubkey);
  }

  /** The time a publisher's name was said comes back, and the name itself exactly when it
      was that of the newest archived event to say one, in a tie the one with the highest
      id; a publisher that never said one has none before and after. */
  lemma RebuildRestoresTheName(r: Rules, t: Tables, fromRaw: bool, pubkey: PubKey)
    requires Inv(r, t) && pubkey in t.instances
    ensures var before, after := t.instances[pubkey], Rebuilt(r.parsers, t, fromRaw).instances;
            && pubkey in after && after[pubkey].nameSeenAt == before.nameSeenAt
            && (before.name.None? ==> after[pubkey].name.None?)
            && (before.name.Some? ==> exists id :: SaysFinalName(r.parsers, t.events, pubkey, id))
            && (forall id | SaysFinalName(r.parsers, t.events, pubkey, id) ::
                  (after[pubkey].name == before.name <==> before.name == InstanceName(t.events[id].event)))
            && (ArchiveAgreesOnName(r.parsers, t.events, pubkey) ==> after[pubkey].name == before.name)
  {
    RebuildReproduces(r, t, fromRaw);
    RebuiltNames(r, t, fromRaw);
    var after := Rebuilt(r.parsers, t, fromRaw).instances;
    NamedAlike(r.parsers, t.events, pubkey, after[pubkey], t.instances[pubkey]);
    RebuiltName(r.parsers, t, fromRaw, pubkey);
    if t.instances[pubkey].name.Some? {
      var id := NewestSays(r.parsers, t.events, pubkey, t.instances[pubkey]);
      FinalNameExists(r.parsers, t.events, pubkey, id);
    }
  }

  lemma FinalNameExists(p: Parsers, archive: Archive, pubkey: PubKey, some: EventId)
    requires some in archive && IsNaming(p, archive[some].event, pubkey)
    ensures exists id :: SaysFinalName(p, archive, pubkey, id)
  {
    ReplayOrderIsTheArchive(archive);
    LastNamingIsFinal(p, archive, ReplayOrder(archive), pubkey);
    assert SaysFinalName(p, archive, pubkey, LastNaming(p, archive, ReplayOrder(archive), pubkey).value);
  }

  /** Whether an archived event that parses has the publisher's clock at `at`. */
  ghost predicate ArchivedAt(p: Parsers, archive: Archive, pubkey: PubKey, at: nat) {
    exists id | id in archive :: IsEdge(p, archive[id].event, pubkey, at)
  }

  /** A publisher's first or last sighting comes back exactly when an archived event that
      parses was published then. */
  lemma RebuildRestoresSightings(r: Rules, t: Tables, fromRaw: bool, pubkey: PubKey)
    requires Inv(r, t) && pubkey in t.instances
    ensures var before, after := t.instances[pubkey], Rebuilt(r.parsers, t, fromRaw).instances;
            && pubkey in after
            && (after[pubkey].firstSeenAt == before.firstSeenAt
                <==> ArchivedAt(r.parsers, t.events, pubkey, before.firstSeenAt))
            && (after[pubkey].lastSeenAt == before.lastSeenAt
                <==> ArchivedAt(r.parsers, t.events, pubkey, before.lastSeenAt))
  {
    RebuildReproduces(r, t, fromRaw);
    RebuiltRowsSpanTheArchive(r.parsers, t, fromRaw);
    SpansPinned(r.parsers, t.events, pubkey, t.instances, Rebuilt(r.parsers, t, fromRaw).instances);
  }

  lemma SpansPinned(p: Parsers, archive: Archive, pubkey: PubKey, wide: map<PubKey, Instance>,
                    tight: map<PubKey, Instance>)
    requires pubkey in wide && pubkey in tight
    requires wide[pubkey].firstSeenAt <= tight[pubkey].firstSeenAt
    requires tight[pubkey].lastSeenAt <= wide[pubkey].lastSeenAt
    requires forall id | id in archive && Parses(p, archive[id].event) :: Spans(tight, archive[id].event)
    requires ArchivedAt(p, archive, pubkey, tight[pubkey].firstSeenAt)
    requires ArchivedAt(p, archive, pubkey, tight[pubkey].lastSeenAt)
    ensures tight[pubkey].firstSeenAt == wide[pubkey].firstSeenAt
       <==> ArchivedAt(p, archive, pubkey, wide[pubkey].firstSeenAt)
    ensures tight[pubkey].lastSeenAt == wide[pubkey].lastSeenAt
       <==> ArchivedAt(p, archive, pubkey, wide[pubkey].lastSeenAt)
  {
    if ArchivedAt(p, archive, pubkey, wide[pubkey].firstSeenAt) {
      var id :| id in archive && IsEdge(p, archive[id].event, pubkey, wide[pubkey].firstSeenAt);
      assert Spans(tight, archive[id].event);
    }
    if ArchivedAt(p, archive, pubkey, wide[pubkey].lastSeenAt) {
      var id :| id in archive && IsEdge(p, archive[id].event, pubkey, wide[pubkey].lastSeenAt);
      assert Spans(tight, archive[id].event);
    }
  }

  /** What the bestiary is narrowed to: after a rebuild each row opens with the first
      archived event of its publisher that parses, and closes with the last. */
  lemma RebuiltRowsSpanTheArchive(p: Parsers, t: Tables, fromRaw: bool)
    requires Keyed(t.events)
    ensures var after := Rebuilt(p, t, fromRaw).instances;
            && (forall id | id in t.events && Parses(p, t.events[id].event) :: Spans(after, t.events[id].event))
            && (forall pubkey | pubkey in after ::
                  ArchivedAt(p, t.events, pubkey, after[pubkey].firstSeenAt)
                  && ArchivedAt(p, t.events, pubkey, after[pubkey].lastSeenAt))
  {
    var ids, start := ReplayOrder(t.events), Cleared(t, fromRaw);
    ReplayOrderIsTheArchive(t.events);
    ReplayedBestiary(p, start, ids);
    var after := ReplayAll(p, start, ids).instances;
    forall pubkey | pubkey in after
      ensures ArchivedAt(p, t.events, pubkey, after[pubkey].firstSeenAt)
      ensures ArchivedAt(p, t.events, pubkey, after[pubkey].lastSeenAt)
    {
      EdgeOf(p, t.events, ids, pubkey, after[pubkey].firstSeenAt);
      EdgeOf(p, t.events, ids, pubkey, after[pubkey].lastSeenAt);
    }
  }

  predicate IsEdge(p: Parsers, e: Event, pubkey: PubKey, at: nat) {
    Parses(p, e) && e.pubkey == pubkey && e.createdAt == at
  }

  lemma EdgeOf(p: Parsers, archive: Archive, ids: seq<EventId>, pubkey: PubKey, at: nat)
    requires SeenAt(p, archive, ids, pubkey, at)
    ensures ArchivedAt(p, archive, pubkey, at)
  {
    var id :| id in ids && id in archive && Parses(p, archive[id].event)
      && archive[id].event.pubkey == pubkey && archive[id].event.createdAt == at;
    assert IsEdge(p, archive[id].event, pubkey, at);
  }

  /** Rebuilding twice is rebuilding once, whatever the database held. */
  lemma RebuildIsIdempotent(p: Parsers, t: Tables)
    requires Keyed(t.events)
    ensures Rebuilt(p, Rebuilt(p, t, true), true) == Rebuilt(p, t, true)
  {
    var once, ids := Rebuilt(p, t, true), ReplayOrder(t.events);
    RebuildFromRaw(p, t);
    RebuildFromRaw(p, once);
    ReplayOrderIsTheArchive(t.events);
    BestiaryFromArchive(p, Cleared(t, true), Cleared(once, true), ids);
    ReplayKnowsRelays(p, Cleared(t, true), ids);
    ReplayKnowsRelays(p, Cleared(once, true), ids);
  }

  // ---- The command ----

  /** Projections hold no row without a version behind it. */
  ghost predicate NoStrays(t: Derived) {
    t.orders.Keys <= GroupKeys(t.orderVersions, OrderKey) && t.disputes.Keys <= GroupKeys(t.disputeVersions, DisputeKey)
  }

  lemma KeysStay<V>(table: Rows<V>, key: V -> string, id: EventId, row: V)
    ensures GroupKeys(table, key) <= GroupKeys(InsertOrIgnore(table, id, row), key)
    ensures id !in table ==> key(row) in GroupKeys(InsertOrIgnore(table, id, row), key)
  {
    if id !in table { GrownKeys(table, key, id, row); }
  }

  lemma RefreshAddsNoStray<V(!new), R>(rows: map<string, R>, table: Rows<V>, key: V -> string, project: Rows<V> --> R,
                                       k: string)
    requires Projects(project) && rows.Keys <= GroupKeys(table, key)
    ensures Refresh(rows, table, key, project, k).Keys <= GroupKeys(table, key)
  {
    GroupHolds(table, key, k);
  }

  lemma NoStraysAfterRow(t: Derived, parsed: Parsed)
    requires NoStrays(t)
    ensures NoStrays(AddRow(t, parsed))
  {
    match parsed {
      case ParsedOrder(v) =>
        KeysStay(t.orderVersions, OrderKey, v.eventId, v);
        RefreshAddsNoStray(t.orders, InsertOrIgnore(t.orderVersions, v.eventId, v), OrderKey, ProjectOrder, v.orderId);
      case ParsedDispute(v) =>
        KeysStay(t.disputeVersions, DisputeKey, v.eventId, v);
        RefreshAddsNoStray(t.disputes, InsertOrIgnore(t.disputeVersions, v.eventId, v), DisputeKey, ProjectDispute,
                           v.disputeId);
      case _ =>
    }
  }

  /** What a rebuild did. */
  datatype Report = Report(events: nat, unreadable: nat, orders: nat, disputes: nat)

  method Clear(db: Store, fromRaw: bool)
    modifies db
    ensures db.View() == Cleared(old(db.View()), fromRaw)
  {
    if fromRaw {
      db.orderVersions, db.disputeVersions, db.devFees, db.info, db.rates := map[], map[], map[], map[], map[];
    }
    db.orders, db.disputes := map[], map[];
    db.instances, db.names := map[], map[];
  }

  method ReplayOne(db: Store, p: Parsers, id: EventId) returns (readable: bool)
    requires NoStrays(db.Derived()) && id in db.events
    modifies db
    ensures db.View() == Replay(p, old(db.View()), old(db.events[id].event)) && NoStrays(db.Derived())
    ensures readable == Parses(p, old(db.events[id].event))
  {
    var event := db.events[id].event;
    var read := Parse(p, event);
    readable := read.Ok?;
    if readable {
      NoStraysAfterRow(db.Derived(), read.value);
      db.Persist(event, read.value);
    }
  }

  /** Those of the archived events that parse. */
  function Readable(p: Parsers, archive: Archive, ids: seq<EventId>): set<EventId> {
    set id | id in ids && id in archive && Parses(p, archive[id].event)
  }

  lemma OneMoreReadable(p: Parsers, archive: Archive, ids: seq<EventId>, n: nat)
    requires Distinct(ids) && n < |ids| && ids[n] in archive
    ensures |Readable(p, archive, ids[..n + 1])|
         == |Readable(p, archive, ids[..n])| + if Parses(p, archive[ids[n]].event) then 1 else 0
  {
    assert ids[..n + 1] == ids[..n] + [ids[n]];
    assert ids[n] !in Readable(p, archive, ids[..n]);
    assert Readable(p, archive, ids[..n + 1])
        == Readable(p, archive, ids[..n]) + if Parses(p, archive[ids[n]].event) then {ids[n]} else {};
  }

  method ReplayArchive(db: Store, p: Parsers, ids: seq<EventId>) returns (events: nat, unreadable: nat)
    requires NoStrays(db.Derived()) && Distinct(ids) && forall id | id in ids :: id in db.events
    modifies db
    ensures db.View() == ReplayAll(p, old(db.View()), ids) && NoStrays(db.Derived())
    ensures events == |Readable(p, old(db.events), ids)| && unreadable == |ids| - events
  {
    ghost var start := db.View();
    events, unreadable := 0, 0;
    for i := 0 to |ids|
      invariant db.View() == ReplayAll(p, start, ids[..i]) && NoStrays(db.Derived())
      invariant events == |Readable(p, start.events, ids[..i])| && events + unreadable == i
    {
      assert ids[..i + 1][..i] == ids[..i];
      OneMoreReadable(p, start.events, ids, i);
      var readable := ReplayOne(db, p, ids[i]);
      if readable { events := events + 1; } else { unreadable := unreadable + 1; }
    }
    assert ids[..|ids|] == ids;
  }

  method SweepOrders(db: Store) returns (count: nat)
    requires db.orders.Keys <= GroupKeys(db.orderVersions, OrderKey)
    modifies db`orders
    ensures db.orders == OrdersOf(db.orderVersions) && count == |db.orders|
  {
    db.orders, count := Sweep(db.orders, db.orderVersions, OrderKey, ProjectOrder);
  }

  method SweepDisputes(db: Store) returns (count: nat)
    requires db.disputes.Keys <= GroupKeys(db.disputeVersions, DisputeKey)
    modifies db`disputes
    ensures db.disputes == DisputesOf(db.disputeVersions) && count == |db.disputes|
  {
    db.disputes, count := Sweep(db.disputes, db.disputeVersions, DisputeKey, ProjectDispute);
  }

  method SweepAll(db: Store) returns (orders: nat, disputes: nat)
    requires NoStrays(db.Derived())
    modifies db`orders, db`disputes, db`devFees
    ensures db.Derived() == Swept(old(db.Derived()))
    ensures orders == |db.orders| && disputes == |db.disputes|
  {
    ghost var t := db.Derived();
    orders := SweepOrders(db);
    disputes := SweepDisputes(db);
    db.devFees := SweepFlags(db.devFees, FeeKey, FeeStamp);
    SweptParts(t, db.orders, db.disputes, db.devFees);
  }

  lemma SweptParts(t: Derived, orders: map<OrderId, Order>, disputes: map<DisputeId, Dispute>,
                   fees: Rows<Marked<DevFee>>)
    requires orders == OrdersOf(t.orderVersions) && disputes == DisputesOf(t.disputeVersions)
    requires fees == Flagged(t.devFees, FeeKey, FeeStamp)
    ensures Schema.Derived(t.orderVersions, orders, t.disputeVersions, disputes, fees, t.info, t.rates) == Swept(t)
  {
  }

  lemma EachReplayedOnce(p: Parsers, archive: Archive)
    ensures |ReplayOrder(archive)| == |archive|
    ensures Readable(p, archive, ReplayOrder(archive)) == set id | id in archive && Parses(p, archive[id].event)
  {
    ReplayOrderIsTheArchive(archive);
    AsManyAs(ReplayOrder(archive), archive.Keys);
    assert |archive.Keys| == |archive|;
  }

  lemma {:induction false} AsManyAs(ids: seq<EventId>, s: set<EventId>)
    requires Distinct(ids) && forall id :: id in ids <==> id in s
    ensures |ids| == |s|
  {
    if ids != [] {
      var n := |ids| - 1;
      assert ids == ids[..n] + [ids[n]];
      AsManyAs(ids[..n], s - {ids[n]});
    }
  }

  /** `rebuild [--from-raw]`: clear, replay the archive in order, sweep. */
  method RebuildAll(db: Store, p: Parsers, fromRaw: bool) returns (report: Report)
    modifies db
    ensures db.View() == Rebuilt(p, old(db.View()), fromRaw)
    ensures report.events == |set id | id in old(db.events) && Parses(p, old(db.events)[id].event)|
    ensures report.unreadable == |old(db.events)| - report.events
    ensures report.orders == |db.orders| && report.disputes == |db.disputes|
  {
    var ids := ReplayOrder(db.events);
    ReplayOrderIsTheArchive(db.events);
    EachReplayedOnce(p, db.events);
    Clear(db, fromRaw);
    var events, unreadable := ReplayArchive(db, p, ids);
    var orders, disputes := SweepAll(db);
    report := Report(events, unreadable, orders, disputes);
  }
}
