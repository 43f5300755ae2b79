/** What dropping unchanged announcements does to the fee history. */
module Heartbeats {
  import opened Prelude
  import opened Ranking
  import opened Events
  import opened Schema
  import opened Grouping
  import opened Projection
  import opened Pipeline
  import opened Admission
  import opened Reachability
  import opened Confluence
  import opened Rebuild

  type Notices = Rows<InstanceInfo>

  /** The clocks of the notices of `pubkey` by `at` that name a fee. */
  function Published(info: Notices, pubkey: PubKey, at: int): Stamps {
    map id | id in info && info[id].pubkey == pubkey && info[id].createdAt <= at && info[id].fee.Some?
      :: info[id].createdAt
  }

  /** The most recent fee `pubkey` had published by `at`; a version that names none
      says nothing about it. */
  function FeeInForce(info: Notices, pubkey: PubKey, at: int): Option<real> {
    var published := Published(info, pubkey, at);
    if published.Keys == {} then None else info[Newest(published)].fee
  }

  /** Whether `a` replaces `b` for whoever asks late enough. */
  predicate After(a: InstanceInfo, b: InstanceInfo) {
    Supersedes(a.createdAt, a.eventId, b.createdAt, b.eventId)
  }

  predicate Between(a: InstanceInfo, x: InstanceInfo, b: InstanceInfo) {
    x.pubkey == b.pubkey && After(x, a) && After(b, x)
  }

  ghost predicate ById(info: Notices) {
    forall id | id in info :: info[id].eventId == id
  }

  ghost predicate Within(a: Notices, b: Notices) {
    forall id | id in a :: id in b && b[id] == a[id]
  }

  /** Why leaving `o` out changes no answer: a kept notice of the same second hides
      it, or an earlier kept one says the same and nothing in between, whenever it is
      offered, says otherwise. */
  ghost predicate Covered(kept: Notices, all: Notices, o: InstanceInfo) {
    || (exists q | q in kept :: Hides(kept[q], o))
    || (exists q | q in kept :: StandsFor(kept[q], all, o))
  }

  predicate Hides(q: InstanceInfo, o: InstanceInfo) {
    q.pubkey == o.pubkey && q.createdAt == o.createdAt && After(q, o) && q.fee.Some?
  }

  predicate StandsFor(q: InstanceInfo, all: Notices, o: InstanceInfo) {
    && q.pubkey == o.pubkey && After(o, q) && q.fee == o.fee
    && forall s | s in all && Between(q, all[s], o) :: !Rivals(all[s], o)
  }

  /** Whether a notice names another fee. */
  predicate Rivals(s: InstanceInfo, o: InstanceInfo) {
    s.fee.Some? && s.fee != o.fee
  }

  ghost predicate Lossless(kept: Notices, offered: Notices, all: Notices, pubkey: PubKey) {
    forall id | id in offered && id !in kept && offered[id].pubkey == pubkey && offered[id].fee.Some? ::
      Covered(kept, all, offered[id])
  }

  lemma CoveredStays(kept: Notices, more: Notices, all: Notices, o: InstanceInfo)
    requires Covered(kept, all, o) && Within(kept, more)
    ensures Covered(more, all, o)
  {
    if q :| q in kept && Hides(kept[q], o) {
      assert q in more && Hides(more[q], o);
    } else {
      var q :| q in kept && StandsFor(kept[q], all, o);
      assert q in more && StandsFor(more[q], all, o);
    }
  }

  /** The kept notice a dropped one was compared with. */
  ghost predicate Predecessor(kept: Notices, o: InstanceInfo, before: EventId) {
    && before in kept && kept[before].pubkey == o.pubkey && kept[before].createdAt <= o.createdAt
    && before != o.eventId && kept[before].fee == o.fee
    && forall a | a in kept && a != before && a != o.eventId && kept[a].pubkey == o.pubkey
                  && kept[a].createdAt <= o.createdAt :: After(kept[before], kept[a])
  }

  /** What was offered between the predecessor and the dropped notice says the same
      fee or none. */
  lemma BetweenSaysTheSame(kept: Notices, offered: Notices, all: Notices, o: InstanceInfo, before: EventId, s: EventId)
    requires ById(kept) && ById(all) && Within(kept, all) && Within(offered, all)
    requires Lossless(kept, offered, all, o.pubkey) && Predecessor(kept, o, before) && o.fee.Some? && o.eventId !in kept
    requires s in offered && Between(kept[before], offered[s], o)
    ensures !Rivals(offered[s], o)
  {
    var x := offered[s];
    assert all[s] == x && x.eventId == s;
    if x.fee.Some? {
      assert s !in kept;
      assert Covered(kept, all, x);
      forall q | q in kept ensures !Hides(kept[q], x) {
        assert kept[q].eventId == q;
        assert q == before || kept[q].pubkey != o.pubkey || kept[q].createdAt > o.createdAt
            || After(kept[before], kept[q]);
      }
      var q :| q in kept && StandsFor(kept[q], all, x);
      if q != before {
        assert After(kept[before], kept[q]);
        assert Between(kept[q], all[before], x);
      }
    }
  }

  /** A drop leaves the history lossless, when what belongs in between and was not
      offered yet never names another fee. */
  lemma DropCovers(kept: Notices, offered: Notices, all: Notices, o: InstanceInfo, before: EventId)
    requires ById(kept) && ById(all) && Within(kept, all) && Within(offered, all)
    requires Lossless(kept, offered, all, o.pubkey) && Predecessor(kept, o, before) && o.fee.Some? && o.eventId !in kept
    requires forall s | s in all && s !in offered && Between(kept[before], all[s], o) :: !Rivals(all[s], o)
    ensures Covered(kept, all, o)
  {
    if After(o, kept[before]) {
      forall s | s in all && Between(kept[before], all[s], o) ensures !Rivals(all[s], o) {
        if s in offered { BetweenSaysTheSame(kept, offered, all, o, before, s); }
      }
      assert StandsFor(kept[before], all, o);
    } else {
      assert Hides(kept[before], o);
    }
  }

  /** A lossless history answers every question about the fee as the whole stream does. */
  lemma LosslessLookup(kept: Notices, all: Notices, pubkey: PubKey, at: int)
    requires ById(kept) && ById(all) && Within(kept, all) && Lossless(kept, all, all, pubkey)
    ensures FeeInForce(kept, pubkey, at) == FeeInForce(all, pubkey, at)
  {
    var inKept, inAll := Published(kept, pubkey, at), Published(all, pubkey, at);
    assert forall id | id in inKept :: id in inAll && inAll[id] == inKept[id];
    if inAll.Keys != {} {
      var w := Newest(inAll);
      if w !in kept {
        WinnerIsCovered(kept, all, pubkey, at, w);
      } else {
        assert w in inKept && Newest(inKept) == w;
      }
    }
  }

  /** No other notice of its second supersedes the winner. */
  lemma WinnerIsNotHidden(all: Notices, pubkey: PubKey, at: int, w: EventId)
    requires ById(all) && IsNewest(Published(all, pubkey, at), w)
    ensures w in all && forall q | q in all :: !Hides(all[q], all[w])
  {
    forall q | q in all ensures !Hides(all[q], all[w]) {
      assert q in Published(all, pubkey, at) && q != w ==> After(all[w], all[q]);
    }
  }

  lemma WinnerIsCovered(kept: Notices, all: Notices, pubkey: PubKey, at: int, w: EventId)
    requires ById(kept) && ById(all) && Within(kept, all) && Lossless(kept, all, all, pubkey)
    requires IsNewest(Published(all, pubkey, at), w) && w !in kept
    ensures var inKept := Published(kept, pubkey, at);
            inKept.Keys != {} && kept[Newest(inKept)].fee == all[w].fee
  {
    WinnerIsNotHidden(all, pubkey, at, w);
    assert Covered(kept, all, all[w]);
    var q :| q in kept && StandsFor(kept[q], all, all[w]);
    assert q in Published(kept, pubkey, at);
    var k := Newest(Published(kept, pubkey, at));
    assert k in Published(all, pubkey, at) && kept[k] == all[k] && all[k].eventId == k;
    if k != q {
      assert Between(kept[q], all[k], all[w]);
    }
  }

  // ---- Exactly when ----

  /** Whether a notice of `o`'s publisher names a fee, no later than `o`. */
  predicate PricedBy(k: InstanceInfo, o: InstanceInfo) {
    k.pubkey == o.pubkey && k.fee.Some? && k.createdAt <= o.createdAt
  }

  /** Whether `q` is the newest kept notice to name a fee no later than `o`, and names the
      same. */
  ghost predicate StandsIn(kept: Notices, q: EventId, o: InstanceInfo) {
    && q in kept && PricedBy(kept[q], o) && kept[q].fee == o.fee
    && forall k | k in kept && k != q && PricedBy(kept[k], o) :: After(kept[q], kept[k])
  }

  /** Whether a notice of `pubkey` is missing whose fee was in force for a time: no other
      of its second supersedes it. */
  ghost predicate Missed(kept: Notices, all: Notices, pubkey: PubKey, o: EventId) {
    && o in all && o !in kept && all[o].pubkey == pubkey && all[o].fee.Some?
    && forall q | q in all :: !Hides(all[q], all[o])
  }

  ghost predicate SameAnswers(kept: Notices, all: Notices, pubkey: PubKey) {
    forall at :: FeeInForce(kept, pubkey, at) == FeeInForce(all, pubkey, at)
  }

  lemma MissedWins(kept: Notices, all: Notices, pubkey: PubKey, o: EventId)
    requires ById(all) && Missed(kept, all, pubkey, o)
    ensures FeeInForce(all, pubkey, all[o].createdAt) == all[o].fee
  {
    var inAll := Published(all, pubkey, all[o].createdAt);
    assert o in inAll;
    assert forall q | q in inAll && q != o :: Supersedes(inAll[o], o, inAll[q], q) by {
      forall q | q in inAll && q != o ensures Supersedes(inAll[o], o, inAll[q], q) {
        assert !Hides(all[q], all[o]) && all[q].eventId == q && all[o].eventId == o;
      }
    }
  }

  /** Asked at the clock of a missing notice, the kept ones answer with a stand-in. */
  lemma AnsweredByStandIn(kept: Notices, all: Notices, pubkey: PubKey, o: EventId)
    requires ById(kept) && ById(all) && Missed(kept, all, pubkey, o)
    requires FeeInForce(kept, pubkey, all[o].createdAt) == FeeInForce(all, pubkey, all[o].createdAt)
    ensures exists q :: StandsIn(kept, q, all[o])
  {
    MissedWins(kept, all, pubkey, o);
    var inKept := Published(kept, pubkey, all[o].createdAt);
    var q := Newest(inKept);
    assert q in inKept;
    forall k | k in kept && k != q && PricedBy(kept[k], all[o]) ensures After(kept[q], kept[k]) {
      assert k in inKept;
    }
    assert StandsIn(kept, q, all[o]);
  }

  /** A stand-in for the winner answers as it does. */
  lemma StandInAnswers(kept: Notices, all: Notices, pubkey: PubKey, at: int, w: EventId, q: EventId)
    requires ById(kept) && Within(kept, all) && IsNewest(Published(all, pubkey, at), w) && StandsIn(kept, q, all[w])
    ensures FeeInForce(kept, pubkey, at) == all[w].fee
  {
    var inKept := Published(kept, pubkey, at);
    assert q in inKept;
    var k := Newest(inKept);
    assert k in inKept && k in Published(all, pubkey, at);
    assert PricedBy(kept[k], all[w]);
  }

  /** Leaving notices out changes no answer exactly when each one missing has a stand-in. */
  lemma ExactLookup(kept: Notices, all: Notices, pubkey: PubKey)
    requires ById(kept) && ById(all) && Within(kept, all)
    ensures SameAnswers(kept, all, pubkey)
       <==> forall o | Missed(kept, all, pubkey, o) :: exists q :: StandsIn(kept, q, all[o])
  {
    if SameAnswers(kept, all, pubkey) {
      forall o | Missed(kept, all, pubkey, o) ensures exists q :: StandsIn(kept, q, all[o]) {
        AnsweredByStandIn(kept, all, pubkey, o);
      }
    }
    if forall o | Missed(kept, all, pubkey, o) :: exists q :: StandsIn(kept, q, all[o]) {
      forall at ensures FeeInForce(kept, pubkey, at) == FeeInForce(all, pubkey, at) {
        SameAnswer(kept, all, pubkey, at);
      }
    }
  }

  lemma SameAnswer(kept: Notices, all: Notices, pubkey: PubKey, at: int)
    requires ById(kept) && ById(all) && Within(kept, all)
    requires forall o | Missed(kept, all, pubkey, o) :: exists q :: StandsIn(kept, q, all[o])
    ensures FeeInForce(kept, pubkey, at) == FeeInForce(all, pubkey, at)
  {
    var inKept, inAll := Published(kept, pubkey, at), Published(all, pubkey, at);
    assert forall id | id in inKept :: id in inAll && inAll[id] == inKept[id];
    if inAll.Keys != {} {
      var w := Newest(inAll);
      if w in kept {
        assert w in inKept && Newest(inKept) == w;
      } else {
        WinnerIsNotHidden(all, pubkey, at, w);
        assert Missed(kept, all, pubkey, w);
        var q :| StandsIn(kept, q, all[w]);
        StandInAnswers(kept, all, pubkey, at, w, q);
      }
    }
  }

  // ---- Over a run of the pipeline ----

  /** The notice an admitted event carries. */
  function NoticeOf(r: Rules, e: Event): Option<InstanceInfo> {
    if Acceptable(r, e) then AsInfo(r.parsers, e) else None
  }

  /** Every notice offered, kept or not: the stream as it was published. */
  function Offered(r: Rules, attempts: seq<Attempt>): Notices {
    if attempts == [] then map[]
    else
      var n := |attempts| - 1;
      var earlier := Offered(r, attempts[..n]);
      if attempts[n].RolledBack? then earlier
      else Grown(earlier, attempts[n].delivery.event.id, NoticeOf(r, attempts[n].delivery.event))
  }

  /** Whether delivery `i` drops an announcement of `pubkey` as unchanged. */
  predicate Drops(r: Rules, attempts: seq<Attempt>, i: nat, pubkey: PubKey)
    requires i < |attempts|
  {
    var e := attempts[i].delivery.event;
    attempts[i].Committed? && e.kind == INFO && e.pubkey == pubkey
    && OutcomeOf(r, Run(r, attempts[..i]), e) == Redundant
  }

  /** The archived event that dropped one was compared with. */
  function ComparedWith(r: Rules, attempts: seq<Attempt>, i: nat, pubkey: PubKey): Event
    requires i < |attempts| && Drops(r, attempts, i, pubkey)
  {
    var archive := Run(r, attempts[..i]).events;
    archive[Newest(Preceding(archive, attempts[i].delivery.event))].event
  }

  /** At every drop, whatever the run ever offers between the compared version and
      the dropped one had been offered already. */
  ghost predicate NothingLate(r: Rules, attempts: seq<Attempt>, pubkey: PubKey) {
    forall i: nat | i < |attempts| && Drops(r, attempts, i, pubkey) ::
      forall s | s in Offered(r, attempts) && LiesBetween(r, attempts, i, pubkey, Offered(r, attempts)[s]) ::
        s in Offered(r, attempts[..i])
  }

  /** At every drop, whatever the run offers later between the two names the same fee or
      none. */
  ghost predicate NoLateRival(r: Rules, attempts: seq<Attempt>, pubkey: PubKey) {
    forall i: nat | i < |attempts| && Drops(r, attempts, i, pubkey) ::
      forall s | s in Offered(r, attempts) && LiesBetween(r, attempts, i, pubkey, Offered(r, attempts)[s]) ::
        s in Offered(r, attempts[..i]) || !DropRivals(r, attempts[i].delivery.event, Offered(r, attempts)[s])
  }

  /** Whether a notice names another fee than a dropped announcement does. */
  predicate DropRivals(r: Rules, dropped: Event, s: InstanceInfo) {
    NoticeOf(r, dropped).Some? && NoticeOf(r, dropped).value.fee.Some? && Rivals(s, NoticeOf(r, dropped).value)
  }

  predicate LiesBetween(r: Rules, attempts: seq<Attempt>, i: nat, pubkey: PubKey, s: InstanceInfo)
    requires i < |attempts| && Drops(r, attempts, i, pubkey)
  {
    var before, e := ComparedWith(r, attempts, i, pubkey), attempts[i].delivery.event;
    s.pubkey == pubkey
    && Supersedes(s.createdAt, s.eventId, before.createdAt, before.id)
    && Supersedes(e.createdAt, e.id, s.createdAt, s.eventId)
  }

  lemma {:induction false} OfferedIsDelivered(r: Rules, attempts: seq<Attempt>)
    requires CollisionFree(r, Delivered(attempts))
    ensures ById(Offered(r, attempts))
    ensures forall e | e in Delivered(attempts) && NoticeOf(r, e).Some? ::
              e.id in Offered(r, attempts) && Offered(r, attempts)[e.id] == NoticeOf(r, e).value
    ensures forall id | id in Offered(r, attempts) ::
              exists e :: e in Delivered(attempts) && e.id == id && NoticeOf(r, e) == Some(Offered(r, attempts)[id])
  {
    if attempts != [] {
      var n := |attempts| - 1;
      var before := attempts[..n];
      assert attempts == before + [attempts[n]];
      assert Delivered(attempts)
          == Delivered(before) + if attempts[n].Committed? then {attempts[n].delivery.event} else {};
      OfferedIsDelivered(r, before);
      if attempts[n].Committed? { OneMoreOffered(r, before, attempts[n].delivery); }
    }
  }

  lemma OneMoreOffered(r: Rules, before: seq<Attempt>, d: Delivery)
    ensures Offered(r, before + [Committed(d)]) == Grown(Offered(r, before), d.event.id, NoticeOf(r, d.event))
  {
    assert (before + [Committed(d)])[..|before|] == before;
  }

  /** What the table holds was offered. */
  lemma KeptWasOffered(r: Rules, attempts: seq<Attempt>)
    requires CollisionFree(r, Delivered(attempts))
    ensures ById(Run(r, attempts).derived.info) && Within(Run(r, attempts).derived.info, Offered(r, attempts))
  {
    Reachable(r, attempts);
    TradeArchive(r, attempts);
    OfferedIsDelivered(r, attempts);
    var t := Run(r, attempts);
    forall id | id in t.derived.info
      ensures id in Offered(r, attempts) && Offered(r, attempts)[id] == t.derived.info[id]
      ensures t.derived.info[id].eventId == id
    {
      var e := t.events[id].event;
      assert e in Delivered(attempts) && NoticeOf(r, e) == Some(t.derived.info[id]);
    }
  }

  lemma InfoRow(t: Derived, read: Reading)
    ensures WithRow(t, read).info
         == if InfoIn(read).Some? then InsertOrIgnore(t.info, InfoIn(read).value.eventId, InfoIn(read).value)
            else t.info
  {
    if read.Ok? { AddRowInfo(t, read.value); }
  }

  lemma AddRowInfo(t: Derived, parsed: Parsed)
    ensures AddRow(t, parsed).info
         == if parsed.ParsedInfo? then InsertOrIgnore(t.info, parsed.info.eventId, parsed.info) else t.info
  {
    match parsed {
      case ParsedOrder(v) => assert AddOrder(t, v).info == t.info;
      case ParsedDispute(v) => assert AddDispute(t, v).info == t.info;
      case ParsedFee(f) => assert AddFee(t, f).info == t.info;
      case _ =>
    }
  }

  lemma NoticeIsInfo(p: Parsers, e: Event)
    requires AsInfo(p, e).Some?
    ensures e.kind == INFO && Parse(p, e) == Ok(ParsedInfo(AsInfo(p, e).value))
    ensures AsInfo(p, e).value.eventId == e.id && AsInfo(p, e).value.pubkey == e.pubkey
    ensures AsInfo(p, e).value.createdAt == e.createdAt
  {
  }

  lemma NoticeIsAdmitted(r: Rules, e: Event)
    requires NoticeOf(r, e).Some?
    ensures Admit(r, e).None? && Parse(r.parsers, e) == Ok(ParsedInfo(AsInfo(r.parsers, e).value)) && e.kind == INFO
  {
    AdmitMeaning(r, e);
    NoticeIsInfo(r.parsers, e);
  }

  lemma ArchivedNoticeIsKept(r: Rules, t: Tables, e: Event)
    requires Inv(r, t) && AsInfo(r.parsers, e).Some? && e.id in t.events && t.events[e.id].event == e
    ensures e.id in t.derived.info
  {
  }

  /** A notice that is not in the table after it was delivered was dropped. */
  lemma MissingWasDropped(r: Rules, t: Tables, d: Delivery)
    requires Inv(r, t) && NoticeOf(r, d.event).Some? && d.event.id !in Step(r, t, d).derived.info
    requires d.event.id in t.events ==> t.events[d.event.id].event == d.event
    ensures OutcomeOf(r, t, d.event) == Redundant && d.event.id !in t.derived.info
  {
    var e := d.event;
    NoticeIsInfo(r.parsers, e);
    NoticeIsAdmitted(r, e);
    if e.id in t.events { ArchivedNoticeIsKept(r, t, e); }
    InfoRow(t.derived, Parse(r.parsers, e));
    assert !Files(r, t, e);
  }

  lemma KeptStays(r: Rules, t: Tables, d: Delivery)
    ensures Within(t.derived.info, Step(r, t, d).derived.info)
  {
    InfoRow(t.derived, Parse(r.parsers, d.event));
  }

  /** The version a drop is compared with says the same fee. */
  lemma SameTagsSameFee(r: Rules, archive: Archive, e: Event)
    requires AsInfo(r.parsers, e).Some? && RepeatsPredecessor(archive, e)
    ensures var before := archive[Newest(Preceding(archive, e))].event;
            AsInfo(r.parsers, before).Some? && AsInfo(r.parsers, before).value.fee == AsInfo(r.parsers, e).value.fee
  {
    var before := archive[Newest(Preceding(archive, e))].event;
    NoticeIsInfo(r.parsers, e);
    SameTagsIsUpToOrder(before, e);
    TagOrderDoesNotMatter(before.tags, e.tags, "d");
  }

  lemma InfoAddress(p: Parsers, e: Event)
    requires AsInfo(p, e).Some?
    ensures DTag(e) == Some(p.hex(e.pubkey))
  {
  }

  /** Every kept notice of the publisher up to the dropped one is what the drop was
      compared against. */
  lemma KeptPrecedes(r: Rules, t: Tables, e: Event, a: EventId)
    requires Inv(r, t) && AsInfo(r.parsers, e).Some? && a in t.derived.info && a != e.id
    requires t.derived.info[a].pubkey == e.pubkey && t.derived.info[a].createdAt <= e.createdAt
    ensures a in Preceding(t.events, e) && Preceding(t.events, e)[a] == t.derived.info[a].createdAt
  {
    var x := t.events[a].event;
    assert AsInfo(r.parsers, x).Some?;
    NoticeIsInfo(r.parsers, x);
    NoticeIsInfo(r.parsers, e);
    InfoAddress(r.parsers, x);
    InfoAddress(r.parsers, e);
  }

  lemma ComparedIsKept(r: Rules, t: Tables, e: Event)
    requires Inv(r, t) && NoticeOf(r, e).Some? && RepeatsPredecessor(t.events, e)
    ensures Predecessor(t.derived.info, NoticeOf(r, e).value, Newest(Preceding(t.events, e)))
  {
    var stamps := Preceding(t.events, e);
    var before := Newest(stamps);
    NoticeIsInfo(r.parsers, e);
    SameTagsSameFee(r, t.events, e);
    NoticeIsInfo(r.parsers, t.events[before].event);
    forall a | a in t.derived.info && a != before && a != e.id && t.derived.info[a].pubkey == e.pubkey
               && t.derived.info[a].createdAt <= e.createdAt
      ensures After(t.derived.info[before], t.derived.info[a])
    {
      KeptPrecedes(r, t, e, a);
      NoticeIsInfo(r.parsers, t.events[a].event);
    }
  }

  lemma KeptStamp(r: Rules, t: Tables, a: EventId)
    requires Inv(r, t) && a in t.derived.info
    ensures a in t.events && t.events[a].event.id == a == t.derived.info[a].eventId
    ensures t.events[a].event.createdAt == t.derived.info[a].createdAt
  {
    NoticeIsInfo(r.parsers, t.events[a].event);
  }

  lemma OfferedStays(r: Rules, attempts: seq<Attempt>, n: nat)
    requires CollisionFree(r, Delivered(attempts)) && n <= |attempts|
    ensures Delivered(attempts[..n]) <= Delivered(attempts) && CollisionFree(r, Delivered(attempts[..n]))
    ensures Within(Offered(r, attempts[..n]), Offered(r, attempts))
  {
    forall e | e in Delivered(attempts[..n]) ensures e in Delivered(attempts) {
      var a :| a in attempts[..n] && a.Committed? && a.delivery.event == e;
      assert a in attempts;
    }
    OfferedIsDelivered(r, attempts);
    OfferedIsDelivered(r, attempts[..n]);
  }

  ghost predicate LosslessAt(r: Rules, attempts: seq<Attempt>, n: nat, pubkey: PubKey)
    requires n <= |attempts|
  {
    Lossless(Run(r, attempts[..n]).derived.info, Offered(r, attempts[..n]), Offered(r, attempts), pubkey)
  }

  /** The notice delivery `n` drops is covered by what it was compared with. */
  lemma DroppedIsCovered(r: Rules, attempts: seq<Attempt>, n: nat, pubkey: PubKey)
    requires CollisionFree(r, Delivered(attempts)) && NoLateRival(r, attempts, pubkey) && n < |attempts|
    requires LosslessAt(r, attempts, n, pubkey)
    requires Drops(r, attempts, n, pubkey)
    requires var e := attempts[n].delivery.event;
             && NoticeOf(r, e).Some? && NoticeOf(r, e).value.fee.Some? && e.pubkey == pubkey
             && e.id !in Run(r, attempts[..n]).derived.info
    ensures Covered(Run(r, attempts[..n]).derived.info, Offered(r, attempts),
                    NoticeOf(r, attempts[n].delivery.event).value)
  {
    var e, t := attempts[n].delivery.event, Run(r, attempts[..n]);
    var o, before := NoticeOf(r, e).value, Newest(Preceding(t.events, e));
    var offered, all := Offered(r, attempts[..n]), Offered(r, attempts);
    Reachable(r, attempts[..n]);
    NoticeIsInfo(r.parsers, e);
    ComparedIsKept(r, t, e);
    KeptStamp(r, t, before);
    OfferedStays(r, attempts, n);
    OfferedIsDelivered(r, attempts);
    KeptWasOffered(r, attempts[..n]);
    forall s | s in all && s !in offered && Between(t.derived.info[before], all[s], o) ensures !Rivals(all[s], o) {
      assert LiesBetween(r, attempts, n, pubkey, all[s]);
    }
    DropCovers(t.derived.info, offered, all, o, before);
  }

  /** One more delivery keeps the history lossless. */
  lemma StillLossless(r: Rules, attempts: seq<Attempt>, n: nat, pubkey: PubKey)
    requires CollisionFree(r, Delivered(attempts)) && NoLateRival(r, attempts, pubkey) && n < |attempts|
    requires LosslessAt(r, attempts, n, pubkey)
    ensures LosslessAt(r, attempts, n + 1, pubkey)
  {
    var now, next, all := attempts[..n], attempts[..n + 1], Offered(r, attempts);
    assert next[..n] == now && next[n] == attempts[n];
    OfferedStays(r, attempts, n);
    OfferedStays(r, attempts, n + 1);
    OfferedStays(r, next, n);
    var kept, more := Run(r, now).derived.info, Run(r, next).derived.info;
    var offered, wider := Offered(r, now), Offered(r, next);
    if attempts[n].Committed? { KeptStays(r, Run(r, now), attempts[n].delivery); }
    assert Within(kept, more) && Within(offered, wider);
    forall id | id in wider && id !in more && wider[id].pubkey == pubkey && wider[id].fee.Some?
      ensures Covered(more, all, wider[id])
    {
      if id !in offered { NewlyOffered(r, attempts, n, pubkey, id); }
      CoveredStays(kept, more, all, wider[id]);
    }
  }

  lemma NewlyOffered(r: Rules, attempts: seq<Attempt>, n: nat, pubkey: PubKey, id: EventId)
    requires CollisionFree(r, Delivered(attempts)) && NoLateRival(r, attempts, pubkey) && n < |attempts|
    requires LosslessAt(r, attempts, n, pubkey)
    requires attempts[..n + 1][..n] == attempts[..n]
    requires id in Offered(r, attempts[..n + 1]) && id !in Offered(r, attempts[..n])
    requires Offered(r, attempts[..n + 1])[id].pubkey == pubkey && Offered(r, attempts[..n + 1])[id].fee.Some?
    requires id !in Run(r, attempts[..n + 1]).derived.info
    ensures Covered(Run(r, attempts[..n]).derived.info, Offered(r, attempts), Offered(r, attempts[..n + 1])[id])
  {
    var d := attempts[n].delivery;
    assert attempts[n].Committed? && d.event.id == id && NoticeOf(r, d.event).Some?;
    NoticeIsInfo(r.parsers, d.event);
    MissingIsDrop(r, attempts, n, pubkey);
    DroppedIsCovered(r, attempts, n, pubkey);
  }

  lemma MissingIsDrop(r: Rules, attempts: seq<Attempt>, n: nat, pubkey: PubKey)
    requires CollisionFree(r, Delivered(attempts)) && n < |attempts| && attempts[n].Committed?
    requires NoticeOf(r, attempts[n].delivery.event).Some? && attempts[n].delivery.event.pubkey == pubkey
    requires attempts[n].delivery.event.id !in Step(r, Run(r, attempts[..n]), attempts[n].delivery).derived.info
    ensures Drops(r, attempts, n, pubkey)
    ensures attempts[n].delivery.event.id !in Run(r, attempts[..n]).derived.info
  {
    var d := attempts[n].delivery;
    assert d.event in Delivered(attempts) by { assert attempts[n] in attempts; }
    Reachable(r, attempts[..n]);
    ArchivedAsDelivered(r, attempts, n, d.event);
    NoticeIsInfo(r.parsers, d.event);
    MissingWasDropped(r, Run(r, attempts[..n]), d);
  }

  /** What is archived under the id of a delivered event is that event. */
  lemma ArchivedAsDelivered(r: Rules, attempts: seq<Attempt>, n: nat, e: Event)
    requires CollisionFree(r, Delivered(attempts)) && n <= |attempts|
    requires e in Delivered(attempts) && NoticeOf(r, e).Some?
    ensures var archive := Run(r, attempts[..n]).events; e.id in archive ==> archive[e.id].event == e
  {
    var archive := Run(r, attempts[..n]).events;
    Reachable(r, attempts[..n]);
    OfferedStays(r, attempts, n);
    TradeArchive(r, attempts[..n]);
    if e.id in archive { assert archive[e.id].event in Delivered(attempts); }
  }

  lemma {:induction false} LosslessSoFar(r: Rules, attempts: seq<Attempt>, n: nat, pubkey: PubKey)
    requires CollisionFree(r, Delivered(attempts)) && NoLateRival(r, attempts, pubkey) && n <= |attempts|
    ensures LosslessAt(r, attempts, n, pubkey)
  {
    if n > 0 {
      LosslessSoFar(r, attempts, n - 1, pubkey);
      StillLossless(r, attempts, n - 1, pubkey);
    }
  }

  /** Main result: when nothing that belongs between a dropped announcement and the
      one it repeats arrives after the drop with another fee, the pruned table answers
      every question about the fee in force as the whole published stream would. */
  lemma RetentionKeepsTheFee(r: Rules, attempts: seq<Attempt>, pubkey: PubKey, at: int)
    requires CollisionFree(r, Delivered(attempts)) && NoLateRival(r, attempts, pubkey)
    ensures FeeInForce(Run(r, attempts).derived.info, pubkey, at) == FeeInForce(Offered(r, attempts), pubkey, at)
  {
    assert attempts[..|attempts|] == attempts;
    LosslessSoFar(r, attempts, |attempts|, pubkey);
    KeptWasOffered(r, attempts);
    OfferedIsDelivered(r, attempts);
    LosslessLookup(Run(r, attempts).derived.info, Offered(r, attempts), pubkey, at);
  }

  /** Main result, whatever the order of arrival: the pruned table answers every question
      about the fee in force as the whole published stream would exactly when, for each
      notice the table misses that no other of its second supersedes, the newest kept
      notice no later than it to name a fee names the same. */
  lemma RetentionIsExact(r: Rules, attempts: seq<Attempt>, pubkey: PubKey)
    requires CollisionFree(r, Delivered(attempts))
    ensures var kept, all := Run(r, attempts).derived.info, Offered(r, attempts);
            (forall at :: FeeInForce(kept, pubkey, at) == FeeInForce(all, pubkey, at)) <==>
            (forall o | Missed(kept, all, pubkey, o) :: exists q :: StandsIn(kept, q, all[o]))
  {
    KeptWasOffered(r, attempts);
    OfferedIsDelivered(r, attempts);
    ExactLookup(Run(r, attempts).derived.info, Offered(r, attempts), pubkey);
  }

  // ---- When nothing is late ----

  predicate Replaces(a: Event, b: Event) {
    Supersedes(a.createdAt, a.id, b.createdAt, b.id)
  }

  /** Whether attempt `i` brings an announcement of `pubkey`. */
  predicate Announces(attempts: seq<Attempt>, i: nat, pubkey: PubKey)
    requires i < |attempts|
  {
    attempts[i].Committed? && attempts[i].delivery.event.kind == INFO && attempts[i].delivery.event.pubkey == pubkey
  }

  /** Announcements that come page by page, each page oldest first, and each page
      reaching further back than the ones before it save for what it repeats: the
      order a backwards walk hands them over. One single page is a stream that runs
      forward in time. */
  ghost predicate PageWise(attempts: seq<Attempt>, page: seq<nat>, pubkey: PubKey) {
    |page| == |attempts| &&
    forall i: nat, j: nat | i < j < |attempts| && Announces(attempts, i, pubkey) && Announces(attempts, j, pubkey) ::
      var a, b := attempts[i].delivery.event, attempts[j].delivery.event;
      && page[i] <= page[j]
      && (page[i] == page[j] ==> !Replaces(a, b))
      && (page[i] < page[j] ==> Replaces(a, b) || b in Delivered(attempts[..j]))
  }

  lemma FirstDelivery(attempts: seq<Attempt>, e: Event) returns (k: nat)
    requires e in Delivered(attempts)
    ensures k < |attempts| && attempts[k].Committed? && attempts[k].delivery.event == e
    ensures e !in Delivered(attempts[..k])
  {
    k := 0;
    while k < |attempts| && !(attempts[k].Committed? && attempts[k].delivery.event == e)
      invariant k <= |attempts|
      invariant forall j | 0 <= j < k :: !(attempts[j].Committed? && attempts[j].delivery.event == e)
    {
      k := k + 1;
    }
  }

  lemma DeliveredEarlier(attempts: seq<Attempt>, k: nat, i: nat)
    requires k < i <= |attempts| && attempts[k].Committed?
    ensures attempts[k].delivery.event in Delivered(attempts[..i])
  {
    assert attempts[..i][k] == attempts[k];
  }

  /** The order of the backwards walk, and forward order, leave nothing late. */
  lemma PagesLeaveNothingLate(r: Rules, attempts: seq<Attempt>, page: seq<nat>, pubkey: PubKey)
    requires CollisionFree(r, Delivered(attempts)) && PageWise(attempts, page, pubkey)
    ensures NothingLate(r, attempts, pubkey)
  {
    OfferedIsDelivered(r, attempts);
    forall i: nat, s | i < |attempts| && Drops(r, attempts, i, pubkey) && s in Offered(r, attempts)
                       && LiesBetween(r, attempts, i, pubkey, Offered(r, attempts)[s])
      ensures s in Offered(r, attempts[..i])
    {
      var x :| x in Delivered(attempts) && x.id == s && NoticeOf(r, x) == Some(Offered(r, attempts)[s]);
      BetweenCameEarlier(r, attempts, page, pubkey, i, x);
      OfferedStays(r, attempts, i);
      OfferedIsDelivered(r, attempts[..i]);
    }
  }

  /** A publisher heard in strictly increasing order of its clock loses nothing. */
  lemma ForwardOrderKeepsTheFee(r: Rules, attempts: seq<Attempt>, pubkey: PubKey, at: int)
    requires CollisionFree(r, Delivered(attempts))
    requires forall i: nat, j: nat
               | i < j < |attempts| && Announces(attempts, i, pubkey) && Announces(attempts, j, pubkey) ::
               attempts[i].delivery.event.createdAt < attempts[j].delivery.event.createdAt
    ensures FeeInForce(Run(r, attempts).derived.info, pubkey, at) == FeeInForce(Offered(r, attempts), pubkey, at)
  {
    var page: seq<nat> := seq(|attempts|, _ => 0);
    PagesLeaveNothingLate(r, attempts, page, pubkey);
    RetentionKeepsTheFee(r, attempts, pubkey, at);
  }

  /** In page order nothing can first arrive after a notice it precedes when an even
      older one arrived before that. */
  lemma PagesKeepOrder(attempts: seq<Attempt>, page: seq<nat>, pubkey: PubKey, m: nat, i: nat, k: nat)
    requires PageWise(attempts, page, pubkey) && m < i < k < |attempts|
    requires Announces(attempts, m, pubkey) && Announces(attempts, i, pubkey) && Announces(attempts, k, pubkey)
    requires Replaces(attempts[k].delivery.event, attempts[m].delivery.event)
    requires attempts[k].delivery.event !in Delivered(attempts[..k])
    ensures !Replaces(attempts[i].delivery.event, attempts[k].delivery.event)
  {
    assert page[m] <= page[i] <= page[k];
  }

  /** The version a drop is compared with arrived before, from the same publisher. */
  lemma ComparedArrived(r: Rules, attempts: seq<Attempt>, pubkey: PubKey, i: nat) returns (m: nat)
    requires CollisionFree(r, Delivered(attempts)) && i < |attempts| && Drops(r, attempts, i, pubkey)
    ensures m < i && Announces(attempts, m, pubkey)
    ensures attempts[m].delivery.event == ComparedWith(r, attempts, i, pubkey)
  {
    var e, before, t := attempts[i].delivery.event, ComparedWith(r, attempts, i, pubkey), Run(r, attempts[..i]);
    OfferedStays(r, attempts, i);
    TradeArchive(r, attempts[..i]);
    assert Newest(Preceding(t.events, e)) in Preceding(t.events, e);
    m := FirstDelivery(attempts[..i], before);
    assert attempts[m] == attempts[..i][m];
  }

  lemma BetweenCameEarlier(r: Rules, attempts: seq<Attempt>, page: seq<nat>, pubkey: PubKey, i: nat, x: Event)
    requires CollisionFree(r, Delivered(attempts)) && PageWise(attempts, page, pubkey)
    requires i < |attempts| && Drops(r, attempts, i, pubkey)
    requires x in Delivered(attempts) && NoticeOf(r, x).Some?
    requires LiesBetween(r, attempts, i, pubkey, NoticeOf(r, x).value)
    ensures x in Delivered(attempts[..i])
  {
    NoticeIsInfo(r.parsers, x);
    var m := ComparedArrived(r, attempts, pubkey, i);
    var k := FirstDelivery(attempts, x);
    if k < i {
      DeliveredEarlier(attempts, k, i);
    } else if k > i {
      PagesKeepOrder(attempts, page, pubkey, m, i, k);
    }
  }

  // ---- When something is ----

  /** Three announcements of one fee, another and the first again, in that order of
      publication. */
  ghost predicate ThereAndBack(r: Rules, a: Event, b: Event, c: Event) {
    && NoticeOf(r, a).Some? && NoticeOf(r, b).Some? && NoticeOf(r, c).Some?
    && a.pubkey == b.pubkey == c.pubkey && a.createdAt < b.createdAt < c.createdAt
    && a.id != b.id && b.id != c.id && a.id != c.id && SaysTheSame(a, c)
    && NoticeOf(r, a).value.fee.Some? && NoticeOf(r, b).value.fee.Some?
    && NoticeOf(r, a).value.fee != NoticeOf(r, b).value.fee
  }

  lemma FirstIsKept(r: Rules, t: Tables, d: Delivery)
    requires NoticeOf(r, d.event).Some? && !RepeatsPredecessor(t.events, d.event) && d.event.id !in t.events
    ensures Step(r, t, d).derived.info == InsertOrIgnore(t.derived.info, d.event.id, NoticeOf(r, d.event).value)
    ensures Step(r, t, d).events == t.events[d.event.id := Archived(d.event, d.relay, d.now)]
  {
    NoticeIsInfo(r.parsers, d.event);
    NoticeIsAdmitted(r, d.event);
    InfoRow(t.derived, Parse(r.parsers, d.event));
  }

  lemma RepeatIsDropped(r: Rules, t: Tables, d: Delivery)
    requires NoticeOf(r, d.event).Some? && RepeatsPredecessor(t.events, d.event)
    ensures Step(r, t, d).derived == t.derived && Step(r, t, d).events == t.events
  {
    NoticeIsInfo(r.parsers, d.event);
    NoticeIsAdmitted(r, d.event);
  }

  lemma OnlyPredecessor(r: Rules, archive: Archive, a: Event, e: Event)
    requires a.id in archive && archive[a.id].event == a && NoticeOf(r, a).Some? && NoticeOf(r, e).Some?
    requires forall id | id in archive && id != a.id :: archive[id].event.pubkey != e.pubkey
    requires a.pubkey == e.pubkey && a.id != e.id && a.createdAt <= e.createdAt
    ensures RepeatsPredecessor(archive, e) <==> SaysTheSame(a, e)
  {
    NoticeIsInfo(r.parsers, a);
    NoticeIsInfo(r.parsers, e);
    InfoAddress(r.parsers, a);
    InfoAddress(r.parsers, e);
    assert a.id in Preceding(archive, e);
  }

  lemma NewestOfTwo(info: Notices, b: EventId, pubkey: PubKey, at: int)
    requires b in info && info[b].pubkey == pubkey && info[b].createdAt <= at && info[b].fee.Some?
    requires forall id | id in info && id != b :: info[id].createdAt < info[b].createdAt
    ensures FeeInForce(info, pubkey, at) == info[b].fee
  {
    assert b in Published(info, pubkey, at);
  }

  /** Two announcements after the first and its repetition: only the first and the
      last are kept. */
  lemma MiddleIsKept(r: Rules, one: Tables, a: Event, b: Delivery, c: Delivery)
    requires ThereAndBack(r, a, b.event, c.event) && one.events.Keys == {a.id} && one.events[a.id].event == a
    ensures Step(r, Step(r, one, c), b).derived.info
         == InsertOrIgnore(one.derived.info, b.event.id, NoticeOf(r, b.event).value)
  {
    OnlyPredecessor(r, one.events, a, c.event);
    RepeatIsDropped(r, one, c);
    OnlyPredecessor(r, one.events, a, b.event);
    if SaysTheSame(a, b.event) { SameFeeWhenSame(r, a, b.event); }
    FirstIsKept(r, Step(r, one, c), b);
  }

  lemma StampedNotice(r: Rules, e: Event)
    requires NoticeOf(r, e).Some?
    ensures NoticeOf(r, e).value.pubkey == e.pubkey && NoticeOf(r, e).value.createdAt == e.createdAt
  {
  }

  /** No announcement yet. */
  predicate NothingYet(t: Tables) {
    t.events.Keys == {} && t.derived.info.Keys == {}
  }

  /** The announcement in the middle, arriving last, is taken for the fee in force
      long after it was replaced: its replacement was dropped as a repetition. */
  lemma LateNoticeMisleads(r: Rules, none: Tables, a: Delivery, b: Delivery, c: Delivery, at: int)
    requires ThereAndBack(r, a.event, b.event, c.event) && c.event.createdAt <= at && NothingYet(none)
    ensures var run := [] + [Committed(a)] + [Committed(c)] + [Committed(b)];
            && FeeInForce(Offered(r, run), a.event.pubkey, at) == NoticeOf(r, a.event).value.fee
            && FeeInForce(RunFrom(r, none, run).derived.info, a.event.pubkey, at) == NoticeOf(r, b.event).value.fee
  {
    OneMoreStep(r, none, [], a);
    OneMoreStep(r, none, [] + [Committed(a)], c);
    OneMoreStep(r, none, [] + [Committed(a)] + [Committed(c)], b);
    MiddleIsBelieved(r, none, a, b, c, at);
    LastWasOffered(r, a, b, c, at);
    SameFeeWhenSame(r, a.event, c.event);
  }

  lemma MiddleIsBelieved(r: Rules, none: Tables, a: Delivery, b: Delivery, c: Delivery, at: int)
    requires ThereAndBack(r, a.event, b.event, c.event) && c.event.createdAt <= at && NothingYet(none)
    ensures FeeInForce(Step(r, Step(r, Step(r, none, a), c), b).derived.info, a.event.pubkey, at)
         == NoticeOf(r, b.event).value.fee
  {
    FirstIsKept(r, none, a);
    MiddleIsKept(r, Step(r, none, a), a.event, b, c);
    MiddleIsNewest(r, none.derived.info, a.event, b.event, at);
  }

  lemma MiddleIsNewest(r: Rules, none: Notices, a: Event, b: Event, at: int)
    requires NoticeOf(r, a).Some? && NoticeOf(r, b).Some? && none.Keys == {} && NoticeOf(r, b).value.fee.Some?
    requires a.pubkey == b.pubkey && a.createdAt < b.createdAt <= at && a.id != b.id
    ensures FeeInForce(
              InsertOrIgnore(InsertOrIgnore(none, a.id, NoticeOf(r, a).value), b.id, NoticeOf(r, b).value),
              a.pubkey, at)
         == NoticeOf(r, b).value.fee
  {
    StampedNotice(r, a);
    StampedNotice(r, b);
    NewestOfTwo(InsertOrIgnore(InsertOrIgnore(none, a.id, NoticeOf(r, a).value), b.id, NoticeOf(r, b).value),
                b.id, a.pubkey, at);
  }

  lemma LastWasOffered(r: Rules, a: Delivery, b: Delivery, c: Delivery, at: int)
    requires ThereAndBack(r, a.event, b.event, c.event) && c.event.createdAt <= at
    ensures FeeInForce(Offered(r, [] + [Committed(a)] + [Committed(c)] + [Committed(b)]), a.event.pubkey, at)
         == NoticeOf(r, c.event).value.fee
  {
    OneMoreOffered(r, [], a);
    OneMoreOffered(r, [] + [Committed(a)], c);
    OneMoreOffered(r, [] + [Committed(a)] + [Committed(c)], b);
    StampedNotice(r, a.event);
    StampedNotice(r, b.event);
    StampedNotice(r, c.event);
    SameFeeWhenSame(r, a.event, c.event);
    NewestOfTwo(Offered(r, [] + [Committed(a)] + [Committed(c)] + [Committed(b)]), c.event.id, a.event.pubkey, at);
  }

  lemma SameFeeWhenSame(r: Rules, a: Event, c: Event)
    requires NoticeOf(r, a).Some? && NoticeOf(r, c).Some? && a.pubkey == c.pubkey && SaysTheSame(a, c)
    ensures NoticeOf(r, a).value.fee == NoticeOf(r, c).value.fee
  {
    SameTagsIsUpToOrder(a, c);
  }

  // ---- What dropping hides from a rebuild ----

  /** Whether the one archived event of a publisher is `a`, and its last sighting is at
      `at`. */
  ghost predicate OnlyHeard(t: Tables, a: Event, at: nat) {
    && a.id in t.events && t.events[a.id].event == a
    && (forall id | id in t.events && id != a.id :: t.events[id].event.pubkey != a.pubkey)
    && a.pubkey in t.instances && t.instances[a.pubkey].lastSeenAt == at
  }

  /** An announcement of a publisher not heard before is stored. */
  lemma FirstHeard(r: Rules, t: Tables, d: Delivery)
    requires Inv(r, t) && UnknownSoFar(t, d.event.pubkey) && d.event.id !in t.events && NoticeOf(r, d.event).Some?
    ensures OnlyHeard(Step(r, t, d), d.event, d.event.createdAt)
  {
    NoticeIsInfo(r.parsers, d.event);
    NoPredecessor(t.events, d.event);
    FirstIsKept(r, t, d);
    UnknownIsUnlisted(r, t, d.event.pubkey);
    FirstSighting(r, t, d);
  }

  lemma FirstSighting(r: Rules, t: Tables, d: Delivery)
    requires NoticeOf(r, d.event).Some? && !RepeatsPredecessor(t.events, d.event) && d.event.id !in t.events
    requires d.event.pubkey !in t.instances
    ensures var after := Step(r, t, d).instances;
            d.event.pubkey in after && after[d.event.pubkey].lastSeenAt == d.event.createdAt
  {
    NoticeIsInfo(r.parsers, d.event);
    NoticeIsAdmitted(r, d.event);
    FiledNames(r, t, d);
  }

  lemma NoPredecessor(archive: Archive, e: Event)
    requires forall id | id in archive :: archive[id].event.pubkey != e.pubkey
    ensures !RepeatsPredecessor(archive, e)
  {
  }

  lemma RepeatIsSighted(r: Rules, t: Tables, d: Delivery)
    requires NoticeOf(r, d.event).Some? && RepeatsPredecessor(t.events, d.event) && d.event.pubkey in t.instances
    requires t.instances[d.event.pubkey].lastSeenAt <= d.event.createdAt
    ensures Step(r, t, d).events == t.events && d.event.pubkey in Step(r, t, d).instances
    ensures Step(r, t, d).instances[d.event.pubkey].lastSeenAt == d.event.createdAt
  {
    NoticeIsInfo(r.parsers, d.event);
    NoticeIsAdmitted(r, d.event);
  }

  lemma NotArchivedThen(p: Parsers, archive: Archive, a: Event, at: nat)
    requires a.id in archive && archive[a.id].event == a && a.createdAt < at
    requires forall id | id in archive && id != a.id :: archive[id].event.pubkey != a.pubkey
    ensures !ArchivedAt(p, archive, a.pubkey, at)
  {
  }

  lemma LastSightingIsLost(r: Rules, t: Tables, a: Event, at: nat, fromRaw: bool)
    requires Inv(r, t) && OnlyHeard(t, a, at) && a.createdAt < at
    ensures var after := Rebuilt(r.parsers, t, fromRaw).instances;
            a.pubkey in after && after[a.pubkey].lastSeenAt < at
  {
    NotArchivedThen(r.parsers, t.events, a, at);
    RebuildRestoresSightings(r, t, fromRaw, a.pubkey);
    RebuildReproduces(r, t, fromRaw);
  }

  lemma HeardAgain(r: Rules, one: Tables, a: Event, c: Delivery)
    requires NoticeOf(r, a).Some? && NoticeOf(r, c.event).Some? && SaysTheSame(a, c.event)
    requires a.pubkey == c.event.pubkey && a.createdAt < c.event.createdAt && a.id != c.event.id
    requires OnlyHeard(one, a, a.createdAt)
    ensures OnlyHeard(Step(r, one, c), a, c.event.createdAt)
  {
    OnlyPredecessor(r, one.events, a, c.event);
    RepeatIsSighted(r, one, c);
  }

  /** After any run that has archived nothing of a publisher, an announcement and then its
      unchanged repetition leave a last sighting that no rebuild gives back. */
  lemma RebuildCanNarrow(r: Rules, attempts: seq<Attempt>, a: Delivery, c: Delivery, fromRaw: bool)
    requires NoticeOf(r, a.event).Some? && NoticeOf(r, c.event).Some? && SaysTheSame(a.event, c.event)
    requires a.event.pubkey == c.event.pubkey && a.event.createdAt < c.event.createdAt && a.event.id != c.event.id
    requires UnknownSoFar(Run(r, attempts), a.event.pubkey) && a.event.id !in Run(r, attempts).events
    ensures var t, k := Run(r, attempts + [Committed(a)] + [Committed(c)]), a.event.pubkey;
            var after := Rebuilt(r.parsers, t, fromRaw).instances;
            k in t.instances && k in after && after[k].lastSeenAt < t.instances[k].lastSeenAt
  {
    OneMoreStep(r, EMPTY, attempts, a);
    OneMoreStep(r, EMPTY, attempts + [Committed(a)], c);
    Reachable(r, attempts);
    FirstHeard(r, Run(r, attempts), a);
    HeardAgain(r, Step(r, Run(r, attempts), a), a.event, c);
    var run := attempts + [Committed(a)] + [Committed(c)];
    Reachable(r, run);
    LastSightingIsLost(r, Run(r, run), a.event, c.event.createdAt, fromRaw);
  }
}
