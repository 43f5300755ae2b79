/** What a backfill leaves in the archive: every trade event it should, and a fee history
    that answers as the whole stream would, since the backwards walk hands announcements
    over in an order that leaves none of them late. */
module FeeHistory {
  import opened Prelude
  import opened Events
  import opened Pipeline
  import opened Admission
  import opened Confluence
  import opened Heartbeats
  import opened Backfill

  /** An answer sorted as NIP-01 has it, newest first and by lowest id within a
      second, and cut there. */
  ghost predicate AnswersInOrder(relay: Relay, filter: Filter, page: seq<Event>) {
    && AnswersNewest(relay, filter, page)
    && (forall i, j | 0 <= i < j < |page| :: !Replaces(page[j], page[i]))
    && (forall e, a | e in Holding(relay, filter) && e !in page && a in page :: Replaces(a, e))
  }

  ghost predicate InOrder(relay: Relay, from: int, until: int, answers: seq<Answer>)
    decreases |answers|
  {
    if !Resolves(from, until) || answers == [] || answers[0].None? then true
    else
      var page := answers[0].value;
      AnswersInOrder(relay, Asked(from, until), page)
      && (page != [] ==> InOrder(relay, from, NextUntil(until, page), answers[1..]))
  }

  lemma {:induction false} InOrderIsHonest(relay: Relay, from: int, until: int, answers: seq<Answer>)
    requires InOrder(relay, from, until, answers)
    ensures Honest(relay, from, until, answers)
    decreases |answers|
  {
    if Resolves(from, until) && answers != [] && answers[0].Some? && answers[0].value != [] {
      InOrderIsHonest(relay, from, NextUntil(until, answers[0].value), answers[1..]);
    }
  }

  function Repeat(k: nat, n: nat): seq<nat> {
    if n == 0 then [] else [k] + Repeat(k, n - 1)
  }

  lemma {:induction false} RepeatHolds(k: nat, n: nat)
    ensures |Repeat(k, n)| == n && forall i | 0 <= i < n :: Repeat(k, n)[i] == k
  {
    if n > 0 { RepeatHolds(k, n - 1); }
  }

  /** The number of the page each handed event came on. */
  function PageNumbers(pages: seq<seq<Event>>, k: nat): seq<nat> {
    if pages == [] then [] else Repeat(k, |pages[0]|) + PageNumbers(pages[1..], k + 1)
  }

  lemma {:induction false} PageNumbersHold(pages: seq<seq<Event>>, k: nat)
    ensures |PageNumbers(pages, k)| == |Handed(pages)|
    ensures forall n | n in PageNumbers(pages, k) :: n >= k
  {
    if pages != [] {
      ReversedHolds(pages[0]);
      RepeatHolds(k, |pages[0]|);
      PageNumbersHold(pages[1..], k + 1);
    }
  }

  /** The order `PageWise` asks for, of events rather than attempts. */
  ghost predicate Backwards(events: seq<Event>, page: seq<nat>) {
    |page| == |events| &&
    forall i, j | 0 <= i < j < |events| ::
      && page[i] <= page[j]
      && (page[i] == page[j] ==> !Replaces(events[i], events[j]))
      && (page[i] < page[j] ==> Replaces(events[i], events[j]) || events[j] in events[..j])
  }

  /** Putting one more page before a backwards stream keeps it backwards. */
  lemma PageBefore(first: seq<Event>, rest: seq<Event>, k: nat, page: seq<nat>)
    requires Backwards(rest, page) && forall n | n in page :: n > k
    requires forall i, j | 0 <= i < j < |first| :: !Replaces(first[i], first[j])
    requires forall a, b | a in first && b in rest :: Replaces(a, b) || b in first
    ensures Backwards(first + rest, Repeat(k, |first|) + page)
  {
    RepeatHolds(k, |first|);
    var all, pages, n := first + rest, Repeat(k, |first|) + page, |first|;
    forall i, j | 0 <= i < j < |all|
      ensures pages[i] <= pages[j]
      ensures pages[i] == pages[j] ==> !Replaces(all[i], all[j])
      ensures pages[i] < pages[j] ==> Replaces(all[i], all[j]) || all[j] in all[..j]
    {
      if n <= j {
        assert pages[j] in page;
        assert all[..j] == first + rest[..j - n];
        if n <= i { assert pages[i] == page[i - n]; }
      }
    }
  }

  lemma {:induction false} WalkIsBackwards(relay: Relay, from: int, until: int, answers: seq<Answer>, k: nat)
    requires Sane(relay) && until <= I64_MAX && InOrder(relay, from, until, answers)
    ensures Backwards(Handed(Pages(from, until, answers)), PageNumbers(Pages(from, until, answers), k))
    decreases |answers|
  {
    if Resolves(from, until) && answers != [] && answers[0].Some? && answers[0].value != [] {
      var page, later := answers[0].value, answers[1..];
      var next := NextUntil(until, page);
      var rest := Pages(from, next, later);
      EarliestWasAsked(relay, from, until, page);
      WalkIsBackwards(relay, from, next, later, k + 1);
      PageNumbersHold(rest, k + 1);
      ReversedHolds(page);
      InOrderIsHonest(relay, from, next, later);
      forall a, b | a in Reversed(page) && b in Handed(rest) ensures Replaces(a, b) || b in Reversed(page) {
        HandedAreHeld(relay, from, next, later, b);
        FilterIsHalfOpen(from, until, b);
      }
      PageBefore(Reversed(page), Handed(rest), k, PageNumbers(rest, k + 1));
      assert ([page] + rest)[1..] == rest;
    }
  }

  lemma {:induction false} DeliveredByRelay(url: Url, now: int, events: seq<Event>)
    ensures Delivered(Brings(url, now, events)) == Carried(events)
  {
    BringsHolds(url, now, events);
    var attempts := Brings(url, now, events);
    forall e | e in events ensures e in Delivered(attempts) {
      var i :| 0 <= i < |events| && events[i] == e;
      assert attempts[i] in attempts;
    }
    forall e | e in Delivered(attempts) ensures e in events {
      var a :| a in attempts && a.Committed? && a.delivery.event == e;
      var i :| 0 <= i < |attempts| && attempts[i] == a;
      assert events[i] == e;
    }
  }

  lemma BackwardsIsPageWise(url: Url, now: int, events: seq<Event>, page: seq<nat>, pubkey: PubKey)
    requires Backwards(events, page)
    ensures PageWise(Brings(url, now, events), page, pubkey)
  {
    var attempts := Brings(url, now, events);
    BringsHolds(url, now, events);
    forall i: nat, j: nat | i < j < |attempts| && Announces(attempts, i, pubkey) && Announces(attempts, j, pubkey)
      ensures page[i] < page[j] ==>
                Replaces(events[i], events[j]) || attempts[j].delivery.event in Delivered(attempts[..j])
    {
      if page[i] < page[j] && !Replaces(events[i], events[j]) {
        var m :| 0 <= m < j && events[..j][m] == events[j];
        DeliveredEarlier(attempts, m, j);
      }
    }
  }

  /** Main result: walk a relay's announcements backwards into a fresh database, by
      pages cut in NIP-01 order, and the pruned table knows the fee in force at every
      instant as well as if nothing had been dropped. */
  lemma BackfillKeepsTheFee(r: Rules, relay: Relay, url: Url, now: int, from: int, until: int, answers: seq<Answer>,
                            pubkey: PubKey, at: int)
    requires Sane(relay) && until <= I64_MAX && InOrder(relay, from, until, answers)
    requires CollisionFree(r, relay.held)
    ensures var run := Brings(url, now, Handed(Pages(from, until, answers)));
            FeeInForce(Run(r, run).derived.info, pubkey, at) == FeeInForce(Offered(r, run), pubkey, at)
  {
    var pages := Pages(from, until, answers);
    var run := Brings(url, now, Handed(pages));
    InOrderIsHonest(relay, from, until, answers);
    DeliveredByRelay(url, now, Handed(pages));
    forall e | e in Delivered(run) ensures e in relay.held {
      HandedAreHeld(relay, from, until, answers, e);
    }
    WalkIsBackwards(relay, from, until, answers, 0);
    BackwardsIsPageWise(url, now, Handed(pages), PageNumbers(pages, 0), pubkey);
    PagesLeaveNothingLate(r, run, PageNumbers(pages, 0), pubkey);
    RetentionKeepsTheFee(r, run, pubkey, at);
  }

  lemma DeliveredToo(a: seq<Attempt>, b: seq<Attempt>)
    ensures Delivered(b) <= Delivered(a + b)
  {
    forall x | x in b ensures x in a + b { }
  }

  /** Whatever the database held, a walk that ended by itself leaves in the archive every
      acceptable order, dispute and dev fee the relay holds in the window, save some of a
      second that holds more events than one page carries. */
  lemma BackfillArchivesTrades(r: Rules, before: seq<Attempt>, relay: Relay, url: Url, now: int, from: int, until: int,
                               answers: seq<Answer>, e: Event)
    requires Sane(relay) && until - from <= MAX_WINDOW_SECS && until <= I64_MAX
    requires Honest(relay, from, until, answers) && Finished(from, until, answers)
    requires CollisionFree(r, Delivered(before + Brings(url, now, Handed(Pages(from, until, answers)))))
    requires e in relay.held && from <= e.createdAt < until && |Second(relay, e.createdAt)| <= relay.cap
    requires e.kind in TRADE_KINDS && Acceptable(r, e)
    ensures e in TradeEvents(Run(r, before + Brings(url, now, Handed(Pages(from, until, answers)))).events)
  {
    var handed := Handed(Pages(from, until, answers));
    var run := before + Brings(url, now, handed);
    WalkIsComplete(relay, from, until, answers, e);
    DeliveredByRelay(url, now, handed);
    DeliveredToo(before, Brings(url, now, handed));
    assert e in Carried(handed);
    TradeArchive(r, run);
  }
}
