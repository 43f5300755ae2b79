/** Orders as the reports read them: the projected row, and what only the versions
    still know. */
module Views {
  import opened Prelude
  import opened Ranking
  import opened Events
  import opened Schema
  import opened Grouping
  import opened Projection
  import Csv

  /** What the first version said, which no later one can move. */
  datatype Origin = Origin(fiatCode: string, paymentMethods: seq<string>, direction: Direction)

  datatype View = View(
    orderId: OrderId,
    pubkey: PubKey,
    createdAt: nat,
    status: OrderStatus,
    direction: Direction,
    fiatCode: string,
    paymentMethods: seq<string>,
    amountSats: int,
    fiatAmount: Option<real>,
    isMarketPrice: bool,
    fiatRange: Option<(real, real)>,
    origin: Origin,
    pendingAt: Option<nat>,
    takenAt: Option<nat>,
    successAt: Option<nat>,
    canceledAt: Option<nat>,
    expiresAt: nat)

  /** The versions of one order. */
  type History = vs: Rows<OrderVersion> | vs.Keys != {} witness OneVersion()

  function OneVersion(): (vs: Rows<OrderVersion>)
    ensures vs.Keys != {}
  {
    var vs: Rows<OrderVersion> :=
      map[0 := OrderVersion(0, "", 0, 0, Direction.Buy, Pending, "", 0, Fixed(0.0), "", 0.0, None, 0, None)];
    assert 0 in vs;
    vs
  }

  function StampsOf(vs: History): (stamps: Stamps)
    ensures stamps.Keys == vs.Keys && forall id | id in vs :: stamps[id] == vs[id].createdAt
  {
    map id | id in vs :: vs[id].createdAt
  }

  function LatestOf(vs: History): OrderVersion { vs[Newest(StampsOf(vs))] }

  function FirstOf(vs: History): OrderVersion { vs[Oldest(StampsOf(vs))] }

  /** When the first version with this status was published. */
  function FirstAt(vs: History, status: OrderStatus): Option<nat> {
    Least(set id | id in vs && vs[id].status == status :: vs[id].createdAt)
  }

  /** An order is as old as its tag says, but never younger than its first version. */
  function CreatedAt(o: Order): nat {
    if o.orderCreatedAt.Some? && o.orderCreatedAt.value < o.firstSeenAt then o.orderCreatedAt.value else o.firstSeenAt
  }

  function ViewOf(vs: History): View {
    var o, first, latest := ProjectOrder(vs), FirstOf(vs), LatestOf(vs);
    View(o.orderId, o.pubkey, CreatedAt(o), o.finalStatus, o.direction, o.fiatCode,
         Csv.Read(Csv.START, o.paymentMethods), o.amountSats, o.fiatAmount,
         first.amountSats == 0,
         if first.fiat.Range? then Some((first.fiat.min, first.fiat.max)) else None,
         Origin(first.fiatCode, Csv.Read(Csv.START, first.paymentMethods), first.direction),
         FirstAt(vs, Pending), FirstAt(vs, InProgress), o.successAt, o.canceledAt, latest.expiresAt)
  }

  /** `lifecycle_in`: orders with a version in the window, and the pending ones that
      are still live. */
  predicate TouchedIn(vs: History, from: int, until: int, now: int) {
    (exists id | id in vs :: from <= vs[id].createdAt < until)
    || (ProjectOrder(vs).finalStatus == Pending && LatestOf(vs).expiresAt > now)
  }

  function ViewsOf(hs: seq<History>): seq<View> {
    if hs == [] then [] else ViewsOf(hs[..|hs| - 1]) + [ViewOf(hs[|hs| - 1])]
  }

  function Touched(hs: seq<History>, from: int, until: int, now: int): seq<History> {
    if hs == [] then []
    else
      Touched(hs[..|hs| - 1], from, until, now) +
      if TouchedIn(hs[|hs| - 1], from, until, now) then [hs[|hs| - 1]] else []
  }

  // ---- Where a view's dates come from ----

  lemma FirstAtIsAVersion(vs: History, status: OrderStatus)
    ensures var at := FirstAt(vs, status);
            && (at.None? <==> forall id | id in vs :: vs[id].status != status)
            && (at.Some? ==> exists id :: id in vs && vs[id].status == status && vs[id].createdAt == at.value)
  {
    var times := set id | id in vs && vs[id].status == status :: vs[id].createdAt;
    forall id | id in vs && vs[id].status == status ensures FirstAt(vs, status).Some? {
      assert vs[id].createdAt in times;
    }
    if times != {} {
      var id :| id in vs && vs[id].status == status && vs[id].createdAt == FirstAt(vs, status).value;
    }
  }

  lemma OutcomesAreFirstAt(vs: History)
    ensures ProjectOrder(vs).successAt == FirstAt(vs, Success) && ProjectOrder(vs).canceledAt == FirstAt(vs, Canceled)
    ensures ProjectOrder(vs).finalStatus == LatestOf(vs).status
  {
    assert (set id | id in vs && vs[id].status.Success? :: vs[id].createdAt)
        == (set id | id in vs && vs[id].status == Success :: vs[id].createdAt);
    assert (set id | id in vs && vs[id].status.Canceled? :: vs[id].createdAt)
        == (set id | id in vs && vs[id].status == Canceled :: vs[id].createdAt);
    assert StampsOf(vs) == map id | id in vs :: vs[id].createdAt;
  }

  /** Whether nothing dated of a view falls in the window, nor it on the book. */
  predicate Elsewhere(v: View, from: int, until: int, now: int) {
    && (v.pendingAt.Some? ==> !(from <= v.pendingAt.value < until))
    && (v.takenAt.Some? ==> !(from <= v.takenAt.value < until))
    && (v.successAt.Some? ==> !(from <= v.successAt.value < until))
    && (v.canceledAt.Some? ==> !(from <= v.canceledAt.value < until))
    && (v.takenAt.None? && v.successAt.None? && v.canceledAt.None? ==> v.expiresAt <= now)
  }

  /** That is so of every order the push-down leaves out. */
  lemma UntouchedIsElsewhere(vs: History, from: int, until: int, now: int)
    requires !TouchedIn(vs, from, until, now)
    ensures Elsewhere(ViewOf(vs), from, until, now)
  {
    FirstAtIsAVersion(vs, Pending);
    FirstAtIsAVersion(vs, InProgress);
    FirstAtIsAVersion(vs, Success);
    FirstAtIsAVersion(vs, Canceled);
    OutcomesAreFirstAt(vs);
    assert LatestOf(vs) == vs[Newest(StampsOf(vs))];
  }

  // ---- What a view says ----

  function PendingOn(v: OrderVersion): Option<nat> { if v.status.Pending? then Some(v.createdAt) else None }

  function TakenOn(v: OrderVersion): Option<nat> { if v.status.InProgress? then Some(v.createdAt) else None }

  lemma FirstAtMeaning(vs: History, status: OrderStatus, date: DateOf)
    requires forall v :: date(v) == if v.status == status then Some(v.createdAt) else None
    ensures IsFirstDate(vs, date, FirstAt(vs, status))
  {
    LeastIsFirst(vs, date, set id | id in vs && vs[id].status == status :: vs[id].createdAt);
  }

  predicate IsFirst(vs: History, id: EventId) {
    id in vs && forall o | o in vs && o != id ::
      vs[id].createdAt < vs[o].createdAt || (vs[id].createdAt == vs[o].createdAt && id < o)
  }

  /** Every step of an order is dated by the first version to reach it, and the order
      itself by its earliest tag or its first version, whichever is earlier. */
  lemma DatesMeaning(vs: History)
    ensures var v := ViewOf(vs);
            && IsFirstDate(vs, PendingOn, v.pendingAt) && IsFirstDate(vs, TakenOn, v.takenAt)
            && IsFirstDate(vs, WonOn, v.successAt) && IsFirstDate(vs, LostOn, v.canceledAt)
    ensures var at := ViewOf(vs).createdAt;
            && (forall id | id in vs :: at <= vs[id].createdAt && (vs[id].orderCreatedAt.Some? ==>
                                                                 at <= vs[id].orderCreatedAt.value))
            && exists id :: id in vs && (vs[id].createdAt == at || vs[id].orderCreatedAt == Some(at))
  {
    FirstAtMeaning(vs, Pending, PendingOn);
    FirstAtMeaning(vs, InProgress, TakenOn);
    var newest := Newest(StampsOf(vs));
    assert IsLatest(vs, newest);
    ProjectionMeaning(vs, newest);
    CreationMeaning(vs, ProjectOrder(vs));
  }

  lemma CreationMeaning(vs: History, o: Order)
    requires IsFirstDate(vs, SeenOn, Some(o.firstSeenAt)) && IsFirstDate(vs, TaggedOn, o.orderCreatedAt)
    ensures var at := CreatedAt(o);
            && (forall id | id in vs :: at <= vs[id].createdAt && (vs[id].orderCreatedAt.Some? ==>
                                                                 at <= vs[id].orderCreatedAt.value))
            && exists id :: id in vs && (vs[id].createdAt == at || vs[id].orderCreatedAt == Some(at))
  {
    var seen :| seen in vs && SeenOn(vs[seen]) == Some(o.firstSeenAt);
    forall id | id in vs ensures o.firstSeenAt <= vs[id].createdAt {
      assert SeenOn(vs[id]) == Some(vs[id].createdAt);
    }
    forall id | id in vs && vs[id].orderCreatedAt.Some?
      ensures o.orderCreatedAt.Some? && o.orderCreatedAt.value <= vs[id].orderCreatedAt.value
    {
      assert TaggedOn(vs[id]) == vs[id].orderCreatedAt;
    }
    if o.orderCreatedAt.Some? {
      var tagged :| tagged in vs && TaggedOn(vs[tagged]) == o.orderCreatedAt;
    }
  }

  /** As it stands an order is what its latest version says; where it came from, whether it
      was at market price and its range are what its first version said. */
  lemma ViewMeaning(vs: History, first: EventId, latest: EventId)
    requires IsFirst(vs, first) && IsLatest(vs, latest)
    ensures var v, now := ViewOf(vs), vs[latest];
            && v.orderId == now.orderId && v.pubkey == now.pubkey && v.status == now.status
            && v.direction == now.direction && v.fiatCode == now.fiatCode && v.amountSats == now.amountSats
            && v.paymentMethods == Csv.Read(Csv.START, now.paymentMethods) && v.expiresAt == now.expiresAt
            && v.fiatAmount == (if now.fiat.Fixed? then Some(now.fiat.amount) else None)
    ensures var v, origin := ViewOf(vs), vs[first];
            && (v.isMarketPrice <==> origin.amountSats == 0)
            && v.fiatRange == (if origin.fiat.Range? then Some((origin.fiat.min, origin.fiat.max)) else None)
            && v.origin.fiatCode == origin.fiatCode && v.origin.direction == origin.direction
            && v.origin.paymentMethods == Csv.Read(Csv.START, origin.paymentMethods)
  {
    ProjectionMeaning(vs, latest);
    assert latest in StampsOf(vs) && Newest(StampsOf(vs)) == latest;
    assert first in StampsOf(vs) && Oldest(StampsOf(vs)) == first;
  }

  /** What the narrowed read keeps is exactly the orders with a version in the window, and
      those whose latest version is pending and has not expired. */
  lemma TouchedMeaning(vs: History, latest: EventId, from: int, until: int, now: int)
    requires IsLatest(vs, latest)
    ensures TouchedIn(vs, from, until, now) <==>
              || (exists id | id in vs :: from <= vs[id].createdAt && vs[id].createdAt < until)
              || (vs[latest].status.Pending? && now < vs[latest].expiresAt)
  {
    ProjectionMeaning(vs, latest);
    assert latest in StampsOf(vs) && Newest(StampsOf(vs)) == latest;
  }
}
