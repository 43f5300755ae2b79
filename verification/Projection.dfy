/** Every derived table as a function of the archive. */
module Projection {
  import opened Prelude
  import opened Ranking
  import opened Events
  import opened Schema
  import opened Grouping

  // ---- Version tables: one row per archived event that parses to one ----

  type Pick<!R> = (Parsers, Event) -> Option<R>

  function Select<R>(p: Parsers, archive: Archive, pick: Pick<R>): Rows<R> {
    map id | id in archive && pick(p, archive[id].event).Some? :: pick(p, archive[id].event).value
  }

  type Reading = Result<Parsed, Rejection>

  function OrderIn(read: Reading): Option<OrderVersion> {
    match read case Ok(ParsedOrder(v)) => Some(v) case _ => None
  }

  function FeeIn(read: Reading): Option<DevFee> {
    match read case Ok(ParsedFee(f)) => Some(f) case _ => None
  }

  function DisputeIn(read: Reading): Option<DisputeVersion> {
    match read case Ok(ParsedDispute(v)) => Some(v) case _ => None
  }

  function InfoIn(read: Reading): Option<InstanceInfo> {
    match read case Ok(ParsedInfo(i)) => Some(i) case _ => None
  }

  function RatesIn(read: Reading): Option<RateSnapshot> {
    match read case Ok(ParsedRates(r)) => Some(r) case _ => None
  }

  function AsOrder(p: Parsers, e: Event): Option<OrderVersion> { OrderIn(Parse(p, e)) }

  function AsFee(p: Parsers, e: Event): Option<DevFee> { FeeIn(Parse(p, e)) }

  function AsDispute(p: Parsers, e: Event): Option<DisputeVersion> { DisputeIn(Parse(p, e)) }

  function AsInfo(p: Parsers, e: Event): Option<InstanceInfo> { InfoIn(Parse(p, e)) }

  function AsRates(p: Parsers, e: Event): Option<RateSnapshot> { RatesIn(Parse(p, e)) }

  lemma SelectNew<R>(p: Parsers, archive: Archive, pick: Pick<R>, id: EventId, row: Archived)
    requires id !in archive
    ensures id !in Select(p, archive, pick)
    ensures Select(p, archive[id := row], pick) == Grown(Select(p, archive, pick), id, pick(p, row.event))
  {
  }

  function Grown<R>(rows: Rows<R>, id: EventId, row: Option<R>): Rows<R> {
    if row.Some? then rows[id := row.value] else rows
  }

  // ---- The orders projection ----

  function OrderKey(v: OrderVersion): OrderId { v.orderId }

  /** The row recomputed from one order's versions: the mutable columns from the
      latest, the outcomes from the first version to reach them. */
  function ProjectOrder(vs: Rows<OrderVersion>): Order
    requires vs.Keys != {}
  {
    var stamps: Stamps := map id | id in vs :: vs[id].createdAt;
    assert stamps.Keys == vs.Keys;
    var latest := vs[Newest(stamps)];
    Order(
      latest.orderId, latest.pubkey,
      vs[Oldest(stamps)].createdAt, latest.createdAt,
      latest.status, latest.direction, latest.fiatCode, latest.amountSats,
      if latest.fiat.Fixed? then Some(latest.fiat.amount) else None,
      latest.paymentMethods, latest.premium, latest.network,
      Least(set id | id in vs && vs[id].status.Success? :: vs[id].createdAt),
      Least(set id | id in vs && vs[id].status.Canceled? :: vs[id].createdAt),
      Least(set id | id in vs && vs[id].orderCreatedAt.Some? :: vs[id].orderCreatedAt.value))
  }

  function OrdersOf(versions: Rows<OrderVersion>): map<OrderId, Order> {
    ProjectAll(versions, OrderKey, ProjectOrder)
  }

  // ---- The disputes projection ----

  function DisputeKey(v: DisputeVersion): DisputeId { v.disputeId }

  /** The status from the latest version; the opening and the initiator each from
      the latest version that published one. */
  function ProjectDispute(vs: Rows<DisputeVersion>): Dispute
    requires vs.Keys != {}
  {
    var stamps: Stamps := map id | id in vs :: vs[id].createdAt;
    assert stamps.Keys == vs.Keys;
    var latest := vs[Newest(stamps)];
    var openings: Stamps := map id | id in vs && vs[id].openedAt.Some? :: vs[id].createdAt;
    var claims: Stamps := map id | id in vs && vs[id].initiator.Some? :: vs[id].createdAt;
    Dispute(
      latest.disputeId, latest.pubkey,
      if openings.Keys == {} then None else vs[Newest(openings)].openedAt,
      latest.createdAt, latest.status,
      if claims.Keys == {} then None else vs[Newest(claims)].initiator)
  }

  function DisputesOf(versions: Rows<DisputeVersion>): map<DisputeId, Dispute> {
    ProjectAll(versions, DisputeKey, ProjectDispute)
  }

  // ---- The duplicate flags ----

  function FeeKey(f: DevFee): OrderId { f.orderId }

  function FeeStamp(f: DevFee): nat { f.createdAt }

  function FeesOf(rows: Rows<DevFee>): Rows<Marked<DevFee>> {
    Flagged(Unflagged(rows), FeeKey, FeeStamp)
  }

  // ---- All of it ----

  /** Everything derived, from the archive alone. */
  function Derive(p: Parsers, archive: Archive): Derived {
    FromVersions(
      Select(p, archive, AsOrder), Select(p, archive, AsDispute), Select(p, archive, AsFee),
      Select(p, archive, AsInfo), Select(p, archive, AsRates))
  }

  /** The version tables, and what follows from them. */
  function FromVersions(orders: Rows<OrderVersion>, disputes: Rows<DisputeVersion>, fees: Rows<DevFee>,
                        info: Rows<InstanceInfo>, rates: Rows<RateSnapshot>): Derived {
    Derived(orders, OrdersOf(orders), disputes, DisputesOf(disputes), FeesOf(fees), info, rates)
  }

  function AddOrder(t: Derived, v: OrderVersion): Derived {
    var versions := InsertOrIgnore(t.orderVersions, v.eventId, v);
    t.(orderVersions := versions, orders := Refresh(t.orders, versions, OrderKey, ProjectOrder, v.orderId))
  }

  function AddDispute(t: Derived, v: DisputeVersion): Derived {
    var versions := InsertOrIgnore(t.disputeVersions, v.eventId, v);
    t.(disputeVersions := versions,
       disputes := Refresh(t.disputes, versions, DisputeKey, ProjectDispute, v.disputeId))
  }

  function AddFee(t: Derived, f: DevFee): Derived {
    var fees := InsertOrIgnore(t.devFees, f.eventId, Marked(f, false));
    t.(devFees := RefreshFlags(fees, FeeKey, FeeStamp, f.orderId))
  }

  /** The rows one parsed event writes, and the projections it refreshes. */
  function AddRow(t: Derived, parsed: Parsed): Derived {
    match parsed
    case ParsedOrder(v) => AddOrder(t, v)
    case ParsedFee(f) => AddFee(t, f)
    case ParsedDispute(v) => AddDispute(t, v)
    case ParsedInfo(i) => t.(info := InsertOrIgnore(t.info, i.eventId, i))
    case ParsedRates(s) => t.(rates := InsertOrIgnore(t.rates, s.eventId, s))
    case ParsedRelayList(_) => t
  }

  lemma NewFee(rows: Rows<DevFee>, id: EventId, f: DevFee)
    requires id !in rows
    ensures RefreshFlags(FeesOf(rows)[id := Marked(f, false)], FeeKey, FeeStamp, f.orderId) == FeesOf(rows[id := f])
  {
    NewFlaggedRow(Unflagged(rows), FeeKey, FeeStamp, id, f);
    UnflaggedGrows(rows, id, f);
  }

  lemma UnflaggedGrows(rows: Rows<DevFee>, id: EventId, f: DevFee)
    requires id !in rows
    ensures Unflagged(rows[id := f]) == Unflagged(rows)[id := Marked(f, false)]
  {
  }

  lemma AddedOrder(orders: Rows<OrderVersion>, disputes: Rows<DisputeVersion>, fees: Rows<DevFee>,
                   info: Rows<InstanceInfo>, rates: Rows<RateSnapshot>, v: OrderVersion)
    requires v.eventId !in orders
    ensures AddOrder(FromVersions(orders, disputes, fees, info, rates), v)
         == FromVersions(orders[v.eventId := v], disputes, fees, info, rates)
  {
    NewRow(orders, OrderKey, ProjectOrder, v.eventId, v);
  }

  lemma AddedDispute(orders: Rows<OrderVersion>, disputes: Rows<DisputeVersion>, fees: Rows<DevFee>,
                     info: Rows<InstanceInfo>, rates: Rows<RateSnapshot>, v: DisputeVersion)
    requires v.eventId !in disputes
    ensures AddDispute(FromVersions(orders, disputes, fees, info, rates), v)
         == FromVersions(orders, disputes[v.eventId := v], fees, info, rates)
  {
    NewRow(disputes, DisputeKey, ProjectDispute, v.eventId, v);
  }

  lemma AddedFee(orders: Rows<OrderVersion>, disputes: Rows<DisputeVersion>, fees: Rows<DevFee>,
                 info: Rows<InstanceInfo>, rates: Rows<RateSnapshot>, f: DevFee)
    requires f.eventId !in fees
    ensures AddFee(FromVersions(orders, disputes, fees, info, rates), f)
         == FromVersions(orders, disputes, fees[f.eventId := f], info, rates)
  {
    NewFee(fees, f.eventId, f);
  }

  lemma DeriveGrown(p: Parsers, archive: Archive, id: EventId, row: Archived)
    requires id !in archive
    ensures Derive(p, archive[id := row])
         == FromVersions(
              Grown(Select(p, archive, AsOrder), id, AsOrder(p, row.event)),
              Grown(Select(p, archive, AsDispute), id, AsDispute(p, row.event)),
              Grown(Select(p, archive, AsFee), id, AsFee(p, row.event)),
              Grown(Select(p, archive, AsInfo), id, AsInfo(p, row.event)),
              Grown(Select(p, archive, AsRates), id, AsRates(p, row.event)))
  {
    SelectNew(p, archive, AsOrder, id, row);
    SelectNew(p, archive, AsDispute, id, row);
    SelectNew(p, archive, AsFee, id, row);
    SelectNew(p, archive, AsInfo, id, row);
    SelectNew(p, archive, AsRates, id, row);
  }

  /** Archiving one more event and adding its row is deriving from the larger
      archive: the incremental path computes what the archive says. */
  lemma DeriveNew(p: Parsers, archive: Archive, id: EventId, row: Archived)
    requires id !in archive && row.event.id == id
    ensures Derive(p, archive[id := row]) == match Parse(p, row.event) {
      case Ok(parsed) => AddRow(Derive(p, archive), parsed)
      case Err(_) => Derive(p, archive)
    }
  {
    DeriveGrown(p, archive, id, row);
    var o, d, f := Select(p, archive, AsOrder), Select(p, archive, AsDispute), Select(p, archive, AsFee);
    var i, r := Select(p, archive, AsInfo), Select(p, archive, AsRates);
    var read := Parse(p, row.event);
    ParsedIsStamped(p, row.event);
    if read.Ok? { AddedRow(o, d, f, i, r, id, read.value); }
  }

  /** The id stamped on the row of a reading. */
  predicate Stamped(read: Reading, id: EventId) {
    match read
    case Ok(ParsedOrder(v)) => v.eventId == id
    case Ok(ParsedFee(f)) => f.eventId == id
    case Ok(ParsedDispute(v)) => v.eventId == id
    case Ok(ParsedInfo(i)) => i.eventId == id
    case Ok(ParsedRates(s)) => s.eventId == id
    case _ => true
  }

  lemma ParsedIsStamped(p: Parsers, e: Event)
    ensures Stamped(Parse(p, e), e.id)
  {
  }

  lemma AddedOther(orders: Rows<OrderVersion>, disputes: Rows<DisputeVersion>, fees: Rows<DevFee>,
                   info: Rows<InstanceInfo>, rates: Rows<RateSnapshot>, id: EventId, parsed: Parsed)
    requires parsed.ParsedInfo? || parsed.ParsedRates? || parsed.ParsedRelayList?
    requires id !in info && id !in rates && Stamped(Ok(parsed), id)
    ensures AddRow(FromVersions(orders, disputes, fees, info, rates), parsed)
         == FromVersions(orders, disputes, fees,
                         Grown(info, id, InfoIn(Ok(parsed))), Grown(rates, id, RatesIn(Ok(parsed))))
  {
  }

  lemma AddedRow(orders: Rows<OrderVersion>, disputes: Rows<DisputeVersion>, fees: Rows<DevFee>,
                 info: Rows<InstanceInfo>, rates: Rows<RateSnapshot>, id: EventId, parsed: Parsed)
    requires id !in orders && id !in disputes && id !in fees && id !in info && id !in rates
    requires Stamped(Ok(parsed), id)
    ensures AddRow(FromVersions(orders, disputes, fees, info, rates), parsed)
         == FromVersions(
              Grown(orders, id, OrderIn(Ok(parsed))), Grown(disputes, id, DisputeIn(Ok(parsed))),
              Grown(fees, id, FeeIn(Ok(parsed))), Grown(info, id, InfoIn(Ok(parsed))),
              Grown(rates, id, RatesIn(Ok(parsed))))
  {
    match parsed {
      case ParsedOrder(v) => AddedOrder(orders, disputes, fees, info, rates, v);
      case ParsedDispute(v) => AddedDispute(orders, disputes, fees, info, rates, v);
      case ParsedFee(fee) => AddedFee(orders, disputes, fees, info, rates, fee);
      case _ => AddedOther(orders, disputes, fees, info, rates, id, parsed);
    }
  }

  // ---- What the rows mean ----

  type DateOf = OrderVersion -> Option<nat>

  function SeenOn(v: OrderVersion): Option<nat> { Some(v.createdAt) }

  function WonOn(v: OrderVersion): Option<nat> { if v.status.Success? then Some(v.createdAt) else None }

  function LostOn(v: OrderVersion): Option<nat> { if v.status.Canceled? then Some(v.createdAt) else None }

  function TaggedOn(v: OrderVersion): Option<nat> { v.orderCreatedAt }

  /** Whether a date is the first a version gives, and missing when none gives any. */
  ghost predicate IsFirstDate(vs: Rows<OrderVersion>, date: DateOf, d: Option<nat>) {
    && (d.None? <==> forall id | id in vs :: date(vs[id]).None?)
    && (d.Some? ==> exists id :: id in vs && date(vs[id]) == d)
    && forall id | id in vs && date(vs[id]).Some? :: d.Some? && d.value <= date(vs[id]).value
  }

  lemma LeastIsFirst(vs: Rows<OrderVersion>, date: DateOf, dates: set<nat>)
    requires forall at :: at in dates <==> exists id :: id in vs && date(vs[id]) == Some(at)
    ensures IsFirstDate(vs, date, Least(dates))
  {
    forall id | id in vs && date(vs[id]).Some?
      ensures Least(dates).Some? && Least(dates).value <= date(vs[id]).value
    {
      assert date(vs[id]) == Some(date(vs[id]).value);
      assert date(vs[id]).value in dates;
    }
    if Least(dates).Some? { assert Least(dates).value in dates; }
  }

  /** Whether `id` is the latest version. */
  predicate IsLatest(vs: Rows<OrderVersion>, id: EventId) {
    id in vs && forall o | o in vs && o != id :: Supersedes(vs[id].createdAt, id, vs[o].createdAt, o)
  }

  lemma LatestVersionExists(vs: Rows<OrderVersion>, some: EventId)
    requires some in vs
    ensures exists id :: IsLatest(vs, id)
  {
    var stamps: Stamps := map id | id in vs :: vs[id].createdAt;
    assert some in stamps;
    var id := Newest(stamps);
    assert forall o | o in vs :: o in stamps && stamps[o] == vs[o].createdAt;
    assert IsLatest(vs, id);
  }

  /** The row dates an order by its first version, each outcome by the first version to
      reach it and its creation by the first tag; everything else it takes from the
      latest version. */
  lemma ProjectionMeaning(vs: Rows<OrderVersion>, id: EventId)
    requires IsLatest(vs, id)
    ensures var o := ProjectOrder(vs);
            && IsFirstDate(vs, SeenOn, Some(o.firstSeenAt)) && IsFirstDate(vs, WonOn, o.successAt)
            && IsFirstDate(vs, LostOn, o.canceledAt) && IsFirstDate(vs, TaggedOn, o.orderCreatedAt)
    ensures var o, latest := ProjectOrder(vs), vs[id];
            && o.orderId == latest.orderId && o.pubkey == latest.pubkey && o.lastUpdatedAt == latest.createdAt
            && o.finalStatus == latest.status && o.direction == latest.direction && o.fiatCode == latest.fiatCode
            && o.amountSats == latest.amountSats && o.paymentMethods == latest.paymentMethods
            && o.premium == latest.premium && o.network == latest.network
            && o.fiatAmount == (if latest.fiat.Fixed? then Some(latest.fiat.amount) else None)
  {
    LatestColumns(vs, id);
    FirstColumn(vs);
    OutcomeColumns(vs);
  }

  lemma FirstColumn(vs: Rows<OrderVersion>)
    requires vs.Keys != {}
    ensures IsFirstDate(vs, SeenOn, Some(ProjectOrder(vs).firstSeenAt))
  {
    var stamps: Stamps := map o | o in vs :: vs[o].createdAt;
    assert stamps.Keys == vs.Keys;
    var oldest := Oldest(stamps);
    forall id | id in vs ensures vs[oldest].createdAt <= vs[id].createdAt {
      assert id in stamps;
    }
    assert SeenOn(vs[oldest]) == Some(vs[oldest].createdAt);
  }

  lemma LatestColumns(vs: Rows<OrderVersion>, id: EventId)
    requires IsLatest(vs, id)
    ensures var o, latest := ProjectOrder(vs), vs[id];
            && o.orderId == latest.orderId && o.pubkey == latest.pubkey && o.lastUpdatedAt == latest.createdAt
            && o.finalStatus == latest.status && o.direction == latest.direction && o.fiatCode == latest.fiatCode
            && o.amountSats == latest.amountSats && o.paymentMethods == latest.paymentMethods
            && o.premium == latest.premium && o.network == latest.network
            && o.fiatAmount == (if latest.fiat.Fixed? then Some(latest.fiat.amount) else None)
  {
    var stamps: Stamps := map o | o in vs :: vs[o].createdAt;
    assert stamps.Keys == vs.Keys && id in stamps;
    var newest := Newest(stamps);
    assert newest in vs && newest == id;
  }

  lemma OutcomeColumns(vs: Rows<OrderVersion>)
    requires vs.Keys != {}
    ensures IsFirstDate(vs, WonOn, ProjectOrder(vs).successAt) && IsFirstDate(vs, LostOn, ProjectOrder(vs).canceledAt)
    ensures IsFirstDate(vs, TaggedOn, ProjectOrder(vs).orderCreatedAt)
  {
    LeastIsFirst(vs, WonOn, set id | id in vs && vs[id].status.Success? :: vs[id].createdAt);
    LeastIsFirst(vs, LostOn, set id | id in vs && vs[id].status.Canceled? :: vs[id].createdAt);
    LeastIsFirst(vs, TaggedOn, set id | id in vs && vs[id].orderCreatedAt.Some? :: vs[id].orderCreatedAt.value);
  }

  predicate SaysOpening(v: DisputeVersion) { v.openedAt.Some? }

  predicate SaysInitiator(v: DisputeVersion) { v.initiator.Some? }

  predicate SaysAnything(v: DisputeVersion) { true }

  /** Whether `id` is the latest version to say something. */
  predicate LatestToSay(vs: Rows<DisputeVersion>, says: DisputeVersion -> bool, id: EventId) {
    && id in vs && says(vs[id])
    && forall o | o in vs && o != id && says(vs[o]) :: Supersedes(vs[id].createdAt, id, vs[o].createdAt, o)
  }

  /** Some version is, as soon as one says it. */
  lemma LatestExists(vs: Rows<DisputeVersion>, says: DisputeVersion -> bool, some: EventId)
    requires some in vs && says(vs[some])
    ensures exists id :: LatestToSay(vs, says, id)
  {
    var stamps: Stamps := map id | id in vs && says(vs[id]) :: vs[id].createdAt;
    assert some in stamps;
    var id := Newest(stamps);
    assert forall o | o in vs && says(vs[o]) :: o in stamps && stamps[o] == vs[o].createdAt;
    assert LatestToSay(vs, says, id);
  }

  /** The opening and the initiator are each those of the latest version to publish one,
      and missing only when none did; the status is the latest version's. */
  lemma DisputeMeaning(vs: Rows<DisputeVersion>, id: EventId)
    requires id in vs
    ensures var d := ProjectDispute(vs);
            && (d.openedAt.None? <==> forall o | o in vs :: !SaysOpening(vs[o]))
            && (LatestToSay(vs, SaysOpening, id) ==> d.openedAt == vs[id].openedAt)
            && (d.initiator.None? <==> forall o | o in vs :: !SaysInitiator(vs[o]))
            && (LatestToSay(vs, SaysInitiator, id) ==> d.initiator == vs[id].initiator)
            && (LatestToSay(vs, SaysAnything, id) ==>
                  && d.disputeId == vs[id].disputeId && d.pubkey == vs[id].pubkey
                  && d.finalStatus == vs[id].status && d.lastUpdatedAt == vs[id].createdAt)
  {
    var stamps: Stamps := map o | o in vs :: vs[o].createdAt;
    assert stamps.Keys == vs.Keys;
    var openings: Stamps := map o | o in vs && vs[o].openedAt.Some? :: vs[o].createdAt;
    var claims: Stamps := map o | o in vs && vs[o].initiator.Some? :: vs[o].createdAt;
    forall o | o in vs
      ensures SaysOpening(vs[o]) ==> o in openings.Keys
      ensures SaysInitiator(vs[o]) ==> o in claims.Keys
    {
    }
    assert id in stamps;
  }
}
