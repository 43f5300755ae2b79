/** Dev fee figures: over periods and instances, and what a duplicate flag means for
    them. */
module DevFees {
  import opened Prelude
  import opened Tiling
  import opened Counting
  import opened Tallies
  import Windows
  import opened Schema
  import opened Grouping
  import opened Ranking
  import opened Projection
  import Reachability

  /** One fee as the figures see it. */
  datatype Fee = Fee(orderId: OrderId, instance: string, createdAt: int, amountSats: int, isDuplicate: bool,
                     orderKnown: bool)

  /** A fee counts on the day it was paid, unless an earlier one paid for its order. */
  function CountedOn(f: Fee): Option<int> { if f.isDuplicate then None else Some(f.createdAt) }

  function Amount(f: Fee): int { f.amountSats }

  function Each(f: Fee): int { 1 }

  function Orphan(f: Fee): int { if f.orderKnown then 0 else 1 }

  datatype Summary = Summary(totalSats: int, paid: int, orphans: int)

  function Summarise(fees: seq<Fee>, w: Window): Summary {
    Summary(Total(fees, CountedOn, Amount, w), Total(fees, CountedOn, Each, w), Total(fees, CountedOn, Orphan, w))
  }

  function OverBuckets(fees: seq<Fee>, bs: seq<Bucket>): Summary {
    Summary(SumOfBuckets(fees, CountedOn, Amount, bs), SumOfBuckets(fees, CountedOn, Each, bs),
            SumOfBuckets(fees, CountedOn, Orphan, bs))
  }

  function IsPaidIn(w: Window): Fee -> bool { (f: Fee) => !f.isDuplicate && w.from <= f.createdAt < w.until }

  function IsOrphanIn(w: Window): Fee -> bool {
    (f: Fee) => !f.isDuplicate && w.from <= f.createdAt < w.until && !f.orderKnown
  }

  function Sats(f: Fee): int { f.amountSats }

  /** The figures are of the fees paid in the window that are not duplicates: what they come
      to, how many they are, and how many of them name an order never seen. */
  lemma SummaryMeaning(fees: seq<Fee>, w: Window)
    ensures Summarise(fees, w) == Summary(SumBy(fees, Weigh(IsPaidIn(w), Sats)), HowMany(fees, IsPaidIn(w)),
                                          HowMany(fees, IsOrphanIn(w)))
  {
    var on: Dating<Fee>, amount: Weight<Fee>, one: Weight<Fee>, orphan: Weight<Fee> := CountedOn, Amount, Each, Orphan;
    forall f: Fee ensures one(f) == 1 && DatedIn(on, w)(f) == IsPaidIn(w)(f) && amount(f) == f.amountSats {
      assert on(f) == if f.isDuplicate then None else Some(f.createdAt);
    }
    TotalMeaning(fees, on, amount, w);
    CountMeaning(fees, on, one, w);
    TotalMeaning(fees, on, orphan, w);
    HowManySame(fees, DatedIn(on, w), IsPaidIn(w));
    SumBySame(fees, Weigh(DatedIn(on, w), amount), Weigh(IsPaidIn(w), Sats));
    OrphansMeaning(fees, w);
  }

  lemma {:induction false} OrphansMeaning(fees: seq<Fee>, w: Window)
    ensures SumBy(fees, Weigh(DatedIn(CountedOn, w), Orphan)) == HowMany(fees, IsOrphanIn(w))
  {
    if fees != [] {
      var n := |fees| - 1;
      var on: Dating<Fee>, orphan: Weight<Fee> := CountedOn, Orphan;
      OrphansMeaning(fees[..n], w);
      SumByNext(fees, Weigh(DatedIn(on, w), orphan));
      HowManyNext(fees, IsOrphanIn(w));
      assert on(fees[n]) == if fees[n].isDuplicate then None else Some(fees[n].createdAt);
      assert orphan(fees[n]) == if fees[n].orderKnown then 0 else 1;
    }
  }

  /** Consecutive periods add up. */
  lemma PeriodsAddUp(fees: seq<Fee>, o: Openings, bs: seq<Bucket>, i: int, from: int, until: int)
    requires Tile(o, bs, i, from, until)
    ensures OverBuckets(fees, bs) == Summarise(fees, Window(from, until))
  {
    BucketsAddUp(fees, CountedOn, Amount, o, bs, i, from, until);
    BucketsAddUp(fees, CountedOn, Each, o, bs, i, from, until);
    BucketsAddUp(fees, CountedOn, Orphan, o, bs, i, from, until);
  }

  /** The days, weeks, months or years of a window they cover add up to it. */
  lemma CalendarAddsUp(fees: seq<Fee>, p: Windows.Period, w: Window)
    requires Windows.Bucketed(p, w)
    ensures OverBuckets(fees, Windows.Buckets(p, w)) == Summarise(fees, w)
  {
    Windows.BucketedIsTiled(p, w);
    PeriodsAddUp(fees, Windows.Openings(p), Windows.Buckets(p, w), Windows.Index(p, w.from), w.from, w.until);
  }

  function InstanceKey(f: Fee): seq<string> { [f.instance] }

  /** So do instances. */
  lemma InstancesAddUp(fees: seq<Fee>, weight: Weight<Fee>, w: Window)
    ensures SumOver(AllKeys(fees, InstanceKey), GroupTotal(fees, InstanceKey, CountedOn, weight, w))
         == Total(fees, CountedOn, weight, w)
  {
    GroupsAddUp(fees, InstanceKey, CountedOn, weight, w);
    SingleKeyWeighs(fees, InstanceKey, CountedOn, weight, w);
  }

  // ---- One payment per order ----

  function Image<A(!new), B>(s: set<A>, f: A -> B): set<B> {
    set x | x in s :: f(x)
  }

  lemma {:induction false} SameSize<A(!new), B(!new)>(s: set<A>, f: A -> B)
    requires forall x, y | x in s && y in s && f(x) == f(y) :: x == y
    ensures |Image(s, f)| == |s|
  {
    if s != {} {
      var x :| x in s;
      var rest := s - {x};
      SameSize(rest, f);
      assert Image(s, f) == Image(rest, f) + {f(x)};
      assert f(x) !in Image(rest, f);
    }
  }

  function Canonical(fees: Rows<Marked<DevFee>>): set<EventId> {
    set id | id in fees && !fees[id].isDuplicate
  }

  function OrdersPaid(fees: Rows<Marked<DevFee>>): set<OrderId> {
    set id | id in fees :: fees[id].row.orderId
  }

  function OrderOf(fees: Rows<Marked<DevFee>>): EventId -> OrderId {
    (id: EventId) => if id in fees then fees[id].row.orderId else ""
  }

  predicate PaysFor(fees: Rows<Marked<DevFee>>, id: EventId, order: OrderId) {
    id in fees && !fees[id].isDuplicate && fees[id].row.orderId == order
  }

  /** Exactly one unflagged fee for every order paid for. */
  ghost predicate OnePerOrder(fees: Rows<Marked<DevFee>>) {
    && (forall x, y, k | PaysFor(fees, x, k) && PaysFor(fees, y, k) :: x == y)
    && (forall k | k in OrdersPaid(fees) :: exists c :: PaysFor(fees, c, k))
  }

  lemma FlagsLeaveOne(rows: Rows<DevFee>)
    ensures OnePerOrder(FeesOf(rows))
  {
    var fees := FeesOf(rows);
    FlaggedKeys(rows);
    forall x, y, k | PaysFor(fees, x, k) && PaysFor(fees, y, k) ensures x == y {
      var c := Reachability.OneFeePerOrder(rows, x);
    }
    forall k | k in OrdersPaid(fees) ensures exists c :: PaysFor(fees, c, k) {
      var id :| id in fees && fees[id].row.orderId == k;
      var c := Reachability.OneFeePerOrder(rows, id);
      assert PaysFor(fees, c, k);
    }
  }

  lemma SameNumber(fees: Rows<Marked<DevFee>>)
    requires OnePerOrder(fees)
    ensures |Canonical(fees)| == |OrdersPaid(fees)|
  {
    var order := OrderOf(fees);
    forall x, y | x in Canonical(fees) && y in Canonical(fees) && order(x) == order(y) ensures x == y {
      assert PaysFor(fees, x, order(x)) && PaysFor(fees, y, order(x));
    }
    SameSize(Canonical(fees), order);
    var image := Image(Canonical(fees), order);
    forall k | k in OrdersPaid(fees) ensures k in image {
      var c :| PaysFor(fees, c, k);
      assert c in Canonical(fees) && order(c) == k;
    }
    assert image == OrdersPaid(fees);
  }

  /** However often the fees of an order were paid, as many fees count as orders were
      paid for. */
  lemma OnePaymentPerOrder(rows: Rows<DevFee>)
    ensures |Canonical(FeesOf(rows))| == |OrdersPaid(FeesOf(rows))|
  {
    FlagsLeaveOne(rows);
    SameNumber(FeesOf(rows));
  }

  lemma FlaggedKeys(rows: Rows<DevFee>)
    ensures FeesOf(rows).Keys == rows.Keys
  {
  }
}
