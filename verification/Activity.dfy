/** What happened to orders in a window: over periods, over slices, over hours. */
module Activity {
  import opened Prelude
  import opened Events
  import opened Calendar
  import opened Tiling
  import opened Counting
  import opened Tallies
  import Windows
  import opened Views
  import opened Schema

  // ---- The dates a figure is counted on ----

  function CreatedOn(v: View): Option<int> { Some(v.createdAt) }

  function CompletedOn(v: View): Option<int> {
    if v.status == Success && v.successAt.Some? then Some(v.successAt.value) else None
  }

  function CanceledOn(v: View): Option<int> {
    if v.status == Canceled && v.canceledAt.Some? then Some(v.canceledAt.value) else None
  }

  function Each(v: View): int { 1 }

  datatype Dated = Dated(created: int, completed: int, canceled: int)

  /** The three dated counts of a window. */
  function Over(orders: seq<View>, w: Window): Dated {
    Dated(Total(orders, CreatedOn, Each, w), Total(orders, CompletedOn, Each, w), Total(orders, CanceledOn, Each, w))
  }

  /** The counts of each bucket, added up. */
  function OverBuckets(orders: seq<View>, bs: seq<Bucket>): Dated {
    Dated(SumOfBuckets(orders, CreatedOn, Each, bs), SumOfBuckets(orders, CompletedOn, Each, bs),
           SumOfBuckets(orders, CanceledOn, Each, bs))
  }

  /** Consecutive periods add up: what is counted over the buckets of a window, whatever
      the calendar they are cut by, is what is counted over the window. */
  lemma PeriodsAddUp(orders: seq<View>, o: Openings, bs: seq<Bucket>, i: int, from: int, until: int)
    requires Tile(o, bs, i, from, until)
    ensures OverBuckets(orders, bs) == Over(orders, Window(from, until))
  {
    BucketsAddUp(orders, CreatedOn, Each, o, bs, i, from, until);
    BucketsAddUp(orders, CompletedOn, Each, o, bs, i, from, until);
    BucketsAddUp(orders, CanceledOn, Each, o, bs, i, from, until);
  }

  /** The days, weeks, months or years of a window they cover add up to it. */
  lemma CalendarAddsUp(orders: seq<View>, p: Windows.Period, w: Window)
    requires Windows.Bucketed(p, w)
    ensures OverBuckets(orders, Windows.Buckets(p, w)) == Over(orders, w)
  {
    Windows.BucketedIsTiled(p, w);
    PeriodsAddUp(orders, Windows.Openings(p), Windows.Buckets(p, w), Windows.Index(p, w.from), w.from, w.until);
  }

  // ---- What the counts are ----

  function CreatedIn(w: Window): View -> bool { (v: View) => w.from <= v.createdAt < w.until }

  /** Still standing as a success, which it first reached in the window. */
  function CompletedIn(w: Window): View -> bool {
    (v: View) => v.status.Success? && v.successAt.Some? && w.from <= v.successAt.value < w.until
  }

  function CanceledIn(w: Window): View -> bool {
    (v: View) => v.status.Canceled? && v.canceledAt.Some? && w.from <= v.canceledAt.value < w.until
  }

  lemma DatedMeaning(v: View, w: Window)
    ensures DatedIn(CreatedOn, w)(v) == CreatedIn(w)(v)
    ensures DatedIn(CompletedOn, w)(v) == CompletedIn(w)(v)
    ensures DatedIn(CanceledOn, w)(v) == CanceledIn(w)(v)
  {
    var created: Dating<View>, completed: Dating<View>, canceled: Dating<View> := CreatedOn, CompletedOn, CanceledOn;
    assert created(v) == Some(v.createdAt);
    assert completed(v) == if v.status == Success && v.successAt.Some? then Some(v.successAt.value) else None;
    assert canceled(v) == if v.status == Canceled && v.canceledAt.Some? then Some(v.canceledAt.value) else None;
  }

  /** Each dated count of a window is how many orders have that date in it. */
  lemma CountsMeaning(orders: seq<View>, w: Window)
    ensures Over(orders, w) == Dated(HowMany(orders, CreatedIn(w)), HowMany(orders, CompletedIn(w)),
                                     HowMany(orders, CanceledIn(w)))
  {
    var one: Weight<View> := Each;
    forall v: View ensures one(v) == 1 { }
    CountMeaning(orders, CreatedOn, one, w);
    CountMeaning(orders, CompletedOn, one, w);
    CountMeaning(orders, CanceledOn, one, w);
    forall v ensures DatedIn(CreatedOn, w)(v) == CreatedIn(w)(v) && DatedIn(CompletedOn, w)(v) == CompletedIn(w)(v)
                     && DatedIn(CanceledOn, w)(v) == CanceledIn(w)(v) {
      DatedMeaning(v, w);
    }
    HowManySame(orders, DatedIn(CreatedOn, w), CreatedIn(w));
    HowManySame(orders, DatedIn(CompletedOn, w), CompletedIn(w));
    HowManySame(orders, DatedIn(CanceledOn, w), CanceledIn(w));
  }

  // ---- Slices ----

  datatype Dimension = ByStatus | ByKind | ByFiat | ByMethod | ByInstance

  function StatusName(s: OrderStatus): string {
    match s
    case Pending => "pending"
    case InProgress => "in-progress"
    case Success => "success"
    case Canceled => "canceled"
  }

  function DirectionName(d: Direction): string {
    match d case Buy => "buy" case Sell => "sell"
  }

  function StatusKey(v: View): seq<string> { [StatusName(v.status)] }

  function KindKey(v: View): seq<string> { [DirectionName(v.direction)] }

  function FiatKey(v: View): seq<string> { [v.fiatCode] }

  function MethodKeys(v: View): seq<string> { v.paymentMethods }

  function InstanceKey(naming: PubKey -> string): Keys<View> { (v: View) => [naming(v.pubkey)] }

  /** The keys an order is filed under. */
  function KeysOf(dimension: Dimension, naming: PubKey -> string): Keys<View> {
    match dimension
    case ByStatus => StatusKey
    case ByKind => KindKey
    case ByFiat => FiatKey
    case ByMethod => MethodKeys
    case ByInstance => InstanceKey(naming)
  }

  /** The groups of a slice by one key add up to the whole, in each dated count. */
  lemma SlicesAddUp(orders: seq<View>, dimension: Dimension, naming: PubKey -> string, date: Dating<View>, w: Window)
    requires dimension != ByMethod
    ensures var keys := KeysOf(dimension, naming);
            SumOver(AllKeys(orders, keys), GroupTotal(orders, keys, date, Each, w)) == Total(orders, date, Each, w)
  {
    var keys := KeysOf(dimension, naming);
    GroupsAddUp(orders, keys, date, Each, w);
    forall i | 0 <= i < |orders| ensures |keys(orders[i])| == 1 { }
    SingleKeyWeighs(orders, keys, date, Each, w);
  }

  /** The keys of a slice tell statuses, and kinds, apart. */
  lemma NamesTellApart(a: OrderStatus, b: OrderStatus, c: Direction, d: Direction)
    ensures StatusName(a) == StatusName(b) ==> a == b
    ensures DirectionName(c) == DirectionName(d) ==> c == d
  {
  }

  /** Whether an order is filed where a slice by one key has to file it. */
  predicate IsFiledUnder(dimension: Dimension, naming: PubKey -> string, v: View, w: View) {
    match dimension
    case ByStatus => v.status == w.status
    case ByKind => v.direction == w.direction
    case ByFiat => v.fiatCode == w.fiatCode
    case ByMethod => v.paymentMethods == w.paymentMethods
    case ByInstance => naming(v.pubkey) == naming(w.pubkey)
  }

  /** Two orders share their keys exactly when they agree in what the slice is by. */
  lemma KeysMeaning(dimension: Dimension, naming: PubKey -> string, v: View, w: View)
    ensures KeysOf(dimension, naming)(v) == KeysOf(dimension, naming)(w) <==> IsFiledUnder(dimension, naming, v, w)
    ensures dimension != ByMethod ==> |KeysOf(dimension, naming)(v)| == 1
    ensures dimension == ByMethod ==> KeysOf(dimension, naming)(v) == v.paymentMethods
  {
    var status: Keys<View>, kind: Keys<View>, fiat: Keys<View>, methods: Keys<View> :=
      StatusKey, KindKey, FiatKey, MethodKeys;
    NamesTellApart(v.status, w.status, v.direction, w.direction);
    assert status(v) == [StatusName(v.status)] && status(w) == [StatusName(w.status)];
    assert kind(v) == [DirectionName(v.direction)] && kind(w) == [DirectionName(w.direction)];
    assert fiat(v) == [v.fiatCode] && fiat(w) == [w.fiatCode];
    assert methods(v) == v.paymentMethods && methods(w) == w.paymentMethods;
    SameKey(StatusName(v.status), StatusName(w.status));
    SameKey(DirectionName(v.direction), DirectionName(w.direction));
    SameKey(v.fiatCode, w.fiatCode);
    SameKey(naming(v.pubkey), naming(w.pubkey));
  }

  lemma SameKey(a: string, b: string)
    ensures [a] == [b] <==> a == b
  {
    assert [a][0] == a && [b][0] == b;
  }

  function Methods(v: View): int { |v.paymentMethods| }

  /** A slice by method counts an order once for each method it offers. */
  lemma MethodSlicesOvercount(orders: seq<View>, date: Dating<View>, w: Window)
    ensures SumOver(AllKeys(orders, MethodKeys), GroupTotal(orders, MethodKeys, date, Each, w))
         == Total(orders, date, Methods, w)
  {
    GroupsAddUp(orders, MethodKeys, date, Each, w);
    forall v: View ensures Weighed(MethodKeys, Each)(v) == Methods(v) { EachMethod(v); }
    SameWeight(orders, date, Weighed(MethodKeys, Each), Methods, w);
  }

  lemma EachMethod(v: View)
    ensures Weighed(MethodKeys, Each)(v) == Methods(v)
  {
    var keys: Keys<View>, weight: Weight<View> := MethodKeys, Each;
    assert weight(v) == 1 && keys(v) == v.paymentMethods;
  }

  lemma {:induction false} SameWeight(orders: seq<View>, date: Dating<View>, a: Weight<View>, b: Weight<View>,
                                      w: Window)
    requires forall v :: a(v) == b(v)
    ensures Total(orders, date, a, w) == Total(orders, date, b, w)
  {
    if orders != [] { SameWeight(orders[..|orders| - 1], date, a, b, w); }
  }

  // ---- Histograms ----

  /** The hour of the day, or the day of the week, of a date inside the window that the
      calendar can represent. */
  function SlotOf(date: Dating<View>, w: Window, byHour: bool): Slot<View> {
    (v: View) =>
      var at := date(v);
      if at.Some? && w.Contains(at.value) && Representable(at.value) then
        Some(if byHour then at.value % DAY / 3600 else Weekday(at.value / DAY))
      else None
  }

  /** Created and completed orders per hour or per weekday. */
  method Histogram(orders: seq<View>, w: Window, byHour: bool) returns (created: array<nat>, completed: array<nat>)
    ensures created.Length == completed.Length == (if byHour then 24 else 7)
    ensures forall b | 0 <= b < created.Length :: created[b] == InSlot(orders, SlotOf(CreatedOn, w, byHour), b)
    ensures forall b | 0 <= b < created.Length :: completed[b] == InSlot(orders, SlotOf(CompletedOn, w, byHour), b)
  {
    var n := if byHour then 24 else 7;
    SlotsInRange(orders, CreatedOn, w, byHour);
    SlotsInRange(orders, CompletedOn, w, byHour);
    created := FillSlots(orders, SlotOf(CreatedOn, w, byHour), n);
    completed := FillSlots(orders, SlotOf(CompletedOn, w, byHour), n);
  }

  lemma SlotsInRange(orders: seq<View>, date: Dating<View>, w: Window, byHour: bool)
    ensures var slot := SlotOf(date, w, byHour);
            forall i | 0 <= i < |orders| && slot(orders[i]).Some? :: slot(orders[i]).value < (if byHour then 24 else 7)
  {
  }

  /** The hours, or the weekdays, of a representable window add up to it. */
  lemma HistogramAddsUp(orders: seq<View>, date: Dating<View>, w: Window, byHour: bool)
    requires Representable(w.from) && Representable(w.until)
    ensures SumOfSlots(orders, SlotOf(date, w, byHour), if byHour then 24 else 7) == Total(orders, date, Each, w)
  {
    SlotsInRange(orders, date, w, byHour);
    SlotsAddUp(orders, SlotOf(date, w, byHour), if byHour then 24 else 7);
    SlottedIsTotal(orders, SlotOf(date, w, byHour), date, Each, w);
  }

  /** Whether an instant is in the hour `b` of its day, or on the weekday `b`, Monday
      first. */
  predicate IsInSlot(at: int, byHour: bool, b: nat) {
    if byHour then b * 3600 <= at % 86_400 < (b + 1) * 3600 else b == (at / 86_400 + 3) % 7
  }

  function CreatedInSlot(w: Window, byHour: bool, b: nat): View -> bool {
    (v: View) => CreatedIn(w)(v) && Representable(v.createdAt) && IsInSlot(v.createdAt, byHour, b)
  }

  function CompletedInSlot(w: Window, byHour: bool, b: nat): View -> bool {
    (v: View) =>
      CompletedIn(w)(v) && Representable(v.successAt.value) && IsInSlot(v.successAt.value, byHour, b)
  }

  lemma SlotOfInstant(at: int, byHour: bool, b: nat)
    ensures (if byHour then at % DAY / 3600 else Weekday(at / DAY)) == b <==> IsInSlot(at, byHour, b)
  {
  }

  lemma SlotFalls(v: View, date: Dating<View>, w: Window, byHour: bool, b: nat)
    ensures Falls(SlotOf(date, w, byHour), b)(v) <==>
              date(v).Some? && w.Contains(date(v).value) && Representable(date(v).value)
              && IsInSlot(date(v).value, byHour, b)
  {
    if date(v).Some? { SlotOfInstant(date(v).value, byHour, b); }
  }

  lemma SlotsMeaning(v: View, w: Window, byHour: bool, b: nat)
    ensures Falls(SlotOf(CreatedOn, w, byHour), b)(v) == CreatedInSlot(w, byHour, b)(v)
    ensures Falls(SlotOf(CompletedOn, w, byHour), b)(v) == CompletedInSlot(w, byHour, b)(v)
  {
    var created: Dating<View>, completed: Dating<View> := CreatedOn, CompletedOn;
    assert created(v) == Some(v.createdAt);
    assert completed(v) == if v.status == Success && v.successAt.Some? then Some(v.successAt.value) else None;
    SlotFalls(v, created, w, byHour, b);
    SlotFalls(v, completed, w, byHour, b);
    assert CreatedIn(w)(v) <==> w.Contains(v.createdAt);
    assert CompletedIn(w)(v) <==> completed(v).Some? && w.Contains(completed(v).value);
    assert CreatedInSlot(w, byHour, b)(v) <==>
             CreatedIn(w)(v) && Representable(v.createdAt) && IsInSlot(v.createdAt, byHour, b);
    assert CompletedInSlot(w, byHour, b)(v) <==>
             CompletedIn(w)(v) && Representable(v.successAt.value) && IsInSlot(v.successAt.value, byHour, b);
  }

  /** A slot of a histogram counts the orders created, or completed, then. */
  lemma HistogramMeaning(orders: seq<View>, w: Window, byHour: bool, b: nat)
    ensures InSlot(orders, SlotOf(CreatedOn, w, byHour), b) == HowMany(orders, CreatedInSlot(w, byHour, b))
    ensures InSlot(orders, SlotOf(CompletedOn, w, byHour), b) == HowMany(orders, CompletedInSlot(w, byHour, b))
  {
    SlotMeaning(orders, SlotOf(CreatedOn, w, byHour), b);
    SlotMeaning(orders, SlotOf(CompletedOn, w, byHour), b);
    forall v: View
      ensures Falls(SlotOf(CreatedOn, w, byHour), b)(v) == CreatedInSlot(w, byHour, b)(v)
      ensures Falls(SlotOf(CompletedOn, w, byHour), b)(v) == CompletedInSlot(w, byHour, b)(v)
    {
      SlotsMeaning(v, w, byHour, b);
    }
    HowManySame(orders, Falls(SlotOf(CreatedOn, w, byHour), b), CreatedInSlot(w, byHour, b));
    HowManySame(orders, Falls(SlotOf(CompletedOn, w, byHour), b), CompletedInSlot(w, byHour, b));
  }
}
