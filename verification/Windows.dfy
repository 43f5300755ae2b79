/** Cutting a half-open window into calendar buckets. */
module Windows {
  import opened Prelude
  import opened Ranking
  import opened Calendar
  import opened Tiling

  datatype Period = Day | Week | Month | Year

  // ---- The calendar steps of the walk ----

  /** The instant the bucket holding `from` opens. */
  function Opening(p: Period, from: int): Option<int> {
    if !Representable(from) then None
    else
      var day := from / DAY;
      match p
      case Day => Some(day * DAY)
      case Week =>
        var monday := day - Weekday(day);
        if monday < FIRST_DAY then None else Some(monday * DAY)
      case Month =>
        var d := DateOf(day);
        Some(MonthStart(d.year, d.month) * DAY)
      case Year => Some(YearStart(YearOf(day)) * DAY)
  }

  /** The first of the month after a date. */
  function NextFirst(d: Date): Option<int>
    requires IsDate(d)
  {
    var year := if d.month == 12 then d.year + 1 else d.year;
    var month := if d.month == 12 then 1 else d.month + 1;
    if year > MAX_YEAR then None else Some(MonthStart(year, month) * DAY)
  }

  /** The opening after the one at `at`, or none past the last year a date can
      represent. */
  function Following(p: Period, at: int): Option<int> {
    match p
    case Day => AddDays(at, 1)
    case Week => AddDays(at, 7)
    case Month => NextFirst(DateOf(at / DAY))
    case Year =>
      var year := YearOf(at / DAY) + 1;
      if year > MAX_YEAR then None else Some(YearStart(year) * DAY)
  }

  /** The step `buckets_upto` walks by. */
  function Step(p: Period): int -> Option<int> { at => Following(p, at) }

  // ---- The periods, numbered ----

  function DayOpens(i: int): int { i * DAY }

  function WeekOpens(i: int): int { (7 * i - 3) * DAY }

  function MonthOpensAt(i: int): int { MonthOpens(i) * DAY }

  function YearOpens(i: int): int { YearStart(i) * DAY }

  /** The instant each period opens: midnights, Mondays, firsts of the month, new years. */
  function Openings(p: Period): Tiling.Openings {
    match p
    case Day => DayOpens
    case Week => WeekOpens
    case Month => MonthOpensAt
    case Year => YearOpens
  }

  /** The number of the period an instant falls in, computed from its date. */
  function NumberOf(p: Period, at: int): int {
    match p
    case Day => at / DAY
    case Week => (at / DAY + 3) / 7
    case Month => MonthNumber(DateOf(at / DAY))
    case Year => YearOf(at / DAY)
  }

  lemma OpeningsIncrease(p: Period)
    ensures Increasing(Openings(p))
  {
    var o := Openings(p);
    forall i ensures Precedes(o, i) {
      match p
      case Month => MonthsFollow(i);
      case Year => YearsFollow(i);
      case _ =>
    }
  }

  lemma WithinDays(at: int, a: int, b: int)
    requires a <= at / DAY < b
    ensures a * DAY <= at < b * DAY
  {
  }

  /** Every instant falls in the period of its number. */
  lemma NumberHolds(p: Period, at: int)
    ensures In(Openings(p), NumberOf(p, at), at)
  {
    match p {
      case Day => WithinDays(at, at / DAY, at / DAY + 1);
      case Week => WeekHolds(at, at / DAY);
      case Month => MonthHolds(at, DateOf(at / DAY));
      case Year => YearHolds(at, YearOf(at / DAY));
    }
  }

  lemma WeekHolds(at: int, day: int)
    requires day == at / DAY
    ensures In(WeekOpens, (day + 3) / 7, at)
  {
    var i := (day + 3) / 7;
    WithinDays(at, 7 * i - 3, 7 * (i + 1) - 3);
  }

  lemma YearHolds(at: int, y: int)
    requires YearStart(y) <= at / DAY < YearStart(y + 1)
    ensures In(YearOpens, y, at)
  {
    WithinDays(at, YearStart(y), YearStart(y + 1));
  }

  lemma MonthHolds(at: int, d: Date)
    requires IsDate(d) && DayOf(d) == at / DAY
    ensures In(MonthOpensAt, MonthNumber(d), at)
  {
    var n := MonthNumber(d);
    assert InMonth(n, at / DAY) by { DateInMonth(d); }
    WithinDays(at, MonthOpens(n), MonthOpens(n + 1));
  }

  /** The number of the period an instant falls in. */
  ghost function Index(p: Period, at: int): (i: int)
    ensures In(Openings(p), i, at)
  {
    NumberHolds(p, at);
    var i :| In(Openings(p), i, at);
    i
  }

  lemma IndexIsUnique(p: Period, at: int, i: int)
    requires In(Openings(p), i, at)
    ensures Index(p, at) == i
  {
    OpeningsIncrease(p);
    OnePeriod(Openings(p), Index(p, at), i, at);
  }

  lemma NumberIsIndex(p: Period, at: int)
    ensures NumberOf(p, at) == Index(p, at)
  {
    NumberHolds(p, at);
    IndexIsUnique(p, at, NumberOf(p, at));
  }

  // ---- The ends of the calendar ----

  /** A month is representable exactly when its year is. */
  lemma RepresentableMonth(n: int)
    ensures IsRepresentable(MonthOpens(n)) <==> MIN_YEAR <= n / 12 <= MAX_YEAR
  {
    var y := n / 12;
    MonthInYear(y, n % 12 + 1);
    if y < MIN_YEAR {
      YearsAreOrdered(y + 1, MIN_YEAR);
    } else if y > MAX_YEAR {
      YearsAreOrdered(MAX_YEAR + 1, y);
    } else {
      YearsAreOrdered(MIN_YEAR, y);
      YearsAreOrdered(y + 1, MAX_YEAR + 1);
    }
  }

  lemma RepresentableYear(y: int)
    ensures IsRepresentable(YearStart(y)) <==> MIN_YEAR <= y <= MAX_YEAR
  {
    RepresentableMonth(12 * y);
  }

  lemma RepresentableDay(day: int, y: int)
    requires YearStart(y) <= day < YearStart(y + 1)
    ensures IsRepresentable(day) <==> MIN_YEAR <= y <= MAX_YEAR
  {
    if y < MIN_YEAR {
      YearsAreOrdered(y + 1, MIN_YEAR);
    } else if y > MAX_YEAR {
      YearsAreOrdered(MAX_YEAR + 1, y);
    } else {
      YearsAreOrdered(MIN_YEAR, y);
      YearsAreOrdered(y + 1, MAX_YEAR + 1);
    }
  }

  lemma DateIsRepresentable(day: int)
    ensures IsRepresentable(day) <==> MIN_YEAR <= DateOf(day).year <= MAX_YEAR
  {
    var d := DateOf(day);
    MonthInYear(d.year, d.month);
    RepresentableDay(day, d.year);
  }

  lemma Midnight(day: int)
    ensures Representable(day * DAY) <==> IsRepresentable(day)
    ensures day * DAY / DAY == day
  {
  }

  lemma SameDay(at: int)
    ensures Representable(at) <==> IsRepresentable(at / DAY)
  {
  }

  /** Where a walk starts: the opening of the period `from` is in, when a date can
      represent it, which only the first week of the calendar has not. */
  lemma OpeningIsIndexed(p: Period, from: int)
    requires Representable(from)
    ensures var at := Openings(p)(Index(p, from));
            Opening(p, from) == if Representable(at) then Some(at) else None
    ensures p != Week ==> Opening(p, from).Some?
  {
    var day := from / DAY;
    SameDay(from);
    NumberIsIndex(p, from);
    match p {
      case Day => Midnight(day);
      case Week => Midnight(day - Weekday(day));
      case Month =>
        DateInMonth(DateOf(day));
        DateIsRepresentable(day);
        NumberSplits(DateOf(day));
        RepresentableMonth(MonthNumber(DateOf(day)));
        Midnight(MonthOpens(MonthNumber(DateOf(day))));
      case Year =>
        RepresentableDay(day, YearOf(day));
        RepresentableYear(YearOf(day));
        Midnight(YearStart(YearOf(day)));
    }
  }

  lemma FirstOfMonth(n: int)
    ensures DateOf(MonthOpens(n)) == Date(n / 12, n % 12 + 1, 1)
  {
    DatesAreUnique(DateOf(MonthOpens(n)), Date(n / 12, n % 12 + 1, 1));
  }

  lemma NextNumber(n: int)
    ensures (n + 1) / 12 == if n % 12 == 11 then n / 12 + 1 else n / 12
    ensures (n + 1) % 12 == if n % 12 == 11 then 0 else n % 12 + 1
  {
  }

  lemma AtMidnight(day: int)
    ensures day * DAY / DAY == day && day * DAY % DAY == 0
  {
  }

  lemma FirstInstant(n: int)
    ensures DateOf(MonthOpensAt(n) / DAY) == Date(n / 12, n % 12 + 1, 1) && MonthOpensAt(n) % DAY == 0
  {
    AtMidnight(MonthOpens(n));
    FirstOfMonth(n);
  }

  lemma FirstAfterFirst(n: int)
    ensures NextFirst(Date(n / 12, n % 12 + 1, 1))
         == if (n + 1) / 12 > MAX_YEAR then None else Some(MonthOpensAt(n + 1))
  {
    NextNumber(n);
  }

  lemma FollowingMonth(at: int, d: Date)
    requires DateOf(at / DAY) == d
    ensures Following(Month, at) == NextFirst(d)
  {
  }

  lemma FollowingFirst(n: int)
    ensures Following(Month, MonthOpensAt(n)) == NextFirst(Date(n / 12, n % 12 + 1, 1))
  {
    FirstInstant(n);
    FollowingMonth(MonthOpensAt(n), Date(n / 12, n % 12 + 1, 1));
  }

  lemma NextFirstIsNext(n: int)
    requires IsRepresentable(MonthOpens(n))
    ensures NextFirst(Date(n / 12, n % 12 + 1, 1))
         == if IsRepresentable(MonthOpens(n + 1)) then Some(MonthOpensAt(n + 1)) else None
  {
    FirstAfterFirst(n);
    RepresentableMonth(n);
    RepresentableMonth(n + 1);
    NextNumber(n);
  }

  lemma NextMonth(n: int)
    requires IsRepresentable(MonthOpens(n))
    ensures Following(Month, MonthOpensAt(n))
         == if IsRepresentable(MonthOpens(n + 1)) then Some(MonthOpensAt(n + 1)) else None
  {
    FollowingFirst(n);
    NextFirstIsNext(n);
  }

  lemma YearOfStart(y: int)
    ensures YearOf(YearStart(y)) == y
  {
    YearsFollow(y);
    var z := YearOf(YearStart(y));
    if z < y { YearsAreOrdered(z + 1, y); }
    if y < z { YearsAreOrdered(y + 1, z); }
  }

  lemma NextYear(y: int)
    requires IsRepresentable(YearStart(y))
    ensures Following(Year, YearOpens(y)) == if IsRepresentable(YearStart(y + 1)) then Some(YearOpens(y + 1)) else None
  {
    Midnight(YearStart(y));
    YearOfStart(y);
    RepresentableYear(y);
    RepresentableYear(y + 1);
  }

  const FIRST := FIRST_DAY * DAY
  const END := END_DAY * DAY

  /** Each step of the walk goes to the next period, while there is one a date can
      represent. */
  lemma StepIsNext(p: Period, i: int)
    requires Representable(Openings(p)(i))
    ensures StepsTo(Openings(p), END, Step(p), i)
  {
    OpeningsIncrease(p);
    assert Precedes(Openings(p), i);
    match p {
      case Month =>
        Midnight(MonthOpens(i));
        Midnight(MonthOpens(i + 1));
        NextMonth(i);
      case Year =>
        Midnight(YearStart(i));
        Midnight(YearStart(i + 1));
        NextYear(i);
      case _ =>
    }
  }

  // ---- The buckets of a window ----

  /** Every bucket of the window, oldest first. */
  ghost function Buckets(p: Period, w: Window): seq<Bucket> {
    OpeningsIncrease(p);
    if Opening(p, w.from).None? then [] else BucketsFrom(Openings(p), END, w, Index(p, w.from))
  }

  lemma EveryStep(p: Period, i: int)
    requires Representable(Openings(p)(i))
    ensures Increasing(Openings(p))
    ensures forall k | i <= k && Openings(p)(k) < END :: StepsTo(Openings(p), END, Step(p), k)
  {
    var o := Openings(p);
    OpeningsIncrease(p);
    forall k | i <= k && o(k) < END ensures StepsTo(o, END, Step(p), k) {
      if i < k { InOrder(o, i, k); }
      StepIsNext(p, k);
    }
  }

  /** `buckets_upto`: none once there are more than `limit` of them, and only then. */
  method BucketsUpto(p: Period, w: Window, limit: nat) returns (buckets: Option<seq<Bucket>>)
    ensures buckets == if |Buckets(p, w)| > limit then None else Some(Buckets(p, w))
  {
    var opening := Opening(p, w.from);
    if opening.None? { return Some([]); }
    ghost var i := Index(p, w.from);
    OpeningIsIndexed(p, w.from);
    EveryStep(p, i);
    buckets := Walk(Openings(p), END, w, i, opening.value, limit, Step(p));
  }

  /** The last period a date can represent. The walk does not get past its opening,
      because it asks for the opening after. */
  ghost function LastIndex(p: Period): int { Index(p, END - 1) }

  lemma LastIsLast(p: Period)
    ensures Increasing(Openings(p)) && IsLast(Openings(p), END, LastIndex(p))
  {
    OpeningsIncrease(p);
  }

  ghost function LastOpening(p: Period): int { Openings(p)(LastIndex(p)) }

  /** Main result: the buckets of a window whose walk can start are non-empty and
      adjacent, open at the window's start and at every calendar opening after it, and
      run to the end of the window or to the last opening of the calendar. */
  lemma BucketsTileTheWindow(p: Period, w: Window)
    requires w.from < w.until && Opening(p, w.from).Some?
    ensures w.from < LastOpening(p) ==>
              Tile(Openings(p), Buckets(p, w), Index(p, w.from), w.from, Min(w.until, LastOpening(p)))
    ensures w.from >= LastOpening(p) ==> Buckets(p, w) == []
  {
    LastIsLast(p);
    WindowTiles(Openings(p), END, LastIndex(p), w, Index(p, w.from));
  }

  /** The buckets cover the window exactly when the walk can start and the window ends
      by the last opening of the calendar. */
  lemma BucketsCoverTheWindow(p: Period, w: Window)
    requires w.from < w.until
    ensures (forall at :: w.Contains(at) <==> Covered(Buckets(p, w), at))
       <==> Opening(p, w.from).Some? && w.until <= LastOpening(p)
  {
    if Opening(p, w.from).None? {
      assert w.Contains(w.from) && !Covered([], w.from);
    } else {
      LastIsLast(p);
      CoverIsExact(Openings(p), END, LastIndex(p), w, Index(p, w.from));
    }
  }

  /** Whether the buckets of a window cover it. */
  ghost predicate Bucketed(p: Period, w: Window) {
    w.from < w.until && Opening(p, w.from).Some? && w.until <= LastOpening(p)
  }

  lemma BucketedIsTiled(p: Period, w: Window)
    requires Bucketed(p, w)
    ensures Increasing(Openings(p)) && Openings(p)(Index(p, w.from)) <= w.from
    ensures Tile(Openings(p), Buckets(p, w), Index(p, w.from), w.from, w.until)
  {
    OpeningsIncrease(p);
    BucketsTileTheWindow(p, w);
  }

  // ---- The period before ----

  /** One `period` earlier on the calendar. */
  function Back(p: Period, at: int): Option<int> {
    if !Representable(at) then None
    else match p
      case Day => AddDays(at, -1)
      case Week => AddDays(at, -7)
      case Month => SubMonths(at, 1)
      case Year => SubMonths(at, 12)
  }

  function BackBy(p: Period): int -> Option<int> { at => Back(p, at) }

  /** The same span one `period` earlier: both bounds shifted on the calendar. */
  function Preceding(p: Period, w: Window): Option<Window> {
    Shifted(BackBy(p), w)
  }

  lemma FirstsBack(n: int, months: nat)
    ensures MonthsEarlier(Date(n / 12, n % 12 + 1, 1), months) == Date((n - months) / 12, (n - months) % 12 + 1, 1)
  {
  }

  lemma FirstEarlier(n: int, months: nat)
    ensures Earlier(Date(n / 12, n % 12 + 1, 1), 0, months)
         == if (n - months) / 12 < MIN_YEAR then None else Some(MonthOpensAt(n - months))
  {
    FirstsBack(n, months);
  }

  lemma MonthsBack(n: int, months: nat)
    ensures SubMonths(MonthOpensAt(n), months)
         == if (n - months) / 12 < MIN_YEAR then None else Some(MonthOpensAt(n - months))
  {
    FirstInstant(n);
    SubMonthsFrom(MonthOpensAt(n), Date(n / 12, n % 12 + 1, 1), 0, months);
    FirstEarlier(n, months);
  }

  lemma MonthBack(n: int)
    requires IsRepresentable(MonthOpens(n))
    ensures SubMonths(MonthOpensAt(n), 1)
         == if IsRepresentable(MonthOpens(n - 1)) then Some(MonthOpensAt(n - 1)) else None
  {
    MonthsBack(n, 1);
    RepresentableMonth(n);
    RepresentableMonth(n - 1);
    NextNumber(n - 1);
  }

  lemma YearBack(y: int)
    requires IsRepresentable(YearStart(y))
    ensures SubMonths(YearOpens(y), 12) == if IsRepresentable(YearStart(y - 1)) then Some(YearOpens(y - 1)) else None
  {
    MonthsBack(12 * y, 12);
    YearBefore(y);
    TwelveMonths(y);
    TwelveMonths(y - 1);
  }

  lemma YearBefore(y: int)
    requires IsRepresentable(YearStart(y))
    ensures IsRepresentable(YearStart(y - 1)) <==> y - 1 >= MIN_YEAR
  {
    RepresentableYear(y);
    RepresentableYear(y - 1);
  }

  lemma TwelveMonths(y: int)
    ensures 12 * y / 12 == y && MonthOpensAt(12 * y) == YearOpens(y)
  {
  }

  lemma MonthIsBack(i: int)
    requires Representable(MonthOpensAt(i))
    ensures Back(Month, MonthOpensAt(i))
         == if Representable(MonthOpensAt(i - 1)) then Some(MonthOpensAt(i - 1)) else None
  {
    Midnight(MonthOpens(i));
    Midnight(MonthOpens(i - 1));
    MonthBack(i);
  }

  lemma YearIsBack(i: int)
    requires Representable(YearOpens(i))
    ensures Back(Year, YearOpens(i)) == if Representable(YearOpens(i - 1)) then Some(YearOpens(i - 1)) else None
  {
    Midnight(YearStart(i));
    Midnight(YearStart(i - 1));
    YearBack(i);
  }

  /** Going back from an opening is going to the opening before. */
  lemma BackIsPrevious(p: Period, i: int)
    requires Representable(Openings(p)(i))
    ensures var before := Openings(p)(i - 1);
            Back(p, Openings(p)(i)) == if Representable(before) then Some(before) else None
  {
    match p {
      case Month => MonthIsBack(i);
      case Year => YearIsBack(i);
      case _ =>
    }
  }

  lemma BackByIs(p: Period, at: int)
    ensures BackBy(p)(at) == Back(p, at)
  {
  }

  lemma GoesBackOnTheCalendar(p: Period, j: int)
    requires Openings(p)(j) < END
    ensures GoesBack(Openings(p), BackBy(p), FIRST, j)
  {
    OpeningsIncrease(p);
    assert Precedes(Openings(p), j - 1);
    BackByIs(p, Openings(p)(j));
    if FIRST <= Openings(p)(j - 1) { BackIsPrevious(p, j); }
  }

  lemma EveryCalendarGoesBack(p: Period)
    ensures IsCalendar(Openings(p), BackBy(p), FIRST, END)
  {
    OpeningsIncrease(p);
    var o := Openings(p);
    forall j | o(j) < END ensures GoesBack(o, BackBy(p), FIRST, j) {
      GoesBackOnTheCalendar(p, j);
    }
  }

  /** The instant the buckets of a window reach. */
  ghost function Reach(p: Period, w: Window): int { Min(w.until, LastOpening(p)) }

  lemma BucketsAreOnTheCalendar(p: Period, w: Window)
    requires w.from < w.until && Buckets(p, w) != []
    ensures OnCalendar(Openings(p), FIRST, END, Buckets(p, w), Index(p, w.from), w.from, Reach(p, w))
  {
    LastIsLast(p);
    OpeningIsIndexed(p, w.from);
    BucketsTileTheWindow(p, w);
  }

  lemma BucketsComeBefore(p: Period, w: Window, k: nat)
    requires w.from < w.until && WholePair(Openings(p), Buckets(p, w), Index(p, w.from), k)
    ensures ComesBefore(BackBy(p), Buckets(p, w), k)
  {
    BucketsAreOnTheCalendar(p, w);
    EveryCalendarGoesBack(p);
    ShiftedIsTheBucketBefore(Openings(p), BackBy(p), FIRST, END, Buckets(p, w), Index(p, w.from), w.from, Reach(p, w),
                             k);
  }

  lemma ComesBeforeIsPreceding(p: Period, bs: seq<Bucket>, k: nat)
    requires ComesBefore(BackBy(p), bs, k)
    ensures 0 < k < |bs| && Preceding(p, bs[k].window) == Some(bs[k - 1].window)
  {
  }

  /** Main result: of two whole buckets of a window next to each other, the first is the
      window before the second, months and years of unequal length included. */
  lemma PrecedingIsTheBucketBefore(p: Period, w: Window, k: nat)
    requires w.from < w.until && WholePair(Openings(p), Buckets(p, w), Index(p, w.from), k)
    ensures Preceding(p, Buckets(p, w)[k].window) == Some(Buckets(p, w)[k - 1].window)
  {
    BucketsComeBefore(p, w, k);
    ComesBeforeIsPreceding(p, Buckets(p, w), k);
  }

  /** Only the first and the last bucket of a window can be clipped, so that is so of every
      pair further in. */
  lemma PrecedingIsTheInnerBucketBefore(p: Period, w: Window, k: nat)
    requires w.from < w.until && 1 < k < |Buckets(p, w)| - 1
    ensures Preceding(p, Buckets(p, w)[k].window) == Some(Buckets(p, w)[k - 1].window)
  {
    BucketsAreOnTheCalendar(p, w);
    InnerPairIsWhole(Openings(p), FIRST, END, Buckets(p, w), Index(p, w.from), w.from, Reach(p, w), k);
    PrecedingIsTheBucketBefore(p, w, k);
  }

  /** Main result: the window before is a window again, unless it is a month or a year
      earlier and both its bounds fold onto one day there. A day or a week earlier it is
      always one, of the same length. */
  lemma PrecedingKeepsOrder(p: Period, w: Window)
    requires w.from < w.until && Preceding(p, w).Some?
    ensures var before := Preceding(p, w).value;
            before.from < before.until <==> match p
              case Month => !Folds(w.from, w.until, 1)
              case Year => !Folds(w.from, w.until, 12)
              case _ => true
    ensures (p.Day? || p.Week?) ==>
              Preceding(p, w).value.until - Preceding(p, w).value.from == w.until - w.from
  {
    match p {
      case Month => SubMonthsKeepsOrder(w.from, w.until, 1);
      case Year => SubMonthsKeepsOrder(w.from, w.until, 12);
      case _ =>
    }
  }

  /** The instant `time` seconds into a date. */
  function At(d: Date, time: int): int
    requires IsDate(d)
  {
    DayOf(d) * DAY + time
  }

  lemma InstantOf(d: Date, time: nat)
    requires IsDate(d) && time < DAY
    ensures DateOf(At(d, time) / DAY) == d && At(d, time) % DAY == time
    ensures Representable(At(d, time)) <==> IsRepresentable(DayOf(d))
  {
    assert At(d, time) / DAY == DayOf(d);
    DatesAreUnique(DateOf(DayOf(d)), d);
    SameDay(At(d, time));
  }

  /** Two dates of one month, neither before the last day of the month that is gone back
      to: 30 and 31 May into April, as 28 and 29 February into a common year. */
  predicate PastTheEnd(d: Date, e: Date, months: nat) {
    && IsDate(d) && IsDate(e) && d.year == e.year && d.month == e.month && d.day < e.day
    && var short := MonthsEarlier(d, months); DaysIn(short.year, short.month) <= d.day
  }

  lemma PastTheEndMeets(d: Date, e: Date, months: nat)
    requires PastTheEnd(d, e, months)
    ensures MonthsEarlier(d, months) == MonthsEarlier(e, months) && DayOf(d) < DayOf(e)
  {
  }

  lemma PastTheEndFolds(d: Date, s: nat, e: Date, u: nat, months: nat)
    requires PastTheEnd(d, e, months) && u <= s < DAY
    ensures At(d, s) < At(e, u) && Folds(At(d, s), At(e, u), months)
  {
    PastTheEndMeets(d, e, months);
    InstantOf(d, s);
    InstantOf(e, u);
    OnDays(DayOf(d), s, DayOf(e), u);
  }

  lemma BackFrom(p: Period, d: Date, time: nat)
    requires IsDate(d) && time < DAY && MIN_YEAR < d.year <= MAX_YEAR && (p.Month? || p.Year?)
    ensures Back(p, At(d, time)).Some?
  {
    InstantOf(d, time);
    MonthInYear(d.year, d.month);
    RepresentableDay(DayOf(d), d.year);
    SubMonthsFrom(At(d, time), d, time, 1);
    SubMonthsFrom(At(d, time), d, time, 12);
    NotTooEarly(d, 1);
    NotTooEarly(d, 12);
  }

  lemma PrecedingExists(p: Period, w: Window)
    requires Back(p, w.from).Some? && Back(p, w.until).Some?
    ensures Preceding(p, w).Some?
  {
    BackByIs(p, w.from);
    BackByIs(p, w.until);
  }

  lemma NotTooEarly(d: Date, months: nat)
    requires IsDate(d) && MIN_YEAR < d.year && months <= 12
    ensures MonthsEarlier(d, months).year >= MIN_YEAR
  {
  }

  /** A window between two such dates has a month, or a year, before it that ends no later
      than it begins. */
  lemma PrecedingCanTurnAround(p: Period, d: Date, s: nat, e: Date, u: nat)
    requires p.Month? || p.Year?
    requires PastTheEnd(d, e, if p.Month? then 1 else 12) && u <= s < DAY && MIN_YEAR < d.year <= MAX_YEAR
    ensures var w := Window(At(d, s), At(e, u));
            && w.from < w.until && Preceding(p, w).Some?
            && Preceding(p, w).value.until <= Preceding(p, w).value.from
  {
    var months, w := if p.Month? then 1 else 12, Window(At(d, s), At(e, u));
    BackFrom(p, d, s);
    BackFrom(p, e, u);
    PrecedingExists(p, w);
    PastTheEndFolds(d, s, e, u, months);
    PrecedingKeepsOrder(p, w);
  }

  // ---- What the openings and the shifts are ----

  /** Whether an instant is a midnight, a Monday's, that of a first of the month, or of a
      new year. */
  predicate Opens(p: Period, at: int) {
    at % 86_400 == 0 &&
    match p
    case Day => true
    case Week => Weekday(at / 86_400) == 0
    case Month => DateOf(at / 86_400).day == 1
    case Year => DateOf(at / 86_400).day == 1 && DateOf(at / 86_400).month == 1
  }

  /** Every period opens at such an instant. */
  lemma OpeningsOpen(p: Period, i: int)
    ensures Opens(p, Openings(p)(i))
  {
    match p {
      case Day => AtMidnight(i);
      case Week => AtMidnight(7 * i - 3);
      case Month => FirstInstant(i);
      case Year =>
        AtMidnight(YearStart(i));
        DatesAreUnique(DateOf(YearStart(i)), Date(i, 1, 1));
    }
  }

  /** And at every such instant one opens. */
  lemma OpensIsAnOpening(p: Period, at: int)
    requires Opens(p, at)
    ensures Openings(p)(NumberOf(p, at)) == at
  {
    var day := at / 86_400;
    assert at == day * DAY;
    match p {
      case Day =>
      case Week => assert (day + 3) / 7 * 7 == day + 3;
      case Month => FirstIsOpening(DateOf(day));
      case Year =>
        FirstIsOpening(DateOf(day));
        YearOfStart(DateOf(day).year);
    }
  }

  lemma FirstIsOpening(d: Date)
    requires IsDate(d) && d.day == 1
    ensures MonthOpens(MonthNumber(d)) == DayOf(d)
    ensures d.month == 1 ==> YearStart(d.year) == DayOf(d)
  {
    DateInMonth(d);
  }

  /** Whether `b` is `at` one period back: a day or seven days before, or the same time of
      the date a month or a year earlier; both have to be representable. */
  ghost predicate IsBack(p: Period, at: int, b: int) {
    Representable(at) &&
    match p
    case Day => b == at - 86_400 && Representable(b)
    case Week => b == at - 604_800 && Representable(b)
    case Month => IsMonthsBack(DateOf(at / 86_400), at % 86_400, b, 1)
    case Year => IsMonthsBack(DateOf(at / 86_400), at % 86_400, b, 12)
  }

  predicate IsDateBack(d: Date, e: Date, time: int, b: int, months: nat) {
    IsEarlier(d, e, months) && -262_143 <= e.year && b == DayOf(e) * 86_400 + time
  }

  ghost predicate IsMonthsBack(d: Date, time: int, b: int, months: nat) {
    exists e :: IsDateBack(d, e, time, b, months)
  }

  lemma DateBack(d: Date, time: int, months: nat)
    requires IsDate(d)
    ensures Earlier(d, time, months).Some? ==>
              IsDateBack(d, MonthsEarlier(d, months), time, Earlier(d, time, months).value, months)
  {
    EarlierMeaning(d, months);
  }

  lemma OnlyDateBack(d: Date, e: Date, time: int, b: int, months: nat)
    requires IsDate(d) && IsDateBack(d, e, time, b, months)
    ensures Earlier(d, time, months) == Some(b)
  {
    EarlierIsUnique(d, e, months);
  }

  lemma MonthsBackFrom(d: Date, time: int, b: int, months: nat)
    requires IsDate(d)
    ensures Earlier(d, time, months) == Some(b) <==> IsMonthsBack(d, time, b, months)
  {
    if Earlier(d, time, months) == Some(b) {
      DateBack(d, time, months);
    } else if IsMonthsBack(d, time, b, months) {
      var e :| IsDateBack(d, e, time, b, months);
      OnlyDateBack(d, e, time, b, months);
    }
  }

  lemma BackMeaning(p: Period, at: int, b: int)
    ensures Back(p, at) == Some(b) <==> IsBack(p, at, b)
  {
    var d, time := DateOf(at / DAY), at % DAY;
    if p.Month? || p.Year? {
      MonthsBackFrom(d, time, b, if p.Month? then 1 else 12);
      SubMonthsFrom(at, d, time, if p.Month? then 1 else 12);
    }
  }

  /** The window before is both bounds one period back, each by itself. */
  lemma PrecedingMeaning(p: Period, w: Window, before: Window)
    ensures Preceding(p, w) == Some(before) <==> IsBack(p, w.from, before.from) && IsBack(p, w.until, before.until)
  {
    BackMeaning(p, w.from, before.from);
    BackMeaning(p, w.until, before.until);
    BackByIs(p, w.from);
    BackByIs(p, w.until);
  }
}
