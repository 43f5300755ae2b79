/** The proleptic Gregorian calendar (ISO 8601), in days since 1970-01-01, over the
    years a date can represent. */
module Calendar {
  import opened Prelude
  import opened Ranking

  const DAY := 86_400
  const MIN_YEAR := -262_143
  const MAX_YEAR := 262_142

  predicate IsLeap(y: int) {
    y % 4 == 0 && (y % 100 != 0 || y % 400 == 0)
  }

  function DaysInYear(y: int): int { if IsLeap(y) then 366 else 365 }

  function DaysIn(y: int, m: int): int
    requires 1 <= m <= 12
  {
    if m == 2 then if IsLeap(y) then 29 else 28
    else if m == 4 || m == 6 || m == 9 || m == 11 then 30
    else 31
  }

  /** How many of the years before `y`, counted from year 1, are leap years. */
  function Leaps(y: int): int { (y - 1) / 4 - (y - 1) / 100 + (y - 1) / 400 }

  /** The first day of year `y`. */
  function YearStart(y: int): int { 365 * (y - 1970) + Leaps(y) - Leaps(1970) }

  /** A multiple of `n` is met once every `n` years. */
  lemma Every(y: int, n: int)
    requires n > 1
    ensures y / n - (y - 1) / n == if y % n == 0 then 1 else 0
  {
    var q, r := (y - 1) / n, (y - 1) % n;
    if r == n - 1 {
      Quotient(y, n, q + 1, 0);
    } else {
      Quotient(y, n, q, r + 1);
    }
  }

  lemma Quotient(x: int, n: int, q: int, r: int)
    requires n > 1 && 0 <= r < n && x == n * q + r
    ensures x / n == q && x % n == r
  {
    var d := x / n - q;
    assert n * d == r - x % n;
    Grows(n, d);
  }

  lemma Grows(n: int, d: int)
    requires n > 1
    ensures (d >= 1 ==> n * d >= n) && (d <= -1 ==> n * d <= -n)
  {
  }

  lemma Multiples(y: int)
    ensures y % 100 == 0 ==> y % 4 == 0
    ensures y % 400 == 0 ==> y % 100 == 0
  {
    if y % 100 == 0 { Quotient(y, 4, 25 * (y / 100), 0); }
    if y % 400 == 0 { Quotient(y, 100, 4 * (y / 400), 0); }
  }

  lemma LeapsStep(y: int)
    ensures Leaps(y + 1) - Leaps(y) == if IsLeap(y) then 1 else 0
  {
    Every(y, 4);
    Every(y, 100);
    Every(y, 400);
    Multiples(y);
  }

  /** Every year starts where the one before it ends. */
  lemma YearsFollow(y: int)
    ensures YearStart(y + 1) == YearStart(y) + DaysInYear(y)
  {
    LeapsStep(y);
  }

  lemma {:induction false} YearsAreOrdered(y: int, z: int)
    requires y <= z
    ensures YearStart(z) >= YearStart(y) + 365 * (z - y)
    decreases z - y
  {
    if y < z {
      YearsFollow(z - 1);
      YearsAreOrdered(y, z - 1);
    }
  }

  function MonthStart(y: int, m: int): int
    requires 1 <= m <= 12
  {
    if m == 1 then YearStart(y) else MonthStart(y, m - 1) + DaysIn(y, m - 1)
  }

  lemma MonthsFillTheYear(y: int)
    ensures MonthStart(y, 12) + 31 == YearStart(y + 1)
  {
    YearsFollow(y);
    var february := DaysIn(y, 2);
    assert MonthStart(y, 2) == YearStart(y) + 31;
    assert MonthStart(y, 3) == YearStart(y) + 31 + february;
    assert MonthStart(y, 4) == YearStart(y) + 62 + february;
    assert MonthStart(y, 5) == YearStart(y) + 92 + february;
    assert MonthStart(y, 6) == YearStart(y) + 123 + february;
    assert MonthStart(y, 7) == YearStart(y) + 153 + february;
    assert MonthStart(y, 8) == YearStart(y) + 184 + february;
    assert MonthStart(y, 9) == YearStart(y) + 215 + february;
    assert MonthStart(y, 10) == YearStart(y) + 245 + february;
    assert MonthStart(y, 11) == YearStart(y) + 276 + february;
  }

  lemma {:induction false} MonthInYear(y: int, m: int)
    requires 1 <= m <= 12
    ensures YearStart(y) <= MonthStart(y, m) && MonthStart(y, m) + DaysIn(y, m) <= YearStart(y + 1)
    decreases 12 - m
  {
    MonthsFillTheYear(y);
    if m < 12 { MonthInYear(y, m + 1); }
    StartsNoEarlier(y, m);
  }

  lemma {:induction false} StartsNoEarlier(y: int, m: int)
    requires 1 <= m <= 12
    ensures YearStart(y) <= MonthStart(y, m)
  {
    if m > 1 { StartsNoEarlier(y, m - 1); }
  }

  function YearUp(day: int, y: int): (r: int)
    requires YearStart(y) <= day
    ensures YearStart(r) <= day < YearStart(r + 1)
    decreases day - YearStart(y)
  {
    YearsFollow(y);
    if day < YearStart(y + 1) then y else YearUp(day, y + 1)
  }

  function YearDown(day: int, y: int): (r: int)
    requires day < YearStart(y + 1)
    ensures YearStart(r) <= day < YearStart(r + 1)
    decreases YearStart(y) - day
  {
    YearsFollow(y - 1);
    if YearStart(y) <= day then y else YearDown(day, y - 1)
  }

  /** The year a day falls in. */
  function YearOf(day: int): (y: int)
    ensures YearStart(y) <= day < YearStart(y + 1)
  {
    if day >= 0 then YearUp(day, 1970) else YearDown(day, 1969)
  }

  function MonthFrom(y: int, day: int, m: int): (r: int)
    requires 1 <= m <= 12 && MonthStart(y, m) <= day < YearStart(y + 1)
    ensures m <= r <= 12 && MonthStart(y, r) <= day < MonthStart(y, r) + DaysIn(y, r)
    decreases 12 - m
  {
    MonthsFillTheYear(y);
    if day < MonthStart(y, m) + DaysIn(y, m) then m else MonthFrom(y, day, m + 1)
  }

  datatype Date = Date(year: int, month: int, day: int)

  predicate IsDate(d: Date) {
    1 <= d.month <= 12 && 1 <= d.day <= DaysIn(d.year, d.month)
  }

  /** The day a date names. */
  function DayOf(d: Date): int
    requires IsDate(d)
  {
    MonthStart(d.year, d.month) + d.day - 1
  }

  /** The date of a day. */
  function DateOf(day: int): (d: Date)
    ensures IsDate(d) && DayOf(d) == day
  {
    var y := YearOf(day);
    var m := MonthFrom(y, day, 1);
    Date(y, m, day - MonthStart(y, m) + 1)
  }

  /** Months are numbered through the years. */
  function MonthNumber(d: Date): int { 12 * d.year + (d.month - 1) }

  function MonthOpens(n: int): int { MonthStart(n / 12, n % 12 + 1) }

  predicate InMonth(n: int, day: int) {
    MonthOpens(n) <= day < MonthOpens(n + 1)
  }

  lemma MonthsFollow(n: int)
    ensures MonthOpens(n + 1) == MonthOpens(n) + DaysIn(n / 12, n % 12 + 1)
  {
    if n % 12 == 11 {
      assert (n + 1) / 12 == n / 12 + 1 && (n + 1) % 12 == 0;
      MonthsFillTheYear(n / 12);
    } else {
      assert (n + 1) / 12 == n / 12 && (n + 1) % 12 == n % 12 + 1;
    }
  }

  lemma {:induction false} MonthsAreOrdered(n: int, k: int)
    requires n <= k
    ensures MonthOpens(k) >= MonthOpens(n) + 28 * (k - n)
    decreases k - n
  {
    if n < k {
      MonthsFollow(k - 1);
      MonthsAreOrdered(n, k - 1);
    }
  }

  lemma NumberSplits(d: Date)
    requires IsDate(d)
    ensures MonthNumber(d) / 12 == d.year && MonthNumber(d) % 12 == d.month - 1
  {
  }

  lemma DateInMonth(d: Date)
    requires IsDate(d)
    ensures MonthOpens(MonthNumber(d)) == MonthStart(d.year, d.month)
    ensures InMonth(MonthNumber(d), DayOf(d))
  {
    MonthsFollow(MonthNumber(d));
    NumberSplits(d);
  }

  /** Every day is in exactly one month. */
  lemma OneMonth(n: int, k: int, day: int)
    requires InMonth(n, day) && InMonth(k, day)
    ensures n == k
  {
    if n < k {
      MonthsAreOrdered(n + 1, k);
    } else if k < n {
      MonthsAreOrdered(k + 1, n);
    }
  }

  /** Every day has exactly one date. */
  lemma DatesAreUnique(d: Date, other: Date)
    requires IsDate(d) && IsDate(other) && DayOf(d) == DayOf(other)
    ensures d == other
  {
    SameMonth(d, other);
    SameNumber(d, other);
  }

  lemma SameMonth(d: Date, other: Date)
    requires IsDate(d) && IsDate(other) && DayOf(d) == DayOf(other)
    ensures MonthNumber(d) == MonthNumber(other)
  {
    var n, k, day := MonthNumber(d), MonthNumber(other), DayOf(d);
    assert InMonth(n, day) by { DateInMonth(d); }
    assert InMonth(k, day) by { DateInMonth(other); }
    OneMonth(n, k, day);
  }

  lemma SameNumber(d: Date, other: Date)
    requires IsDate(d) && IsDate(other) && MonthNumber(d) == MonthNumber(other)
    ensures d.year == other.year && d.month == other.month
  {
    NumberSplits(d);
    NumberSplits(other);
  }

  // ---- Instants ----

  const FIRST_DAY := YearStart(MIN_YEAR)
  const END_DAY := YearStart(MAX_YEAR + 1)

  /** Whether a timestamp falls on a day a date can represent. */
  predicate Representable(at: int) {
    FIRST_DAY * DAY <= at < END_DAY * DAY
  }

  predicate IsRepresentable(day: int) {
    FIRST_DAY <= day < END_DAY
  }

  /** Days from Monday: 1970-01-01 was a Thursday. */
  function Weekday(day: int): int { (day + 3) % 7 }

  function AddDays(at: int, days: int): Option<int> {
    if Representable(at + days * DAY) then Some(at + days * DAY) else None
  }

  /** The date `months` earlier; a day the earlier month does not have clamps to its
      last one. */
  function MonthsEarlier(d: Date, months: nat): (e: Date)
    requires IsDate(d)
    ensures IsDate(e)
  {
    var n := MonthNumber(d) - months;
    var y, m := n / 12, n % 12 + 1;
    Date(y, m, Min(d.day, DaysIn(y, m)))
  }

  function Earlier(d: Date, time: int, months: nat): Option<int>
    requires IsDate(d)
  {
    var e := MonthsEarlier(d, months);
    if e.year < MIN_YEAR then None else Some(DayOf(e) * DAY + time)
  }

  /** The same time of day `months` earlier. */
  function SubMonths(at: int, months: nat): Option<int> {
    Earlier(DateOf(at / DAY), at % DAY, months)
  }

  lemma SubMonthsFrom(at: int, d: Date, time: int, months: nat)
    requires DateOf(at / DAY) == d && at % DAY == time
    ensures SubMonths(at, months) == Earlier(d, time, months)
  {
  }

  // ---- The calendar, in closed form ----

  /** The days from a first of March to the first of the `m`-th month after it. */
  function MarchDays(m: int): int { (153 * m + 2) / 5 }

  lemma MarchMonths(y: int)
    ensures forall m | 3 <= m <= 12 :: MonthStart(y, m) == MonthStart(y, 3) + MarchDays(m - 3)
    ensures MonthStart(y, 3) == YearStart(y) + 59 + (if IsLeap(y) then 1 else 0)
  {
    assert MonthStart(y, 2) == YearStart(y) + 31;
    assert MonthStart(y, 4) == MonthStart(y, 3) + 31;
    assert MonthStart(y, 5) == MonthStart(y, 3) + 61;
    assert MonthStart(y, 6) == MonthStart(y, 3) + 92;
    assert MonthStart(y, 7) == MonthStart(y, 3) + 122;
    assert MonthStart(y, 8) == MonthStart(y, 3) + 153;
    assert MonthStart(y, 9) == MonthStart(y, 3) + 184;
    assert MonthStart(y, 10) == MonthStart(y, 3) + 214;
    assert MonthStart(y, 11) == MonthStart(y, 3) + 245;
    assert MonthStart(y, 12) == MonthStart(y, 3) + 275;
    forall m | 3 <= m <= 12 ensures MonthStart(y, m) == MonthStart(y, 3) + MarchDays(m - 3) {
      assert m in {3, 4, 5, 6, 7, 8, 9, 10, 11, 12};
    }
  }

  /** The days of the years before `y`, when they begin in March: a leap day ends its
      year. */
  function MarchYears(y: int): int { 365 * y + y / 4 - y / 100 + y / 400 }

  lemma MarchBegins(y: int)
    ensures MonthStart(y, 3) == MarchYears(y) - 719_468
  {
    MarchMonths(y);
    LeapsStep(y);
    assert Leaps(y + 1) == y / 4 - y / 100 + y / 400;
    assert Leaps(1970) == 477;
  }

  /** Main result: the day of a date is what the rule for the proleptic Gregorian calendar
      gives in closed form: years counted from March, in cycles of 146 097 days to four
      hundred years, and 1970-01-01 at zero. */
  lemma DaysInClosedForm(d: Date)
    requires IsDate(d)
    ensures var y := if d.month <= 2 then d.year - 1 else d.year;
            var m := (d.month + 9) % 12;
            DayOf(d) == 365 * y + y / 4 - y / 100 + y / 400 + (153 * m + 2) / 5 + d.day - 1 - 719_468
  {
    if d.month <= 2 {
      var y := d.year - 1;
      MarchBegins(y);
      MarchMonths(y);
      MonthsFillTheYear(y);
      assert MonthStart(y, 12) == MonthStart(y, 3) + MarchDays(9);
      assert d.month == 2 ==> MonthStart(d.year, 2) == YearStart(d.year) + 31;
      assert MarchDays((d.month + 9) % 12) == if d.month == 1 then 306 else 337;
    } else {
      MarchBegins(d.year);
      MarchMonths(d.year);
      assert (d.month + 9) % 12 == d.month - 3;
    }
  }

  /** The bounds of what a date can represent, in days. */
  lemma BoundsInDays()
    ensures FIRST_DAY == -96_465_292 && END_DAY == 95_026_237
  {
    assert Leaps(1970) == 477;
  }

  /** A weekday repeats every seven days, and 2000-01-01 was a Saturday. */
  lemma WeekdayMeaning(day: int)
    ensures 0 <= Weekday(day) < 7 && Weekday(day + 1) == if Weekday(day) == 6 then 0 else Weekday(day) + 1
    ensures Weekday(DayOf(Date(2000, 1, 1))) == 5
  {
    assert Leaps(1970) == 477 && Leaps(2000) == 484;
  }

  /** Whether `e` is `d` that many months earlier: the same day of the month, or where
      there is none the last day before the next month begins. */
  predicate IsEarlier(d: Date, e: Date, months: nat) {
    && IsDate(e) && 12 * e.year + e.month == 12 * d.year + d.month - months
    && (e.day == d.day || (e.day < d.day && DateOf(DayOf(e) + 1).day == 1))
  }

  lemma EarlierMeaning(d: Date, months: nat)
    requires IsDate(d)
    ensures IsEarlier(d, MonthsEarlier(d, months), months)
  {
    var e := MonthsEarlier(d, months);
    if e.day < d.day { LastDayOf(e); }
  }

  /** And nothing else is. */
  lemma EarlierIsUnique(d: Date, e: Date, months: nat)
    requires IsDate(d) && IsEarlier(d, e, months)
    ensures e == MonthsEarlier(d, months)
  {
    SameNumber(e, MonthsEarlier(d, months));
    if e.day < DaysIn(e.year, e.month) {
      var next := Date(e.year, e.month, e.day + 1);
      assert DayOf(next) == DayOf(e) + 1;
      DatesAreUnique(next, DateOf(DayOf(e) + 1));
    }
  }

  /** Going back by months goes to that date, at the same time of day; there is no answer
      exactly before the first year a date can represent. */
  lemma SubMonthsMeaning(at: int, months: nat) returns (e: Date)
    ensures IsEarlier(DateOf(at / DAY), e, months)
    ensures SubMonths(at, months) == if e.year < -262_143 then None else Some(DayOf(e) * 86_400 + at % 86_400)
  {
    e := MonthsEarlier(DateOf(at / DAY), months);
    EarlierMeaning(DateOf(at / DAY), months);
  }

  lemma LastDayOf(e: Date)
    requires IsDate(e) && e.day == DaysIn(e.year, e.month)
    ensures DateOf(DayOf(e) + 1).day == 1
  {
    var next := if e.month == 12 then Date(e.year + 1, 1, 1) else Date(e.year, e.month + 1, 1);
    MonthsFillTheYear(e.year);
    assert DayOf(next) == DayOf(e) + 1;
    DatesAreUnique(next, DateOf(DayOf(e) + 1));
  }

  // ---- Going back keeps the order of dates ----

  /** Dates ascend with their months, and within one with their days. */
  lemma DatesAscend(d: Date, e: Date)
    requires IsDate(d) && IsDate(e) && DayOf(d) <= DayOf(e)
    ensures MonthNumber(d) <= MonthNumber(e)
    ensures MonthNumber(d) == MonthNumber(e) ==> d.day <= e.day
  {
    var n, k := MonthNumber(d), MonthNumber(e);
    assert InMonth(n, DayOf(d)) by { DateInMonth(d); }
    assert InMonth(k, DayOf(e)) by { DateInMonth(e); }
    NotAnEarlierMonth(n, DayOf(d), k, DayOf(e));
    if n == k { SameNumber(d, e); }
  }

  lemma NotAnEarlierMonth(n: int, day: int, k: int, later: int)
    requires InMonth(n, day) && InMonth(k, later) && day <= later
    ensures n <= k
  {
    if k < n { MonthsAreOrdered(k + 1, n); }
  }

  lemma LaterMonth(d: Date, e: Date)
    requires IsDate(d) && IsDate(e) && MonthNumber(d) < MonthNumber(e)
    ensures DayOf(d) < DayOf(e)
  {
    var n, k := MonthNumber(d), MonthNumber(e);
    assert InMonth(n, DayOf(d)) by { DateInMonth(d); }
    assert InMonth(k, DayOf(e)) by { DateInMonth(e); }
    EarlierMonth(n, DayOf(d), k, DayOf(e));
  }

  lemma EarlierMonth(n: int, day: int, k: int, later: int)
    requires InMonth(n, day) && InMonth(k, later) && n < k
    ensures day < later
  {
    MonthsAreOrdered(n + 1, k);
  }

  lemma EarlierNumber(d: Date, months: nat)
    requires IsDate(d)
    ensures MonthNumber(MonthsEarlier(d, months)) == MonthNumber(d) - months
  {
  }

  lemma SameMonthEarlier(d: Date, e: Date, months: nat)
    requires IsDate(d) && IsDate(e) && MonthNumber(d) == MonthNumber(e) && d.day <= e.day
    ensures DayOf(MonthsEarlier(d, months)) <= DayOf(MonthsEarlier(e, months))
  {
  }

  /** Going back by months never puts a later date before an earlier one. */
  lemma EarlierKeepsOrder(d: Date, e: Date, months: nat)
    requires IsDate(d) && IsDate(e) && DayOf(d) <= DayOf(e)
    ensures DayOf(MonthsEarlier(d, months)) <= DayOf(MonthsEarlier(e, months))
  {
    DatesAscend(d, e);
    if MonthNumber(d) == MonthNumber(e) {
      SameMonthEarlier(d, e, months);
    } else {
      EarlierNumber(d, months);
      EarlierNumber(e, months);
      LaterMonth(MonthsEarlier(d, months), MonthsEarlier(e, months));
    }
  }

  /** Whether going back by months lands both instants on one day, the later of them no
      later in it: the earlier month, or year, has no room to keep them apart. */
  predicate Folds(from: int, until: int, months: nat) {
    && MonthsEarlier(DateOf(from / DAY), months) == MonthsEarlier(DateOf(until / DAY), months)
    && until % DAY <= from % DAY
  }

  lemma OnDays(a: int, s: int, b: int, u: int)
    requires 0 <= s < DAY && 0 <= u < DAY && a <= b
    ensures a * DAY + s < b * DAY + u <==> !(a == b && u <= s)
  {
  }

  lemma DaysAscend(from: int, until: int)
    requires from < until
    ensures from / DAY <= until / DAY
  {
  }

  /** Exactly then does going back lose the order of two instants. */
  lemma SubMonthsKeepsOrder(from: int, until: int, months: nat)
    requires from < until && SubMonths(from, months).Some? && SubMonths(until, months).Some?
    ensures SubMonths(from, months).value < SubMonths(until, months).value <==> !Folds(from, until, months)
  {
    var d, e := DateOf(from / DAY), DateOf(until / DAY);
    DaysAscend(from, until);
    FoldsBetween(d, from % DAY, e, until % DAY, months);
  }

  lemma FoldsBetween(d: Date, s: int, e: Date, u: int, months: nat)
    requires IsDate(d) && IsDate(e) && DayOf(d) <= DayOf(e) && 0 <= s < DAY && 0 <= u < DAY
    requires Earlier(d, s, months).Some? && Earlier(e, u, months).Some?
    ensures Earlier(d, s, months).value < Earlier(e, u, months).value
       <==> !(MonthsEarlier(d, months) == MonthsEarlier(e, months) && u <= s)
  {
    var a, b := MonthsEarlier(d, months), MonthsEarlier(e, months);
    EarlierKeepsOrder(d, e, months);
    OnDays(DayOf(a), s, DayOf(b), u);
    if DayOf(a) == DayOf(b) { DatesAreUnique(a, b); }
  }
}
