/** Cutting a half-open window at the openings of numbered periods, whatever calendar
    they come from. */
module Tiling {
  import opened Prelude
  import opened Ranking

  /** A half-open interval of unix seconds. */
  datatype Window = Window(from: int, until: int) {
    predicate Contains(at: int) { from <= at < until }
  }

  /** One bucket: the opening it is keyed by, and the part of it inside the window. */
  datatype Bucket = Bucket(opens: int, window: Window)

  /** The instant each period opens, by its number. */
  type Openings = int -> int

  predicate Precedes(o: Openings, i: int) { o(i) < o(i + 1) }

  ghost predicate Increasing(o: Openings) {
    forall i :: Precedes(o, i)
  }

  lemma {:induction false} InOrder(o: Openings, i: int, j: int)
    requires Increasing(o) && i < j
    ensures o(i) < o(j)
    decreases j - i
  {
    assert Precedes(o, j - 1);
    if i < j - 1 { InOrder(o, i, j - 1); }
  }

  predicate In(o: Openings, i: int, at: int) { o(i) <= at < o(i + 1) }

  /** An instant is in one period at most. */
  lemma OnePeriod(o: Openings, i: int, j: int, at: int)
    requires Increasing(o) && In(o, i, at) && In(o, j, at)
    ensures i == j
  {
    if i < j && i + 1 != j { InOrder(o, i + 1, j); }
    if j < i && j + 1 != i { InOrder(o, j + 1, i); }
  }

  // ---- The buckets ----

  /** Period `i`, clipped to the window. */
  function Clipped(o: Openings, w: Window, i: int): Bucket {
    Bucket(o(i), Window(Max(o(i), w.from), Min(o(i + 1), w.until)))
  }

  /** Whether the walk gets past period `i`: the window is not over, and the next
      opening is before `end`, the end of the calendar. */
  predicate Steps(o: Openings, end: int, w: Window, i: int) {
    o(i) < w.until && o(i + 1) < end
  }

  /** The buckets from period `i` on. */
  ghost function BucketsFrom(o: Openings, end: int, w: Window, i: int): seq<Bucket>
    requires Increasing(o)
    decreases w.until - o(i)
  {
    assert Precedes(o, i);
    if !Steps(o, end, w, i) then []
    else
      var b := Clipped(o, w, i);
      (if b.window.from < b.window.until then [b] else []) + BucketsFrom(o, end, w, i + 1)
  }

  lemma NextBucket(o: Openings, end: int, w: Window, i: int)
    requires Increasing(o) && Steps(o, end, w, i)
    ensures var b, rest := Clipped(o, w, i), BucketsFrom(o, end, w, i + 1);
            BucketsFrom(o, end, w, i) == if b.window.from < b.window.until then [b] + rest else rest
  {
  }

  lemma NoMore(o: Openings, end: int, w: Window, i: int)
    requires Increasing(o) && !Steps(o, end, w, i)
    ensures BucketsFrom(o, end, w, i) == []
  {
  }

  /** What `next` must be for the walk: the next opening, if the calendar has one. */
  ghost predicate StepsTo(o: Openings, end: int, next: int -> Option<int>, i: int) {
    next(o(i)) == if o(i + 1) < end then Some(o(i + 1)) else None
  }

  /** The walk: whole periods from number `i` on, each clipped, refusing to build more
      than `limit` of them. */
  method Walk(ghost o: Openings, ghost end: int, w: Window, ghost i: int, opening: int, limit: nat,
              next: int -> Option<int>)
    returns (buckets: Option<seq<Bucket>>)
    requires Increasing(o) && opening == o(i) < end && forall k | i <= k && o(k) < end :: StepsTo(o, end, next, k)
    ensures var all := BucketsFrom(o, end, w, i);
            buckets == if |all| > limit then None else Some(all)
  {
    var cursor, built: seq<Bucket> := opening, [];
    ghost var k, all := i, BucketsFrom(o, end, w, i);
    while cursor < w.until
      invariant i <= k && cursor == o(k) < end
      invariant all == built + BucketsFrom(o, end, w, k)
      invariant |built| <= limit
      decreases w.until - cursor
    {
      assert StepsTo(o, end, next, k) && Precedes(o, k);
      var following := next(cursor);
      if following.None? { break; }
      NextBucket(o, end, w, k);
      var clipped := Window(Max(cursor, w.from), Min(following.value, w.until));
      if clipped.from < clipped.until {
        assert |BucketsFrom(o, end, w, k)| > 0;
        if |built| == limit { return None; }
        built := built + [Bucket(cursor, clipped)];
      }
      cursor := following.value;
      k := k + 1;
    }
    NoMore(o, end, w, k);
    assert built + [] == built;
    return Some(built);
  }

  // ---- What the buckets are ----

  /** Whether period `last` is the last that opens before `end`. */
  predicate IsLast(o: Openings, end: int, last: int) {
    o(last) < end <= o(last + 1)
  }

  lemma IndexBefore(o: Openings, i: int, j: int)
    requires Increasing(o) && o(i) < o(j)
    ensures i < j
  {
    if j < i { InOrder(o, j, i); }
  }

  /** Buckets that tile `[from, until)`: each is keyed by its period, none is empty, and
      each ends where the next period opens, which is where the next one begins. */
  predicate Tile(o: Openings, bs: seq<Bucket>, i: int, from: int, until: int) {
    bs != [] &&
    var b := bs[0];
    b.opens == o(i) && b.window.from == from < b.window.until <= o(i + 1)
    && if |bs| == 1 then b.window.until == until
       else b.window.until == o(i + 1) && Tile(o, bs[1..], i + 1, o(i + 1), until)
  }

  /** The buckets tile the window from `from` to its end, or to the last opening there
      is: the walk does not get past that. */
  lemma {:induction false} BucketsTile(o: Openings, end: int, last: int, w: Window, i: int)
    requires Increasing(o) && IsLast(o, end, last) && In(o, i, Max(o(i), w.from))
    requires Max(o(i), w.from) < Min(w.until, o(last))
    ensures Tile(o, BucketsFrom(o, end, w, i), i, Max(o(i), w.from), Min(w.until, o(last)))
    decreases w.until - o(i)
  {
    assert Precedes(o, i) && Precedes(o, i + 1);
    IndexBefore(o, i, last);
    if i + 1 < last { InOrder(o, i + 1, last); }
    NextBucket(o, end, w, i);
    if o(i + 1) < Min(w.until, o(last)) {
      BucketsTile(o, end, last, w, i + 1);
    } else {
      NoMore(o, end, w, i + 1);
    }
  }

  /** The window of bucket number `k`, in closed form. */
  lemma {:induction false} TileAt(o: Openings, bs: seq<Bucket>, i: int, from: int, until: int, k: nat)
    requires Tile(o, bs, i, from, until) && k < |bs|
    ensures bs[k].opens == o(i + k) && bs[k].window.from < bs[k].window.until <= o(i + k + 1)
    ensures bs[k].window.from == if k == 0 then from else o(i + k)
    ensures bs[k].window.until == if k == |bs| - 1 then until else o(i + k + 1)
  {
    if k > 0 {
      TileAt(o, bs[1..], i + 1, o(i + 1), until, k - 1);
    }
  }

  /** Whether one of the buckets holds the instant. */
  predicate Covered(bs: seq<Bucket>, at: int) {
    exists k :: 0 <= k < |bs| && bs[k].window.Contains(at)
  }

  /** A tiling holds every instant of its window, and no other. */
  lemma {:induction false} TilesHold(o: Openings, bs: seq<Bucket>, i: int, from: int, until: int, at: int)
    requires Tile(o, bs, i, from, until)
    ensures from <= at < until <==> Covered(bs, at)
  {
    if |bs| > 1 {
      var rest := bs[1..];
      TilesHold(o, rest, i + 1, o(i + 1), until, at);
      if o(i + 1) <= at < until {
        var k :| 0 <= k < |rest| && rest[k].window.Contains(at);
        assert bs[k + 1].window.Contains(at);
      }
      forall k | 0 <= k < |bs| && bs[k].window.Contains(at) ensures from <= at < until {
        if k > 0 { assert rest[k - 1].window.Contains(at); }
        TileEnds(o, rest, i + 1, o(i + 1), until);
      }
      if from <= at < o(i + 1) { assert bs[0].window.Contains(at); }
    } else {
      if from <= at < until { assert bs[0].window.Contains(at); }
    }
  }

  lemma {:induction false} TileEnds(o: Openings, bs: seq<Bucket>, i: int, from: int, until: int)
    requires Tile(o, bs, i, from, until)
    ensures from < until
  {
    if |bs| > 1 { TileEnds(o, bs[1..], i + 1, o(i + 1), until); }
  }

  lemma {:induction false} TileWithin(o: Openings, bs: seq<Bucket>, i: int, from: int, until: int, k: nat)
    requires Tile(o, bs, i, from, until) && k < |bs|
    ensures bs[k].window.until <= until
  {
    if |bs| > 1 {
      TileEnds(o, bs[1..], i + 1, o(i + 1), until);
      if k > 0 { TileWithin(o, bs[1..], i + 1, o(i + 1), until, k - 1); }
    }
  }

  lemma TileBounds(o: Openings, bs: seq<Bucket>, i: int, from: int, until: int, k: nat)
    requires Increasing(o) && Tile(o, bs, i, from, until) && 0 < k < |bs|
    ensures o(i) <= o(i + k - 1) < o(i + k) < bs[k].window.until <= until
  {
    TileAt(o, bs, i, from, until, k);
    TileWithin(o, bs, i, from, until, k);
    assert Precedes(o, i + k - 1);
    if k > 1 { InOrder(o, i, i + k - 1); }
  }

  /** It holds each of them once. */
  lemma HeldOnce(o: Openings, bs: seq<Bucket>, i: int, from: int, until: int, at: int, k: nat, j: nat)
    requires Increasing(o) && Tile(o, bs, i, from, until) && o(i) <= from && k < |bs| && j < |bs|
    requires bs[k].window.Contains(at) && bs[j].window.Contains(at)
    ensures k == j
  {
    TileAt(o, bs, i, from, until, k);
    TileAt(o, bs, i, from, until, j);
    OnePeriod(o, i + k, i + j, at);
  }

  /** A window that opens in period `i` is tiled up to its end or to the last opening
      there is; from there on nothing is. */
  lemma WindowTiles(o: Openings, end: int, last: int, w: Window, i: int)
    requires Increasing(o) && IsLast(o, end, last) && In(o, i, w.from) && w.from < w.until && w.from < end
    ensures w.from < o(last) ==> Tile(o, BucketsFrom(o, end, w, i), i, w.from, Min(w.until, o(last)))
    ensures w.from >= o(last) ==> BucketsFrom(o, end, w, i) == []
  {
    if w.from < o(last) {
      BucketsTile(o, end, last, w, i);
    } else {
      if last < i { InOrder(o, last, i); OnePeriod(o, i, i, w.from); LastIsNotBefore(o, end, last, i); }
      if i < last { IndexBefore(o, last, i + 1); }
      NoMore(o, end, w, i);
    }
  }

  lemma LastIsNotBefore(o: Openings, end: int, last: int, i: int)
    requires Increasing(o) && IsLast(o, end, last) && last < i
    ensures end <= o(i)
  {
    if last + 1 < i { InOrder(o, last + 1, i); }
  }

  /** They cover the window exactly when it ends by the last opening. */
  lemma CoverIsExact(o: Openings, end: int, last: int, w: Window, i: int)
    requires Increasing(o) && IsLast(o, end, last) && In(o, i, w.from) && w.from < w.until && w.from < end
    ensures (forall at :: w.Contains(at) <==> Covered(BucketsFrom(o, end, w, i), at)) <==> w.until <= o(last)
  {
    var bs, until := BucketsFrom(o, end, w, i), Min(w.until, o(last));
    WindowTiles(o, end, last, w, i);
    if w.from >= o(last) {
      assert w.Contains(w.from) && !Covered(bs, w.from);
    } else {
      forall at ensures w.from <= at < until <==> Covered(bs, at) {
        TilesHold(o, bs, i, w.from, until, at);
      }
      if w.until > o(last) { assert w.Contains(o(last)) && !Covered(bs, o(last)); }
    }
  }

  // ---- The period before ----

  /** Both bounds of a window, shifted back. */
  function Shifted(back: int -> Option<int>, w: Window): Option<Window> {
    var from, until := back(w.from), back(w.until);
    if from.Some? && until.Some? then Some(Window(from.value, until.value)) else None
  }

  /** Whether going back from opening `j` is going to the opening before, where the
      calendar, from `start` on, has both. */
  predicate GoesBack(o: Openings, back: int -> Option<int>, start: int, j: int) {
    start <= o(j - 1) && start <= o(j) ==> back(o(j)) == Some(o(j - 1))
  }

  /** Whether a bucket is a whole period, not cut by the window. */
  predicate IsWhole(o: Openings, b: Bucket, i: int) {
    b.window == Window(o(i), o(i + 1))
  }

  /** Openings of a calendar from `start` to `end`, and how to go back among them. */
  ghost predicate IsCalendar(o: Openings, back: int -> Option<int>, start: int, end: int) {
    Increasing(o) && forall j | o(j) < end :: GoesBack(o, back, start, j)
  }

  /** A tiling that begins and ends on the calendar. */
  predicate OnCalendar(o: Openings, start: int, end: int, bs: seq<Bucket>, i: int, from: int, until: int) {
    Tile(o, bs, i, from, until) && start <= o(i) && until < end
  }

  /** Whether bucket `k` and the one before it are whole periods. */
  predicate WholePair(o: Openings, bs: seq<Bucket>, i: int, k: nat) {
    0 < k < |bs| && IsWhole(o, bs[k], i + k) && IsWhole(o, bs[k - 1], i + (k - 1))
  }

  /** Every bucket of a tiling but the first and the last is a whole period. */
  lemma {:induction false} InnerIsWhole(o: Openings, bs: seq<Bucket>, i: int, from: int, until: int, k: nat)
    requires Tile(o, bs, i, from, until) && 0 < k < |bs| - 1
    ensures IsWhole(o, bs[k], i + k)
  {
    if k > 1 {
      InnerIsWhole(o, bs[1..], i + 1, o(i + 1), until, k - 1);
    } else {
      assert bs[1..][0] == bs[1];
    }
  }

  lemma InnerPairIsWhole(o: Openings, start: int, end: int, bs: seq<Bucket>, i: int, from: int, until: int, k: nat)
    requires OnCalendar(o, start, end, bs, i, from, until) && 1 < k < |bs| - 1
    ensures WholePair(o, bs, i, k)
  {
    InnerIsWhole(o, bs, i, from, until, k);
    InnerIsWhole(o, bs, i, from, until, k - 1);
  }

  /** Whether one bucket is the window before another. */
  predicate ComesBefore(back: int -> Option<int>, bs: seq<Bucket>, k: nat) {
    0 < k < |bs| && Shifted(back, bs[k].window) == Some(bs[k - 1].window)
  }

  /** Of two whole buckets of a tiling next to each other, the first is the second
      shifted back. */
  lemma ShiftedIsTheBucketBefore(o: Openings, back: int -> Option<int>, start: int, end: int,
                                 bs: seq<Bucket>, i: int, from: int, until: int, k: nat)
    requires IsCalendar(o, back, start, end) && OnCalendar(o, start, end, bs, i, from, until) && WholePair(o, bs, i, k)
    ensures ComesBefore(back, bs, k)
  {
    TileBounds(o, bs, i, from, until, k);
    assert GoesBack(o, back, start, i + k) && GoesBack(o, back, start, i + k + 1);
  }
}
