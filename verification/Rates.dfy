/** What one bitcoin was worth, in one currency, at one instant, as far as one
    instance knew. */
module Rates {
  import opened Prelude
  import opened Events
  import opened Sorting
  import opened Counting

  /** How old a snapshot may be and still price an order. */
  const MAX_AGE_SECS := 300

  /** The price of one bitcoin per currency code, as one instance published it. */
  datatype Snapshot = Snapshot(pubkey: PubKey, publishedAt: int, rates: map<string, real>)

  datatype RateSource = Instance | Fallback(pubkey: PubKey)

  datatype RateQuote = RateQuote(rate: real, ageSecs: int, source: RateSource)

  /** The order of the book: by time, then by publisher. */
  predicate NotAfter(a: Snapshot, b: Snapshot) {
    a.publishedAt < b.publishedAt || (a.publishedAt == b.publishedAt && a.pubkey <= b.pubkey)
  }

  /** Whether a snapshot prices `fiat` at `at`. */
  predicate Prices(s: Snapshot, fiat: string, at: int) {
    0 <= at - s.publishedAt <= MAX_AGE_SECS && fiat in s.rates
  }

  type Wanted = Snapshot -> bool

  function Anyones(fiat: string, at: int): Wanted { (s: Snapshot) => Prices(s, fiat, at) }

  function Own(pubkey: PubKey, fiat: string, at: int): Wanted {
    (s: Snapshot) => s.pubkey == pubkey && Prices(s, fiat, at)
  }

  // ---- The simple form: one look at every snapshot ----

  /** The latest snapshot that is wanted, the last of them in a tie. */
  function Scan(s: seq<Snapshot>, want: Wanted): Option<Snapshot> {
    if s == [] then None
    else
      var best, x := Scan(s[..|s| - 1], want), s[|s| - 1];
      if want(x) && (best.None? || NotAfter(best.value, x)) then Some(x) else best
  }

  function Quote(s: Snapshot, fiat: string, at: int, source: RateSource): RateQuote
    requires fiat in s.rates
  {
    RateQuote(s.rates[fiat], at - s.publishedAt, source)
  }

  /** What `RateAt` must answer: the instance's own latest, or else anyone's. */
  function Answer(s: seq<Snapshot>, pubkey: PubKey, fiat: string, at: int): Option<RateQuote> {
    ScanIsWanted(s, Own(pubkey, fiat, at));
    ScanIsWanted(s, Anyones(fiat, at));
    var own, any := Scan(s, Own(pubkey, fiat, at)), Scan(s, Anyones(fiat, at));
    if own.Some? then Some(Quote(own.value, fiat, at, Instance))
    else if any.Some? then Some(Quote(any.value, fiat, at, Fallback(any.value.pubkey)))
    else None
  }

  lemma {:induction false} ScanIsWanted(s: seq<Snapshot>, want: Wanted)
    ensures var best := Scan(s, want); best.Some? ==> best.value in s && want(best.value)
  {
    if s != [] { ScanIsWanted(s[..|s| - 1], want); }
  }

  // ---- The book ----

  datatype RateBook = RateBook(snapshots: seq<Snapshot>, byPubkey: map<PubKey, seq<nat>>, everyone: seq<nat>)

  /** Positions that point into the first `n` snapshots. */
  predicate Within(positions: seq<nat>, n: nat) {
    forall i | 0 <= i < |positions| :: positions[i] < n
  }

  /** The positions of one publisher's snapshots, ascending. */
  function PositionsOf(s: seq<Snapshot>, pubkey: PubKey): (r: seq<nat>)
    ensures Within(r, |s|)
  {
    if s == [] then []
    else PositionsOf(s[..|s| - 1], pubkey) + if s[|s| - 1].pubkey == pubkey then [|s| - 1] else []
  }

  function AllPositions(n: nat): (r: seq<nat>)
    ensures Within(r, n)
  {
    if n == 0 then [] else AllPositions(n - 1) + [n - 1]
  }

  ghost predicate Indexed(byPubkey: map<PubKey, seq<nat>>, s: seq<Snapshot>) {
    forall k: PubKey :: IndexedAt(byPubkey, s, k)
  }

  predicate IndexedAt(byPubkey: map<PubKey, seq<nat>>, s: seq<Snapshot>, k: PubKey) {
    PositionsOf(s, k) == if k in byPubkey then byPubkey[k] else []
  }

  lemma NothingIndexed()
    ensures Indexed(map[], [])
  {
  }

  ghost predicate Valid(book: RateBook) {
    && Sorted(NotAfter, book.snapshots)
    && Indexed(book.byPubkey, book.snapshots)
    && book.everyone == AllPositions(|book.snapshots|)
  }

  function Grow(byPubkey: map<PubKey, seq<nat>>, k: PubKey, position: nat): map<PubKey, seq<nat>> {
    byPubkey[k := (if k in byPubkey then byPubkey[k] else []) + [position]]
  }

  lemma IndexGrows(byPubkey: map<PubKey, seq<nat>>, s: seq<Snapshot>, i: nat)
    requires i < |s| && Indexed(byPubkey, s[..i])
    ensures Indexed(Grow(byPubkey, s[i].pubkey, i), s[..i + 1])
  {
    assert s[..i + 1][..i] == s[..i];
    var grown, next := Grow(byPubkey, s[i].pubkey, i), s[..i + 1];
    forall k: PubKey ensures IndexedAt(grown, next, k) {
      assert IndexedAt(byPubkey, s[..i], k);
      assert PositionsOf(next, k) == PositionsOf(s[..i], k) + if s[i].pubkey == k then [i] else [];
    }
  }

  lemma SortedByTime(snapshots: seq<Snapshot>)
    ensures Sorted(NotAfter, Sort(NotAfter, snapshots))
  {
    SortKeeps(NotAfter, snapshots);
  }

  /** Fills the index, position by position. */
  method Index(sorted: seq<Snapshot>) returns (byPubkey: map<PubKey, seq<nat>>, everyone: seq<nat>)
    ensures Indexed(byPubkey, sorted) && everyone == AllPositions(|sorted|)
  {
    byPubkey, everyone := map[], [];
    NothingIndexed();
    assert sorted[..0] == [];
    for i := 0 to |sorted|
      invariant Indexed(byPubkey, sorted[..i])
      invariant everyone == AllPositions(i)
    {
      IndexGrows(byPubkey, sorted, i);
      byPubkey := Grow(byPubkey, sorted[i].pubkey, i);
      everyone := everyone + [i];
    }
    assert sorted[..|sorted|] == sorted;
  }

  method New(snapshots: seq<Snapshot>) returns (book: RateBook)
    ensures Valid(book) && book.snapshots == Sort(NotAfter, snapshots)
  {
    var sorted := Sort(NotAfter, snapshots);
    SortedByTime(snapshots);
    var byPubkey, everyone := Index(sorted);
    book := RateBook(sorted, byPubkey, everyone);
  }

  /** Positions that point into `s`, in ascending order. */
  predicate Ascending(positions: seq<nat>, s: seq<Snapshot>) {
    Within(positions, |s|)
    && forall i, j | 0 <= i < j < |positions| :: positions[i] < positions[j]
  }

  /** Binary search for how many of the positions are no later than `at`. */
  function PartitionPoint(s: seq<Snapshot>, positions: seq<nat>, at: int, lo: nat, hi: nat): (end: nat)
    requires lo <= hi <= |positions| && Within(positions, |s|)
    ensures lo <= end <= hi
    decreases hi - lo
  {
    if lo == hi then lo
    else
      var mid := (lo + hi) / 2;
      if s[positions[mid]].publishedAt <= at then PartitionPoint(s, positions, at, mid + 1, hi)
      else PartitionPoint(s, positions, at, lo, mid)
  }

  /** Walks back from the end while snapshots are young enough, to the first that
      quotes `fiat`. */
  function WalkBack(s: seq<Snapshot>, positions: seq<nat>, fiat: string, at: int): (found: Option<Snapshot>)
    requires Within(positions, |s|)
    ensures found.Some? ==> fiat in found.value.rates
  {
    if positions == [] then None
    else
      var n := |positions| - 1;
      var x := s[positions[n]];
      if at - x.publishedAt > MAX_AGE_SECS then None
      else if fiat in x.rates then Some(x)
      else WalkBack(s, positions[..n], fiat, at)
  }

  function Newest(s: seq<Snapshot>, positions: seq<nat>, fiat: string, at: int): (found: Option<Snapshot>)
    requires Within(positions, |s|)
    ensures found.Some? ==> fiat in found.value.rates
  {
    WalkBack(s, positions[..PartitionPoint(s, positions, at, 0, |positions|)], fiat, at)
  }

  lemma {:induction false} PositionsAscend(s: seq<Snapshot>, pubkey: PubKey)
    ensures Ascending(PositionsOf(s, pubkey), s)
  {
    if s != [] { PositionsAscend(s[..|s| - 1], pubkey); }
  }

  lemma {:induction false} AllAscend(n: nat)
    ensures |AllPositions(n)| == n && forall i | 0 <= i < n :: AllPositions(n)[i] == i
  {
    if n > 0 { AllAscend(n - 1); }
  }

  /** The positions the index holds for one publisher. */
  function Mine(book: RateBook, pubkey: PubKey): (positions: seq<nat>)
    requires Valid(book)
    ensures positions == PositionsOf(book.snapshots, pubkey)
  {
    assert IndexedAt(book.byPubkey, book.snapshots, pubkey);
    if pubkey in book.byPubkey then book.byPubkey[pubkey] else []
  }

  /** The lookup: the instance's own positions first, then everyone's. */
  function RateAt(book: RateBook, pubkey: PubKey, fiat: string, at: int): Option<RateQuote>
    requires Valid(book)
  {
    var own := Newest(book.snapshots, Mine(book, pubkey), fiat, at);
    var any := Newest(book.snapshots, book.everyone, fiat, at);
    if own.Some? then Some(Quote(own.value, fiat, at, Instance))
    else if any.Some? then Some(Quote(any.value, fiat, at, Fallback(any.value.pubkey)))
    else None
  }

  // ---- The fast form finds what the simple one does ----

  /** The last wanted of the positions. */
  function LastAt(s: seq<Snapshot>, positions: seq<nat>, want: Wanted): Option<Snapshot>
    requires Within(positions, |s|)
  {
    if positions == [] then None
    else
      var n := |positions| - 1;
      if want(s[positions[n]]) then Some(s[positions[n]]) else LastAt(s, positions[..n], want)
  }

  lemma {:induction false} PartitionSplits(s: seq<Snapshot>, positions: seq<nat>, at: int, lo: nat, hi: nat)
    requires lo <= hi <= |positions| && Ascending(positions, s) && Sorted(NotAfter, s)
    requires forall i | 0 <= i < lo :: s[positions[i]].publishedAt <= at
    requires forall i | hi <= i < |positions| :: s[positions[i]].publishedAt > at
    ensures var end := PartitionPoint(s, positions, at, lo, hi);
            && (forall i | 0 <= i < end :: s[positions[i]].publishedAt <= at)
            && (forall i | end <= i < |positions| :: s[positions[i]].publishedAt > at)
    decreases hi - lo
  {
    if lo < hi {
      var mid := (lo + hi) / 2;
      forall i | 0 <= i < |positions|
        ensures i <= mid ==> s[positions[i]].publishedAt <= s[positions[mid]].publishedAt
        ensures mid <= i ==> s[positions[mid]].publishedAt <= s[positions[i]].publishedAt
      {
        if i < mid {
          assert NotAfter(s[positions[i]], s[positions[mid]]);
        } else if mid < i {
          assert NotAfter(s[positions[mid]], s[positions[i]]);
        }
      }
      if s[positions[mid]].publishedAt <= at {
        PartitionSplits(s, positions, at, mid + 1, hi);
      } else {
        PartitionSplits(s, positions, at, lo, mid);
      }
    }
  }

  /** What is too old for the walk is followed, backwards, only by what is too old. */
  lemma {:induction false} TooOld(s: seq<Snapshot>, positions: seq<nat>, fiat: string, at: int)
    requires Ascending(positions, s) && Sorted(NotAfter, s) && positions != []
    requires at - s[positions[|positions| - 1]].publishedAt > MAX_AGE_SECS
    ensures LastAt(s, positions, Anyones(fiat, at)).None?
  {
    var n := |positions| - 1;
    if n > 0 {
      assert NotAfter(s[positions[n - 1]], s[positions[n]]);
      TooOld(s, positions[..n], fiat, at);
    } else {
      assert LastAt(s, positions[..n], Anyones(fiat, at)).None?;
    }
  }

  lemma {:induction false} WalkFindsLast(s: seq<Snapshot>, positions: seq<nat>, fiat: string, at: int)
    requires Ascending(positions, s) && Sorted(NotAfter, s)
    requires forall i | 0 <= i < |positions| :: s[positions[i]].publishedAt <= at
    ensures WalkBack(s, positions, fiat, at) == LastAt(s, positions, Anyones(fiat, at))
  {
    if positions != [] {
      var n := |positions| - 1;
      if at - s[positions[n]].publishedAt > MAX_AGE_SECS {
        TooOld(s, positions, fiat, at);
      } else {
        WalkFindsLast(s, positions[..n], fiat, at);
      }
    }
  }

  /** Snapshots after the instant are passed over. */
  lemma {:induction false} LaterAreSkipped(s: seq<Snapshot>, positions: seq<nat>, end: nat, fiat: string, at: int)
    requires end <= |positions| && Within(positions, |s|)
    requires forall i | end <= i < |positions| :: s[positions[i]].publishedAt > at
    ensures LastAt(s, positions, Anyones(fiat, at)) == LastAt(s, positions[..end], Anyones(fiat, at))
    decreases |positions|
  {
    if end < |positions| {
      var n := |positions| - 1;
      LaterAreSkipped(s, positions[..n], end, fiat, at);
      assert positions[..n][..end] == positions[..end];
    } else {
      assert positions[..end] == positions;
    }
  }

  lemma NewestIsLast(s: seq<Snapshot>, positions: seq<nat>, fiat: string, at: int)
    requires Ascending(positions, s) && Sorted(NotAfter, s)
    ensures Newest(s, positions, fiat, at) == LastAt(s, positions, Anyones(fiat, at))
  {
    PartitionSplits(s, positions, at, 0, |positions|);
    var end := PartitionPoint(s, positions, at, 0, |positions|);
    LaterAreSkipped(s, positions, end, fiat, at);
    WalkFindsLast(s, positions[..end], fiat, at);
  }

  /** In a sorted book the latest wanted is the last wanted. */
  lemma {:induction false} LastIsLatest(s: seq<Snapshot>, want: Wanted)
    requires Sorted(NotAfter, s)
    ensures Scan(s, want) == LastAt(s, AllPositions(|s|), want)
  {
    AllAscend(|s|);
    if s != [] {
      var n := |s| - 1;
      LastIsLatest(s[..n], want);
      AllAscend(n);
      ScanIsWanted(s[..n], want);
      SamePositions(s, n, AllPositions(n), want);
      assert AllPositions(|s|)[..n] == AllPositions(n);
    }
  }

  lemma {:induction false} SamePositions(s: seq<Snapshot>, n: nat, positions: seq<nat>, want: Wanted)
    requires n <= |s| && Within(positions, n)
    ensures LastAt(s[..n], positions, want) == LastAt(s, positions, want)
  {
    if positions != [] { SamePositions(s, n, positions[..|positions| - 1], want); }
  }

  lemma {:induction false} OwnPositions(s: seq<Snapshot>, pubkey: PubKey, fiat: string, at: int)
    requires Sorted(NotAfter, s)
    ensures Scan(s, Own(pubkey, fiat, at))
         == LastAt(s, PositionsOf(s, pubkey), Anyones(fiat, at))
  {
    if s != [] {
      var n := |s| - 1;
      OwnPositions(s[..n], pubkey, fiat, at);
      ScanIsWanted(s[..n], Own(pubkey, fiat, at));
      var mine := PositionsOf(s[..n], pubkey);
      SamePositions(s, n, mine, Anyones(fiat, at));
      if s[n].pubkey == pubkey { assert (mine + [n])[..|mine|] == mine; } else { assert mine + [] == mine; }
    }
  }

  // ---- Sorting does not change what the scan finds ----

  lemma {:induction false} InsertScans(s: seq<Snapshot>, x: Snapshot, want: Wanted)
    ensures Scan(Insert(NotAfter, s, x), want) == Scan(s + [x], want)
  {
    assert (s + [x])[..|s|] == s;
    if s != [] && !NotAfter(s[|s| - 1], x) {
      var n := |s| - 1;
      var y, rest := s[n], s[..n];
      InsertScans(rest, x, want);
      assert (rest + [x])[..n] == rest;
      var moved := Insert(NotAfter, rest, x);
      assert (moved + [y])[..|moved|] == moved;
      ScanIsWanted(rest, want);
    }
  }

  lemma {:induction false} SortScans(s: seq<Snapshot>, want: Wanted)
    ensures Scan(Sort(NotAfter, s), want) == Scan(s, want)
  {
    if s != [] {
      var n := |s| - 1;
      SortScans(s[..n], want);
      InsertScans(Sort(NotAfter, s[..n]), s[n], want);
      var t := Sort(NotAfter, s[..n]);
      assert (t + [s[n]])[..|t|] == t;
    }
  }

  /** Main result: the indexed, searched, cut-off lookup answers what looking at every
      snapshot in the order they were loaded answers. */
  lemma RateAtIsTheScan(book: RateBook, snapshots: seq<Snapshot>, pubkey: PubKey, fiat: string, at: int)
    requires Valid(book) && book.snapshots == Sort(NotAfter, snapshots)
    ensures RateAt(book, pubkey, fiat, at) == Answer(snapshots, pubkey, fiat, at)
  {
    var s := book.snapshots;
    PositionsAscend(s, pubkey);
    AllAscend(|s|);
    OwnPositions(s, pubkey, fiat, at);
    LastIsLatest(s, Anyones(fiat, at));
    NewestIsLast(s, PositionsOf(s, pubkey), fiat, at);
    NewestIsLast(s, AllPositions(|s|), fiat, at);
    SortScans(snapshots, Own(pubkey, fiat, at));
    SortScans(snapshots, Anyones(fiat, at));
  }

  /** Whether a snapshot quotes `fiat` and was published in the five minutes up to `at`. */
  predicate IsFresh(x: Snapshot, fiat: string, at: int) {
    fiat in x.rates && x.publishedAt <= at <= x.publishedAt + 300
  }

  /** Whether `x` gives way to `y`: it was published before it, or in the same second by a
      lower key, or by the same key and was loaded first. */
  predicate GivesWay(x: Snapshot, i: nat, y: Snapshot, j: nat) {
    || x.publishedAt < y.publishedAt
    || (x.publishedAt == y.publishedAt && (x.pubkey < y.pubkey || (x.pubkey == y.pubkey && i < j)))
  }

  /** Whether the snapshot at `i` is wanted, and every other that is gives way to it. */
  ghost predicate IsBest(s: seq<Snapshot>, want: Wanted, i: nat) {
    && i < |s| && want(s[i])
    && forall j: nat | j < |s| && j != i && want(s[j]) :: GivesWay(s[j], j, s[i], i)
  }

  lemma {:induction false} ScanIsBest(s: seq<Snapshot>, want: Wanted)
    ensures Scan(s, want).None? <==> forall i | 0 <= i < |s| :: !want(s[i])
    ensures Scan(s, want).Some? ==> exists i: nat :: IsBest(s, want, i) && s[i] == Scan(s, want).value
  {
    if s != [] {
      var n := |s| - 1;
      ScanIsBest(s[..n], want);
      var front := Scan(s[..n], want);
      if want(s[n]) && (front.None? || NotAfter(front.value, s[n])) {
        LastIsBest(s, want);
      } else if front.Some? {
        var i: nat :| IsBest(s[..n], want, i) && s[..n][i] == front.value;
        StillBest(s, want, i);
      }
    }
  }

  lemma StillBest(s: seq<Snapshot>, want: Wanted, i: nat)
    requires s != [] && IsBest(s[..|s| - 1], want, i)
    requires want(s[|s| - 1]) ==> !NotAfter(s[i], s[|s| - 1])
    ensures IsBest(s, want, i)
  {
    forall j: nat | j < |s| && j != i && want(s[j]) ensures GivesWay(s[j], j, s[i], i) {
      if j < |s| - 1 { assert s[..|s| - 1][j] == s[j]; }
    }
  }

  lemma LastIsBest(s: seq<Snapshot>, want: Wanted)
    requires s != [] && want(s[|s| - 1])
    requires var front := s[..|s| - 1];
             && (Scan(front, want).None? <==> forall i | 0 <= i < |front| :: !want(front[i]))
             && (Scan(front, want).Some? ==>
                   NotAfter(Scan(front, want).value, s[|s| - 1])
                   && exists i: nat :: IsBest(front, want, i) && front[i] == Scan(front, want).value)
    ensures IsBest(s, want, |s| - 1)
  {
    var front := s[..|s| - 1];
    if Scan(front, want).Some? {
      var i: nat :| IsBest(front, want, i) && front[i] == Scan(front, want).value;
      forall j: nat | j < |s| - 1 && want(s[j]) ensures GivesWay(s[j], j, s[|s| - 1], |s| - 1) {
        assert front[j] == s[j] && (j == i || GivesWay(front[j], j, front[i], i));
      }
    } else {
      forall j: nat | j < |s| - 1 ensures !want(s[j]) { assert front[j] == s[j]; }
    }
  }

  /** Whether a quote is what a snapshot says. */
  predicate QuotesIt(q: RateQuote, x: Snapshot, fiat: string, at: int) {
    fiat in x.rates && q.rate == x.rates[fiat] && q.ageSecs == at - x.publishedAt
  }

  function FreshOf(pubkey: PubKey, fiat: string, at: int): Wanted {
    (x: Snapshot) => x.pubkey == pubkey && IsFresh(x, fiat, at)
  }

  function Fresh(fiat: string, at: int): Wanted { (x: Snapshot) => IsFresh(x, fiat, at) }

  /** Main result: what an answer is. The instance's own best quote of the five minutes up
      to the instant, where it has one, and else the best anybody has, under its key; there
      is none exactly when nobody has any. */
  lemma AnswerMeaning(s: seq<Snapshot>, pubkey: PubKey, fiat: string, at: int)
    ensures var q, own := Answer(s, pubkey, fiat, at), FreshOf(pubkey, fiat, at);
            && (q.None? <==> forall i | 0 <= i < |s| :: !IsFresh(s[i], fiat, at))
            && (q.Some? ==>
                  && (q.value.source.Instance? <==> exists i :: 0 <= i < |s| && own(s[i]))
                  && (q.value.source.Instance? ==>
                        exists i: nat :: IsBest(s, own, i) && QuotesIt(q.value, s[i], fiat, at))
                  && (q.value.source.Fallback? ==>
                        exists i: nat :: IsBest(s, Fresh(fiat, at), i) && QuotesIt(q.value, s[i], fiat, at)
                                         && q.value.source.pubkey == s[i].pubkey != pubkey))
  {
    FreshScans(s, pubkey, fiat, at);
    ScanIsBest(s, FreshOf(pubkey, fiat, at));
    ScanIsBest(s, Fresh(fiat, at));
    ScanIsWanted(s, Own(pubkey, fiat, at));
    ScanIsWanted(s, Anyones(fiat, at));
    if Scan(s, Fresh(fiat, at)).Some? {
      var i: nat :| IsBest(s, Fresh(fiat, at), i) && s[i] == Scan(s, Fresh(fiat, at)).value;
      assert s[i].pubkey == pubkey ==> FreshOf(pubkey, fiat, at)(s[i]);
    }
  }

  lemma {:induction false} FreshScans(s: seq<Snapshot>, pubkey: PubKey, fiat: string, at: int)
    ensures Scan(s, Own(pubkey, fiat, at)) == Scan(s, FreshOf(pubkey, fiat, at))
    ensures Scan(s, Anyones(fiat, at)) == Scan(s, Fresh(fiat, at))
  {
    if s != [] { FreshScans(s[..|s| - 1], pubkey, fiat, at); }
  }

  // ---- The book of a window ----

  /** The snapshots published in `[from, until)`, in the order of the table. */
  function PublishedBetween(s: seq<Snapshot>, from: int, until: int): seq<Snapshot> {
    if s == [] then []
    else
      PublishedBetween(s[..|s| - 1], from, until) +
      if from <= s[|s| - 1].publishedAt < until then [s[|s| - 1]] else []
  }

  function IsPublishedIn(from: int, until: int): Wanted {
    (x: Snapshot) => from <= x.publishedAt && x.publishedAt < until
  }

  lemma {:induction false} PublishedMeaning(s: seq<Snapshot>, from: int, until: int)
    ensures PublishedBetween(s, from, until) == Filter(s, IsPublishedIn(from, until))
  {
    if s != [] { PublishedMeaning(s[..|s| - 1], from, until); }
  }

  lemma ScanNext(s: seq<Snapshot>, x: Snapshot, want: Wanted)
    ensures var best := Scan(s, want);
            Scan(s + [x], want) == if want(x) && (best.None? || NotAfter(best.value, x)) then Some(x) else best
  {
    assert (s + [x])[..|s|] == s;
  }

  lemma {:induction false} NarrowedScan(s: seq<Snapshot>, from: int, until: int, want: Wanted)
    requires forall x | x in s && want(x) :: from <= x.publishedAt < until
    ensures Scan(PublishedBetween(s, from, until), want) == Scan(s, want)
  {
    if s != [] {
      var n := |s| - 1;
      NarrowedScan(s[..n], from, until, want);
      if from <= s[n].publishedAt < until {
        ScanNext(PublishedBetween(s[..n], from, until), s[n], want);
      } else {
        assert !want(s[n]);
        assert PublishedBetween(s, from, until) == PublishedBetween(s[..n], from, until);
      }
    }
  }

  lemma NarrowedAnswer(s: seq<Snapshot>, from: int, until: int, pubkey: PubKey, fiat: string, at: int)
    requires from <= at < until
    ensures Answer(PublishedBetween(s, from - MAX_AGE_SECS, until), pubkey, fiat, at) == Answer(s, pubkey, fiat, at)
  {
    NarrowedScan(s, from - MAX_AGE_SECS, until, Own(pubkey, fiat, at));
    NarrowedScan(s, from - MAX_AGE_SECS, until, Anyones(fiat, at));
  }

  /** Main result: the book loaded for a window prices every instant in it as the book
      of the whole history does, ties included. */
  lemma NarrowedBookAgrees(narrow: RateBook, full: RateBook, snapshots: seq<Snapshot>, from: int, until: int,
                           pubkey: PubKey, fiat: string, at: int)
    requires Valid(narrow) && Valid(full) && full.snapshots == Sort(NotAfter, snapshots)
    requires narrow.snapshots == Sort(NotAfter, PublishedBetween(snapshots, from - MAX_AGE_SECS, until))
    requires from <= at < until
    ensures RateAt(narrow, pubkey, fiat, at) == RateAt(full, pubkey, fiat, at)
  {
    RateAtIsTheScan(full, snapshots, pubkey, fiat, at);
    RateAtIsTheScan(narrow, PublishedBetween(snapshots, from - MAX_AGE_SECS, until), pubkey, fiat, at);
    NarrowedAnswer(snapshots, from, until, pubkey, fiat, at);
  }
}
