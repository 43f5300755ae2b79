/** Currencies and payment methods seen for the first time. */
module Market {
  import opened Tiling
  import opened Tallies
  import opened Views
  import Windows

  predicate Offers(orders: seq<View>, keys: Keys<View>, i: nat, k: string) {
    i < |orders| && k in keys(orders[i])
  }

  /** The keys of the orders created before `at`. */
  function SeenBefore(orders: seq<View>, keys: Keys<View>, at: int): set<string> {
    if orders == [] then {}
    else
      var v := orders[|orders| - 1];
      SeenBefore(orders[..|orders| - 1], keys, at) + if v.createdAt < at then Named(keys(v)) else {}
  }

  /** The keys of the orders created in the window. */
  function SeenIn(orders: seq<View>, keys: Keys<View>, w: Window): set<string> {
    if orders == [] then {}
    else
      var v := orders[|orders| - 1];
      SeenIn(orders[..|orders| - 1], keys, w) + if w.Contains(v.createdAt) then Named(keys(v)) else {}
  }

  function FirstSightings(orders: seq<View>, keys: Keys<View>, w: Window): set<string> {
    SeenIn(orders, keys, w) - SeenBefore(orders, keys, w.from)
  }

  lemma {:induction false} SeenMeaning(orders: seq<View>, keys: Keys<View>, w: Window, k: string)
    ensures k in SeenBefore(orders, keys, w.from)
       <==> exists i: nat :: Offers(orders, keys, i, k) && orders[i].createdAt < w.from
    ensures k in SeenIn(orders, keys, w)
       <==> exists i: nat :: Offers(orders, keys, i, k) && w.Contains(orders[i].createdAt)
  {
    if orders != [] {
      var n := |orders| - 1;
      SeenMeaning(orders[..n], keys, w, k);
      forall i: nat | Offers(orders[..n], keys, i, k) ensures Offers(orders, keys, i, k) { }
      forall i: nat | Offers(orders, keys, i, k) && i < n ensures Offers(orders[..n], keys, i, k) { }
      if k in keys(orders[n]) { assert Offers(orders, keys, n, k); }
    }
  }

  /** Whether the earliest order that offers `k` was created at `at`. */
  ghost predicate FirstSeen(orders: seq<View>, keys: Keys<View>, k: string, at: int) {
    && (exists i: nat :: Offers(orders, keys, i, k) && orders[i].createdAt == at)
    && forall i: nat | Offers(orders, keys, i, k) :: at <= orders[i].createdAt
  }

  /** A key is a first sighting of the window its earliest order was created in, and of
      no other. */
  lemma SightedWhereFirstSeen(orders: seq<View>, keys: Keys<View>, k: string, at: int, w: Window)
    requires FirstSeen(orders, keys, k, at)
    ensures k in FirstSightings(orders, keys, w) <==> w.Contains(at)
  {
    SeenMeaning(orders, keys, w, k);
  }

  lemma {:induction false} OfferedIsKey(orders: seq<View>, keys: Keys<View>, k: string)
    ensures k in AllKeys(orders, keys) <==> exists i: nat :: Offers(orders, keys, i, k)
  {
    if orders != [] {
      var n := |orders| - 1;
      OfferedIsKey(orders[..n], keys, k);
      forall i: nat | Offers(orders[..n], keys, i, k) ensures Offers(orders, keys, i, k) { }
      forall i: nat | Offers(orders, keys, i, k) && i < n ensures Offers(orders[..n], keys, i, k) { }
      if k in keys(orders[n]) { assert Offers(orders, keys, n, k); }
    }
  }

  /** Every key that is offered was offered first at some instant. */
  lemma {:induction false} FirstSeenExists(orders: seq<View>, keys: Keys<View>, k: string) returns (at: int)
    requires k in AllKeys(orders, keys)
    ensures FirstSeen(orders, keys, k, at)
  {
    var n := |orders| - 1;
    var front := orders[..n];
    OfferedIsKey(orders, keys, k);
    OfferedIsKey(front, keys, k);
    forall i: nat | Offers(orders, keys, i, k) && i < n ensures Offers(front, keys, i, k) { }
    if k in AllKeys(front, keys) {
      at := FirstSeenExists(front, keys, k);
      var i: nat :| Offers(front, keys, i, k) && front[i].createdAt == at;
      assert Offers(orders, keys, i, k);
      if Offers(orders, keys, n, k) && orders[n].createdAt < at { at := orders[n].createdAt; }
    } else {
      at := orders[n].createdAt;
      assert Offers(orders, keys, n, k);
    }
  }

  /** Main result: over a tiling of a range that holds every order, each key is new in
      exactly one bucket, and nothing else is new in any. */
  lemma NewInExactlyOne(orders: seq<View>, keys: Keys<View>, k: string, o: Openings, bs: seq<Bucket>, i: int,
                        from: int, until: int)
    returns (j: nat)
    requires Increasing(o) && Tile(o, bs, i, from, until) && o(i) <= from
    requires forall v | v in orders :: from <= v.createdAt < until
    requires k in AllKeys(orders, keys)
    ensures j < |bs| && forall n: nat | n < |bs| :: k in FirstSightings(orders, keys, bs[n].window) <==> n == j
  {
    var at := FirstSeenExists(orders, keys, k);
    TilesHold(o, bs, i, from, until, at);
    j :| 0 <= j < |bs| && bs[j].window.Contains(at);
    forall n: nat | n < |bs| ensures k in FirstSightings(orders, keys, bs[n].window) <==> n == j {
      SightedWhereFirstSeen(orders, keys, k, at, bs[n].window);
      if bs[n].window.Contains(at) { HeldOnce(o, bs, i, from, until, at, n, j); }
    }
  }

  lemma OnlyKeysAreSighted(orders: seq<View>, keys: Keys<View>, w: Window)
    ensures FirstSightings(orders, keys, w) <= AllKeys(orders, keys)
  {
    forall k | k in FirstSightings(orders, keys, w) ensures k in AllKeys(orders, keys) {
      SeenMeaning(orders, keys, w, k);
      OfferedIsKey(orders, keys, k);
    }
  }

  /** Over the days, weeks, months or years that cover a window holding every order, each
      key is new in exactly one. */
  lemma NewInOneBucket(orders: seq<View>, keys: Keys<View>, k: string, p: Windows.Period, w: Window) returns (j: nat)
    requires Windows.Bucketed(p, w) && (forall v | v in orders :: w.Contains(v.createdAt)) && k in AllKeys(orders, keys)
    ensures var bs := Windows.Buckets(p, w);
            j < |bs| && forall n: nat | n < |bs| :: k in FirstSightings(orders, keys, bs[n].window) <==> n == j
  {
    Windows.BucketedIsTiled(p, w);
    j := NewInExactlyOne(orders, keys, k, Windows.Openings(p), Windows.Buckets(p, w), Windows.Index(p, w.from),
                         w.from, w.until);
  }
}
