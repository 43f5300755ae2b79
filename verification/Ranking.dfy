/** The `ORDER BY … LIMIT 1` and `MIN`/`MAX` of the repositories' queries, over
    finite tables of stamped event ids. */
module Ranking {
  import opened Prelude

  /** A 64-digit lower-case hex id, as the number it spells: ids of one width
      compare as strings exactly as they compare as numbers. */
  type EventId = nat

  /** The `created_at` of each row, by event id. */
  type Stamps = map<EventId, nat>

  /** Whether the version stamped `at` under `id` replaces the other one: a later
      clock, or in the same second the lowest id (NIP-01, "Kinds"). */
  predicate Supersedes(at: nat, id: EventId, otherAt: nat, otherId: EventId) {
    at > otherAt || (at == otherAt && id < otherId)
  }

  predicate IsNewest(t: Stamps, id: EventId) {
    id in t && forall o | o in t && o != id :: Supersedes(t[id], id, t[o], o)
  }

  predicate IsOldest(t: Stamps, id: EventId) {
    id in t && forall o | o in t && o != id :: t[id] < t[o] || (t[id] == t[o] && id < o)
  }

  lemma {:induction false} NewestExists(t: Stamps)
    requires t.Keys != {}
    ensures exists id :: IsNewest(t, id)
    decreases |t|
  {
    var x :| x in t;
    var rest := t - {x};
    if t.Keys == {x} {
      assert IsNewest(t, x);
    } else {
      assert t.Keys - {x} != {};
      NewestExists(rest);
      var y :| IsNewest(rest, y);
      assert forall o | o in t && o != x :: o in rest;
      assert IsNewest(t, x) || IsNewest(t, y);
    }
  }

  lemma {:induction false} OldestExists(t: Stamps)
    requires t.Keys != {}
    ensures exists id :: IsOldest(t, id)
    decreases |t|
  {
    var x :| x in t;
    var rest := t - {x};
    if t.Keys == {x} {
      assert IsOldest(t, x);
    } else {
      assert t.Keys - {x} != {};
      OldestExists(rest);
      var y :| IsOldest(rest, y);
      assert forall o | o in t && o != x :: o in rest;
      assert IsOldest(t, x) || IsOldest(t, y);
    }
  }

  /** `ORDER BY created_at DESC, event_id ASC LIMIT 1`. */
  function Newest(t: Stamps): (id: EventId)
    requires t.Keys != {}
    ensures IsNewest(t, id)
  {
    NewestExists(t);
    var id :| id in t && IsNewest(t, id);
    id
  }

  /** `ORDER BY created_at, event_id LIMIT 1`. */
  function Oldest(t: Stamps): (id: EventId)
    requires t.Keys != {}
    ensures IsOldest(t, id)
  {
    OldestExists(t);
    var id :| id in t && IsOldest(t, id);
    id
  }

  predicate IsLeast(s: set<nat>, m: nat) {
    m in s && forall x | x in s :: m <= x
  }

  lemma {:induction false} LeastExists(s: set<nat>)
    requires s != {}
    ensures exists m :: IsLeast(s, m)
  {
    var x :| x in s;
    var rest := s - {x};
    if rest == {} {
      assert s == {x};
      assert IsLeast(s, x);
    } else {
      LeastExists(rest);
      var y :| IsLeast(rest, y);
      assert s == rest + {x};
      assert IsLeast(s, if x < y then x else y);
    }
  }

  /** `MIN(column)`, which is NULL over no rows. */
  function Least(s: set<nat>): (m: Option<nat>)
    ensures m.None? <==> s == {}
    ensures m.Some? ==> IsLeast(s, m.value)
  {
    if s == {} then None
    else
      LeastExists(s);
      var m :| m in s && IsLeast(s, m);
      Some(m)
  }

  function Max(a: int, b: int): int { if a < b then b else a }

  function Min(a: int, b: int): int { if b < a then b else a }
}
