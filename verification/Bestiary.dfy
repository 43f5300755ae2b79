/** What a publisher's row says after any number of sightings, in any order. */
module Bestiary {
  import opened Prelude
  import opened Ranking
  import opened Events
  import opened Schema
  import opened Pipeline

  /** One event of the publisher: when, and under which name if any. */
  datatype Sighting = Sighting(name: Option<string>, at: nat)

  /** The row after these sightings, one upsert each. */
  function Fold(seen: seq<Sighting>): Option<Instance> {
    if seen == [] then None
    else Some(Sighted(Fold(seen[..|seen| - 1]), seen[|seen| - 1].name, seen[|seen| - 1].at))
  }

  function SetOf(seen: seq<Sighting>): set<Sighting> { set s | s in seen }

  /** Whether the named sighting is the latest of them. */
  predicate NewestNaming(s: set<Sighting>, x: Sighting) {
    x in s && x.name.Some? && forall y | y in s && y.name.Some? :: y.at <= x.at
  }

  /** What the row says of a set of sightings: the first, the last, and a newest name. */
  ghost predicate Describes(row: Instance, s: set<Sighting>) {
    && (exists x :: x in s && x.at == row.firstSeenAt) && (forall x | x in s :: row.firstSeenAt <= x.at)
    && (exists x :: x in s && x.at == row.lastSeenAt) && (forall x | x in s :: x.at <= row.lastSeenAt)
    && (row.name.None? <==> forall x | x in s :: x.name.None?)
    && (row.nameSeenAt.Some? <==> row.name.Some?)
    && (row.name.Some? ==> exists x :: NewestNaming(s, x) && x.name == row.name && x.at == row.nameSeenAt.value)
  }

  lemma OneMore(before: Option<Instance>, s: set<Sighting>, x: Sighting)
    requires before.None? ==> s == {}
    requires before.Some? ==> Describes(before.value, s)
    ensures Describes(Sighted(before, x.name, x.at), s + {x})
  {
    var row, all := Sighted(before, x.name, x.at), s + {x};
    assert x in all;
    if before.Some? {
      var i := before.value;
      var first :| first in s && first.at == i.firstSeenAt;
      var last :| last in s && last.at == i.lastSeenAt;
      assert first in all && last in all;
      if i.name.Some? {
        var named :| NewestNaming(s, named) && named.name == i.name && named.at == i.nameSeenAt.value;
        assert NewestNaming(all, named) || NewestNaming(all, x);
      } else {
        assert x.name.Some? ==> NewestNaming(all, x);
      }
    } else {
      assert x.name.Some? ==> NewestNaming(all, x);
    }
  }

  /** The row is the earliest and the latest sighting, and the name of a newest naming
      one, whatever order they came in and however often. */
  lemma {:induction false} FoldDescribes(seen: seq<Sighting>)
    requires seen != []
    ensures Describes(Fold(seen).value, SetOf(seen))
  {
    var n := |seen| - 1;
    if n > 0 { FoldDescribes(seen[..n]); }
    assert seen == seen[..n] + [seen[n]];
    assert SetOf(seen) == SetOf(seen[..n]) + {seen[n]};
    OneMore(Fold(seen[..n]), SetOf(seen[..n]), seen[n]);
  }

  /** Whether the newest naming sightings agree on the name. */
  ghost predicate NewestNamesAgree(s: set<Sighting>) {
    forall x, y | NewestNaming(s, x) && NewestNaming(s, y) :: x.name == y.name
  }

  lemma RowIsUnique(a: Instance, b: Instance, s: set<Sighting>)
    requires Describes(a, s) && Describes(b, s) && NewestNamesAgree(s)
    ensures a == b
  {
    assert a.firstSeenAt == b.firstSeenAt && a.lastSeenAt == b.lastSeenAt;
    if a.name.Some? {
      var x :| NewestNaming(s, x) && x.name == a.name && x.at == a.nameSeenAt.value;
      assert b.name.Some?;
      var y :| NewestNaming(s, y) && y.name == b.name && y.at == b.nameSeenAt.value;
      assert x.at <= y.at && y.at <= x.at;
    } else {
      assert b.name.None?;
    }
  }

  lemma {:induction false} Listed(s: set<Sighting>) returns (seen: seq<Sighting>)
    ensures SetOf(seen) == s
  {
    seen := [];
    if s != {} {
      var x :| x in s;
      var rest := Listed(s - {x});
      seen := rest + [x];
      assert SetOf(seen) == SetOf(rest) + {x};
    } else {
      assert SetOf(seen) == {};
    }
  }

  lemma LastNameWins(seen: seq<Sighting>, x: Sighting)
    requires NewestNaming(SetOf(seen), x)
    ensures SetOf(seen + [x]) == SetOf(seen) && Fold(seen + [x]).value.name == x.name
  {
    assert (seen + [x])[..|seen|] == seen;
    assert x in seen;
    FoldDescribes(seen);
  }

  ghost predicate SameRow(a: seq<Sighting>, b: seq<Sighting>, s: set<Sighting>) {
    SetOf(a) == s && SetOf(b) == s ==> Fold(a) == Fold(b)
  }

  /** Main result: replaying the same sightings in any order, with any repeats, leaves
      the same row exactly when the newest of them to carry a name carry the same one. */
  lemma OrderMattersOnlyInATie(s: set<Sighting>)
    requires s != {}
    ensures (forall a, b :: SameRow(a, b, s)) <==> NewestNamesAgree(s)
  {
    if NewestNamesAgree(s) {
      forall a, b ensures SameRow(a, b, s) {
        if SetOf(a) == s && SetOf(b) == s {
          assert a != [] && b != [] by { assert SetOf([]) == {}; }
          FoldDescribes(a);
          FoldDescribes(b);
          RowIsUnique(Fold(a).value, Fold(b).value, s);
        }
      }
    } else {
      var x, y :| NewestNaming(s, x) && NewestNaming(s, y) && x.name != y.name;
      var seen := Listed(s);
      LastNameWins(seen, x);
      LastNameWins(seen, y);
      assert !SameRow(seen + [x], seen + [y], s);
    }
  }

  /** Two events of one second under two names: the row keeps whichever came last. */
  lemma TwoNamesInASecond(at: nat, one: string, other: string)
    requires one != other
    ensures var x, y := Sighting(Some(one), at), Sighting(Some(other), at);
            Fold([x, y]).value.name == Some(other) && Fold([y, x]).value.name == Some(one)
  {
    var x, y := Sighting(Some(one), at), Sighting(Some(other), at);
    assert [x, y][..1] == [x] && [y, x][..1] == [y];
    assert Fold([x]) == Some(Sighted(None, x.name, at)) && Fold([y]) == Some(Sighted(None, y.name, at));
  }

  // ---- The rows of a run ----

  /** What the run saw of a publisher: a stored event under its name, a redundant one
      under none. */
  function SightingsOf(r: Rules, attempts: seq<Attempt>, pubkey: PubKey): seq<Sighting> {
    if attempts == [] then []
    else
      var n := |attempts| - 1;
      var e := attempts[n].delivery.event;
      var before := SightingsOf(r, attempts[..n], pubkey);
      if attempts[n].RolledBack? || e.pubkey != pubkey then before
      else match OutcomeOf(r, Run(r, attempts[..n]), e)
        case Stored => before + [Sighting(InstanceName(e), e.createdAt)]
        case Redundant => before + [Sighting(None, e.createdAt)]
        case _ => before
  }

  lemma SightingUpserts(t: map<PubKey, Instance>, outcome: Outcome, e: Event, pubkey: PubKey)
    ensures Find(WithSighting(t, outcome, e), pubkey)
         == if e.pubkey == pubkey && outcome in {Stored, Redundant}
            then Some(Sighted(Find(t, pubkey), if outcome == Stored then InstanceName(e) else None, e.createdAt))
            else Find(t, pubkey)
  {
  }

  /** A publisher's row is the fold of what the run saw of it. */
  lemma {:induction false} RowIsFold(r: Rules, attempts: seq<Attempt>, pubkey: PubKey)
    ensures Find(Run(r, attempts).instances, pubkey) == Fold(SightingsOf(r, attempts, pubkey))
  {
    if attempts != [] {
      var n := |attempts| - 1;
      var before, d := SightingsOf(r, attempts[..n], pubkey), attempts[n].delivery;
      RowIsFold(r, attempts[..n], pubkey);
      if attempts[n].Committed? {
        var t := Run(r, attempts[..n]);
        SightingUpserts(t.instances, OutcomeOf(r, t, d.event), d.event, pubkey);
        FoldNext(before, Sighting(InstanceName(d.event), d.event.createdAt));
        FoldNext(before, Sighting(None, d.event.createdAt));
      }
    }
  }

  lemma FoldNext(seen: seq<Sighting>, s: Sighting)
    ensures Fold(seen + [s]) == Some(Sighted(Fold(seen), s.name, s.at))
  {
    assert (seen + [s])[..|seen|] == seen;
  }

  predicate Carries(s: Sighting, name: string) { s.name == Some(name) }

  /** Whether `at` is the last time the name was sighted. */
  ghost predicate LastSighted(seen: seq<Sighting>, name: string, at: nat) {
    (exists s :: s in seen && Carries(s, name) && s.at == at) && forall s | s in seen && Carries(s, name) :: s.at <= at
  }

  /** The name history holds the names the publisher was stored under, each with the last
      time it was. */
  lemma {:induction false} NamesAreLastSightings(r: Rules, attempts: seq<Attempt>, pubkey: PubKey, name: string)
    ensures var names, seen := Run(r, attempts).names, SightingsOf(r, attempts, pubkey);
            && ((pubkey, name) in names <==> exists s :: s in seen && Carries(s, name))
            && ((pubkey, name) in names ==> LastSighted(seen, name, names[(pubkey, name)]))
  {
    if attempts != [] {
      var n := |attempts| - 1;
      var before, d := SightingsOf(r, attempts[..n], pubkey), attempts[n].delivery;
      NamesAreLastSightings(r, attempts[..n], pubkey, name);
      if attempts[n].Committed? {
        var t := Run(r, attempts[..n]);
        var s := if OutcomeOf(r, t, d.event) == Stored then Sighting(InstanceName(d.event), d.event.createdAt)
                 else Sighting(None, d.event.createdAt);
        NamesNext(t.names, before, s, pubkey, name);
        RecordedName(t.names, d.event.pubkey, s.name, d.event.createdAt, pubkey, name);
      }
    }
  }

  /** The entry of one name after one more sighting under it. */
  function Entry(before: Option<nat>, s: Sighting, name: string): Option<nat> {
    if !Carries(s, name) then before else if before.None? then Some(s.at) else Some(Max(before.value, s.at))
  }

  lemma RecordedName(names: map<(PubKey, string), nat>, publisher: PubKey, name: Option<string>, at: nat,
                     pubkey: PubKey, k: string)
    ensures Find(RecordName(names, publisher, name, at), (pubkey, k))
         == if publisher == pubkey then Entry(Find(names, (pubkey, k)), Sighting(name, at), k)
            else Find(names, (pubkey, k))
  {
  }

  lemma NamesNext(names: map<(PubKey, string), nat>, seen: seq<Sighting>, s: Sighting, pubkey: PubKey, name: string)
    requires (pubkey, name) in names <==> exists x :: x in seen && Carries(x, name)
    requires (pubkey, name) in names ==> LastSighted(seen, name, names[(pubkey, name)])
    ensures var entry := Entry(Find(names, (pubkey, name)), s, name);
            && (entry.Some? <==> exists x :: x in seen + [s] && Carries(x, name))
            && (entry.Some? ==> LastSighted(seen + [s], name, entry.value))
  {
    assert forall x :: x in seen + [s] <==> x in seen || x == s;
    if Carries(s, name) { assert s in seen + [s]; }
    if (pubkey, name) in names {
      var x :| x in seen && Carries(x, name) && x.at == names[(pubkey, name)];
      assert x in seen + [s];
    }
  }
}
