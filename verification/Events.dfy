/** Nostr events as the pipeline reads them: tags, the `y` and `d` readings that
    every kind shares, and the per-kind parsers. */
module Events {
  import opened Prelude
  import opened Ranking
  import Text
  import Sorting

  /** A 64-digit hex public key, as the number it spells. */
  type PubKey = nat
  type Kind = nat
  type Url = string
  type Tag = seq<string>

  const ORDER: Kind := 38383
  const DEV_FEE: Kind := 8383
  const DISPUTE: Kind := 38386
  const INFO: Kind := 38385
  const RATES: Kind := 30078
  const RELAY_LIST: Kind := 10002

  /** The kinds that carry a `y` tag. */
  const PLATFORM_TAGGED: set<Kind> := {ORDER, DEV_FEE, DISPUTE, INFO}

  /** The kinds that carry none, so nothing in them says whose they are. */
  const UNTAGGED_KINDS: set<Kind> := {RATES, RELAY_LIST}

  /** The kinds that carry a `network` tag. */
  const NETWORK_TAGGED: set<Kind> := {ORDER, DEV_FEE}

  datatype Event = Event(
    id: EventId,
    pubkey: PubKey,
    kind: Kind,
    createdAt: nat,
    tags: seq<Tag>,
    content: string)

  /** What one tag name holds: nothing, one occurrence, or several — and several
      answers to a question that has one are no answer. */
  datatype TagReading = Absent | Single(values: seq<string>) | Repeated

  /** The values of every occurrence of `name`. */
  function Occurrences(tags: seq<Tag>, name: string): seq<seq<string>> {
    if tags == [] then []
    else (if tags[0] != [] && tags[0][0] == name then [tags[0][1..]] else []) + Occurrences(tags[1..], name)
  }

  function TagValues(tags: seq<Tag>, name: string): TagReading {
    var found := Occurrences(tags, name);
    if found == [] then Absent else if |found| == 1 then Single(found[0]) else Repeated
  }

  /** The first value of a tag that appears once, if it has one. */
  function FirstValue(reading: TagReading): Option<string> {
    if reading.Single? && reading.values != [] then Some(reading.values[0]) else None
  }

  /** The `d_tag` column: the address of an addressable event. */
  function DTag(event: Event): Option<string> {
    FirstValue(TagValues(event.tags, "d"))
  }

  predicate IsMostro(event: Event) {
    FirstValue(TagValues(event.tags, "y")) == Some("mostro")
  }

  /** The second value of `y`, unless it is blank. */
  function InstanceName(event: Event): Option<string> {
    var y := TagValues(event.tags, "y");
    if y.Single? && |y.values| > 1 && Text.Trim(y.values[1]) != "" then Some(Text.Trim(y.values[1])) else None
  }

  predicate CharLeq(a: char, b: char) { a <= b }

  predicate StringLeq(a: string, b: string) { Sorting.LexLeq(CharLeq, a, b) }

  predicate TagLeq(a: Tag, b: Tag) { Sorting.LexLeq(StringLeq, a, b) }

  /** Whether two events carry the same tags, in any order: their sorted copies
      are compared. */
  predicate SameTags(a: Event, b: Event) {
    Sorting.Sort(TagLeq, a.tags) == Sorting.Sort(TagLeq, b.tags)
  }

  lemma StringOrderIsLinear()
    ensures Sorting.LinearOrder(StringLeq)
  {
    Sorting.LexIsLinear(CharLeq);
    var byChars := (a: string, b: string) => Sorting.LexLeq(CharLeq, a, b);
    assert forall a, b :: StringLeq(a, b) == byChars(a, b);
  }

  lemma TagOrderIsLinear()
    ensures Sorting.LinearOrder(TagLeq)
  {
    StringOrderIsLinear();
    Sorting.LexIsLinear(StringLeq);
    var byStrings := (a: Tag, b: Tag) => Sorting.LexLeq(StringLeq, a, b);
    assert forall a, b :: TagLeq(a, b) == byStrings(a, b);
  }

  /** Comparing sorted copies is comparing the tags as a multiset. */
  lemma SameTagsIsUpToOrder(a: Event, b: Event)
    ensures SameTags(a, b) <==> multiset(a.tags) == multiset(b.tags)
  {
    TagOrderIsLinear();
    Sorting.SortedCopiesAgree(TagLeq, a.tags, b.tags);
  }

  lemma {:induction false} OccurrencesConcat(a: seq<Tag>, b: seq<Tag>, name: string)
    ensures Occurrences(a + b, name) == Occurrences(a, name) + Occurrences(b, name)
  {
    if a == [] {
      assert a + b == b;
    } else {
      assert (a + b)[1..] == a[1..] + b;
      OccurrencesConcat(a[1..], b, name);
    }
  }

  lemma TakenOut(tags: seq<Tag>, j: nat, name: string)
    requires j < |tags|
    ensures multiset(tags[..j] + tags[j + 1..]) == multiset(tags) - multiset{tags[j]}
    ensures multiset(Occurrences(tags, name))
         == multiset(Occurrences(tags[..j] + tags[j + 1..], name)) + multiset(Occurrences([tags[j]], name))
  {
    assert tags == tags[..j] + ([tags[j]] + tags[j + 1..]);
    OccurrencesConcat(tags[..j], tags[j + 1..], name);
    OccurrencesConcat(tags[..j], [tags[j]] + tags[j + 1..], name);
    OccurrencesConcat([tags[j]], tags[j + 1..], name);
  }

  lemma TakeOut(tags: seq<Tag>, tag: Tag, name: string) returns (rest: seq<Tag>)
    requires tag in multiset(tags)
    ensures |rest| < |tags| && multiset(rest) == multiset(tags) - multiset{tag}
    ensures multiset(Occurrences(tags, name)) == multiset(Occurrences(rest, name)) + multiset(Occurrences([tag], name))
  {
    var j :| 0 <= j < |tags| && tags[j] == tag;
    TakenOut(tags, j, name);
    rest := tags[..j] + tags[j + 1..];
  }

  /** Tags in another order hold the same occurrences in another order. */
  lemma {:induction false} OccurrencesUpToOrder(a: seq<Tag>, b: seq<Tag>, name: string)
    requires multiset(a) == multiset(b)
    ensures multiset(Occurrences(a, name)) == multiset(Occurrences(b, name))
    decreases |a|
  {
    if a == [] {
      assert |multiset(b)| == 0;
    } else {
      var tag := a[0];
      assert tag in multiset(a);
      var x := TakeOut(a, tag, name);
      var y := TakeOut(b, tag, name);
      OccurrencesUpToOrder(x, y, name);
    }
  }

  lemma OnlyOne<T>(x: seq<T>, y: seq<T>)
    requires multiset(x) == multiset(y)
    ensures |x| == |y| && (|x| == 1 ==> x[0] == y[0])
  {
    Sorting.SameLength(x, y);
    if |x| == 1 {
      assert x[0] in multiset(y);
    }
  }

  /** A tag reading does not depend on the order of the tags. */
  lemma TagOrderDoesNotMatter(a: seq<Tag>, b: seq<Tag>, name: string)
    requires multiset(a) == multiset(b)
    ensures TagValues(a, name) == TagValues(b, name)
  {
    OccurrencesUpToOrder(a, b, name);
    OnlyOne(Occurrences(a, name), Occurrences(b, name));
  }

  // ---- What a tag says, read off the tags themselves ----

  predicate IsCalled(tag: Tag, name: string) { tag != [] && tag[0] == name }

  /** Whether tag number `i` is called `name`, and no other is. */
  predicate OnlyTag(tags: seq<Tag>, name: string, i: nat) {
    i < |tags| && IsCalled(tags[i], name) && forall j | 0 <= j < |tags| && j != i :: !IsCalled(tags[j], name)
  }

  /** A tag is read when there is exactly one of its name: its values are what follows
      the name. */
  lemma {:induction false} TagValuesMeaning(tags: seq<Tag>, name: string)
    ensures TagValues(tags, name).Absent? <==> forall j | 0 <= j < |tags| :: !IsCalled(tags[j], name)
    ensures TagValues(tags, name).Single? ==> exists i: nat :: OnlyTag(tags, name, i)
    ensures forall i: nat | OnlyTag(tags, name, i) :: TagValues(tags, name) == Single(tags[i][1..])
  {
    if tags != [] {
      TagValuesMeaning(tags[1..], name);
      if IsCalled(tags[0], name) {
        FirstIsCalled(tags, name);
      } else {
        FirstIsNot(tags, name);
      }
    }
  }

  lemma FirstIsCalled(tags: seq<Tag>, name: string)
    requires tags != [] && IsCalled(tags[0], name)
    requires TagValues(tags[1..], name).Absent? <==> forall j | 0 <= j < |tags| - 1 :: !IsCalled(tags[1..][j], name)
    ensures !TagValues(tags, name).Absent?
    ensures TagValues(tags, name).Single? ==> OnlyTag(tags, name, 0)
    ensures forall i: nat | OnlyTag(tags, name, i) :: TagValues(tags, name) == Single(tags[i][1..])
  {
    var rest := tags[1..];
    assert forall j | 0 < j < |tags| :: tags[j] == rest[j - 1];
    assert Occurrences(tags, name) == [tags[0][1..]] + Occurrences(rest, name);
    if TagValues(rest, name).Absent? {
      assert Occurrences(rest, name) == [];
    }
    forall i: nat | OnlyTag(tags, name, i) ensures i == 0 && TagValues(rest, name).Absent? {
      forall j | 0 <= j < |rest| ensures !IsCalled(rest[j], name) { assert rest[j] == tags[j + 1]; }
    }
  }

  lemma FirstIsNot(tags: seq<Tag>, name: string)
    requires tags != [] && !IsCalled(tags[0], name)
    requires TagValues(tags[1..], name).Absent? <==> forall j | 0 <= j < |tags| - 1 :: !IsCalled(tags[1..][j], name)
    requires TagValues(tags[1..], name).Single? ==> exists i: nat :: OnlyTag(tags[1..], name, i)
    requires forall i: nat | OnlyTag(tags[1..], name, i) :: TagValues(tags[1..], name) == Single(tags[1..][i][1..])
    ensures TagValues(tags, name).Absent? <==> forall j | 0 <= j < |tags| :: !IsCalled(tags[j], name)
    ensures TagValues(tags, name).Single? ==> exists i: nat :: OnlyTag(tags, name, i)
    ensures forall i: nat | OnlyTag(tags, name, i) :: TagValues(tags, name) == Single(tags[i][1..])
  {
    var rest := tags[1..];
    assert Occurrences(tags, name) == Occurrences(rest, name);
    NoneIsCalled(tags, name);
    if i: nat :| OnlyTag(rest, name, i) { ShiftedTag(tags, name, i); }
    forall i: nat | OnlyTag(tags, name, i) ensures TagValues(tags, name) == Single(tags[i][1..]) {
      ShiftedTag(tags, name, i - 1);
    }
  }

  lemma NoneIsCalled(tags: seq<Tag>, name: string)
    requires tags != [] && !IsCalled(tags[0], name)
    ensures (forall j | 0 <= j < |tags| - 1 :: !IsCalled(tags[1..][j], name))
       <==> (forall j | 0 <= j < |tags| :: !IsCalled(tags[j], name))
  {
    assert tags == [tags[0]] + tags[1..];
  }

  lemma ShiftedTag(tags: seq<Tag>, name: string, i: nat)
    requires tags != [] && !IsCalled(tags[0], name)
    ensures OnlyTag(tags[1..], name, i) <==> OnlyTag(tags, name, i + 1)
  {
    if OnlyTag(tags[1..], name, i) {
      forall j | 0 <= j < |tags| && j != i + 1 ensures !IsCalled(tags[j], name) {
        if j > 0 { assert tags[j] == tags[1..][j - 1]; }
      }
    }
    if OnlyTag(tags, name, i + 1) {
      forall j | 0 <= j < |tags| - 1 && j != i ensures !IsCalled(tags[1..][j], name) {
        assert tags[1..][j] == tags[j + 1];
      }
    }
  }

  /** Whether the one `y` tag names Mostro first. */
  predicate SaysMostro(tags: seq<Tag>) {
    exists i: nat | i < |tags| :: OnlyTag(tags, "y", i) && |tags[i]| > 1 && tags[i][1] == "mostro"
  }

  lemma IsMostroMeaning(e: Event)
    ensures IsMostro(e) <==> SaysMostro(e.tags)
  {
    TagValuesMeaning(e.tags, "y");
  }

  /** The address is the first value of the one `d` tag, and the name the second of the one
      `y` tag, without the space around it, unless nothing else is there. */
  lemma TagsMeaning(e: Event)
    ensures forall i: nat | OnlyTag(e.tags, "d", i) :: DTag(e) == if |e.tags[i]| > 1 then Some(e.tags[i][1]) else None
    ensures DTag(e).Some? ==> exists i: nat :: OnlyTag(e.tags, "d", i)
    ensures forall i: nat | OnlyTag(e.tags, "y", i) ::
              InstanceName(e) == if |e.tags[i]| > 2 && !Text.AllWhite(e.tags[i][2]) then Some(Text.Trim(e.tags[i][2]))
                                 else None
    ensures InstanceName(e).Some? ==> exists i: nat :: OnlyTag(e.tags, "y", i)
  {
    TagValuesMeaning(e.tags, "d");
    TagValuesMeaning(e.tags, "y");
    forall i: nat | OnlyTag(e.tags, "y", i) && |e.tags[i]| > 2
      ensures Text.Trim(e.tags[i][2]) == "" <==> Text.AllWhite(e.tags[i][2])
    {
      Text.TrimsToNothing(e.tags[i][2]);
    }
  }
}
