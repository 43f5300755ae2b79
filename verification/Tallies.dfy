/** Totals over dated items: over consecutive windows, over groups, over slots. */
module Tallies {
  import opened Prelude
  import opened Tiling
  import opened Counting

  type Dating<!X> = X -> Option<int>
  type Weight<!X> = X -> int
  type Keys<!X> = X -> seq<string>

  /** What an item adds to the total of a window: its weight, if it is dated inside. */
  function Share<X>(x: X, date: Dating<X>, weight: Weight<X>, w: Window): int {
    if date(x).Some? && w.Contains(date(x).value) then weight(x) else 0
  }

  function Total<X>(items: seq<X>, date: Dating<X>, weight: Weight<X>, w: Window): int {
    if items == [] then 0 else Total(items[..|items| - 1], date, weight, w) + Share(items[|items| - 1], date, weight, w)
  }

  lemma TotalNext<X>(items: seq<X>, x: X, date: Dating<X>, weight: Weight<X>, w: Window)
    ensures Total(items + [x], date, weight, w) == Total(items, date, weight, w) + Share(x, date, weight, w)
  {
    assert (items + [x])[..|items|] == items;
  }

  // ---- Consecutive windows ----

  lemma {:induction false} WindowSplits<X>(items: seq<X>, date: Dating<X>, weight: Weight<X>, a: int, b: int, c: int)
    requires a <= b <= c
    ensures Total(items, date, weight, Window(a, c))
         == Total(items, date, weight, Window(a, b)) + Total(items, date, weight, Window(b, c))
  {
    if items != [] { WindowSplits(items[..|items| - 1], date, weight, a, b, c); }
  }

  /** The totals of the buckets, added up. */
  function SumOfBuckets<X>(items: seq<X>, date: Dating<X>, weight: Weight<X>, bs: seq<Bucket>): int {
    if bs == [] then 0
    else Total(items, date, weight, bs[0].window) + SumOfBuckets(items, date, weight, bs[1..])
  }

  /** Main result: over the buckets of a tiling, of whatever calendar, a total dated by
      what defines it adds up to the total of the whole window. */
  lemma {:induction false} BucketsAddUp<X>(items: seq<X>, date: Dating<X>, weight: Weight<X>,
                                            o: Openings, bs: seq<Bucket>, i: int, from: int, until: int)
    requires Tile(o, bs, i, from, until)
    ensures SumOfBuckets(items, date, weight, bs) == Total(items, date, weight, Window(from, until))
  {
    if |bs| > 1 {
      TileEnds(o, bs[1..], i + 1, o(i + 1), until);
      BucketsAddUp(items, date, weight, o, bs[1..], i + 1, o(i + 1), until);
      WindowSplits(items, date, weight, from, o(i + 1), until);
    } else {
      assert bs[1..] == [];
    }
  }

  // ---- Groups ----

  function Occurrences(keys: seq<string>, k: string): nat {
    if keys == [] then 0 else Occurrences(keys[..|keys| - 1], k) + if keys[|keys| - 1] == k then 1 else 0
  }

  function Copies<X>(x: X, n: nat): seq<X> { if n == 0 then [] else Copies(x, n - 1) + [x] }

  /** The items filed under `k`, once for each time they name it. */
  function InGroup<X>(items: seq<X>, keys: Keys<X>, k: string): seq<X> {
    if items == [] then []
    else
      var x := items[|items| - 1];
      InGroup(items[..|items| - 1], keys, k) + Copies(x, Occurrences(keys(x), k))
  }

  function AllKeys<X>(items: seq<X>, keys: Keys<X>): set<string> {
    if items == [] then {} else AllKeys(items[..|items| - 1], keys) + Named(keys(items[|items| - 1]))
  }

  function Named(keys: seq<string>): set<string> { set k | k in keys }

  function File<X>(groups: map<string, seq<X>>, k: string, x: X): map<string, seq<X>> {
    groups[k := (if k in groups then groups[k] else []) + [x]]
  }

  function Filed<X>(groups: map<string, seq<X>>, k: string): seq<X> {
    if k in groups then groups[k] else []
  }

  /** Whether the groups are those of `items`, with `x` then filed under each of `named`. */
  ghost predicate Grouped<X(!new)>(groups: map<string, seq<X>>, items: seq<X>, keys: Keys<X>, x: X,
                                   named: seq<string>) {
    groups.Keys == AllKeys(items, keys) + Named(named)
    && forall k: string :: GroupedAt(groups, items, keys, x, named, k)
  }

  ghost predicate GroupedAt<X(!new)>(groups: map<string, seq<X>>, items: seq<X>, keys: Keys<X>, x: X,
                                     named: seq<string>, k: string) {
    Filed(groups, k) == InGroup(items, keys, k) + Copies(x, Occurrences(named, k))
  }

  lemma FiledNext<X(!new)>(groups: map<string, seq<X>>, items: seq<X>, keys: Keys<X>, x: X, named: seq<string>,
                           k: string, j: string)
    requires GroupedAt(groups, items, keys, x, named, j)
    ensures GroupedAt(File(groups, k, x), items, keys, x, named + [k], j)
  {
    assert (named + [k])[..|named|] == named;
    if j == k { Append(InGroup(items, keys, j), Copies(x, Occurrences(named, j)), x); }
  }

  lemma Append<X>(a: seq<X>, b: seq<X>, x: X)
    ensures (a + b) + [x] == a + (b + [x])
  {
  }

  lemma GroupedNext<X(!new)>(groups: map<string, seq<X>>, items: seq<X>, keys: Keys<X>, x: X, named: seq<string>,
                             k: string)
    requires Grouped(groups, items, keys, x, named)
    ensures Grouped(File(groups, k, x), items, keys, x, named + [k])
  {
    var after, more := File(groups, k, x), named + [k];
    forall j: string ensures GroupedAt(after, items, keys, x, more, j) {
      assert GroupedAt(groups, items, keys, x, named, j);
      FiledNext(groups, items, keys, x, named, k, j);
    }
    assert Named(more) == Named(named) + {k};
  }

  lemma GroupedWhole<X(!new)>(groups: map<string, seq<X>>, items: seq<X>, keys: Keys<X>, x: X, y: X)
    requires Grouped(groups, items, keys, x, keys(x))
    ensures Grouped(groups, items + [x], keys, y, [])
  {
    var more := items + [x];
    assert more[..|items|] == items;
    forall k: string ensures GroupedAt(groups, more, keys, y, [], k) {
      assert GroupedAt(groups, items, keys, x, keys(x), k);
      assert InGroup(more, keys, k) + [] == InGroup(more, keys, k);
    }
    assert Named([]) == {};
  }

  /** The groups of some items by one or several keys each. */
  ghost predicate IsSlice<X(!new)>(groups: map<string, seq<X>>, items: seq<X>, keys: Keys<X>) {
    groups.Keys == AllKeys(items, keys) && forall k: string :: Filed(groups, k) == InGroup(items, keys, k)
  }

  method FileItem<X(!new)>(groups: map<string, seq<X>>, x: X, keys: Keys<X>, ghost items: seq<X>)
    returns (after: map<string, seq<X>>)
    requires Grouped(groups, items, keys, x, [])
    ensures Grouped(after, items, keys, x, keys(x))
  {
    after := groups;
    var named := keys(x);
    for i := 0 to |named|
      invariant Grouped(after, items, keys, x, named[..i])
    {
      GroupedNext(after, items, keys, x, named[..i], named[i]);
      assert named[..i] + [named[i]] == named[..i + 1];
      after := File(after, named[i], x);
    }
    assert named[..|named|] == named;
  }

  lemma NothingGrouped<X(!new)>(keys: Keys<X>, x: X)
    ensures Grouped<X>(map[], [], keys, x, [])
  {
    assert Named([]) == {};
    var groups: map<string, seq<X>>, items: seq<X> := map[], [];
    forall k: string ensures GroupedAt(groups, items, keys, x, [], k) { }
  }

  lemma SliceIsGrouped<X(!new)>(groups: map<string, seq<X>>, items: seq<X>, keys: Keys<X>, x: X)
    requires Grouped(groups, items, keys, x, [])
    ensures IsSlice(groups, items, keys)
  {
    assert Named([]) == {};
    forall k: string ensures Filed(groups, k) == InGroup(items, keys, k) {
      assert GroupedAt(groups, items, keys, x, [], k);
      assert InGroup(items, keys, k) + [] == InGroup(items, keys, k);
    }
  }

  /** `slice` and `by_instance`: each item pushed onto the group of each of its keys. */
  method Slice<X(!new)>(items: seq<X>, keys: Keys<X>) returns (groups: map<string, seq<X>>)
    ensures IsSlice(groups, items, keys)
  {
    groups := map[];
    if items == [] { return; }
    NothingGrouped(keys, items[0]);
    for i := 0 to |items|
      invariant Grouped(groups, items[..i], keys, if i < |items| then items[i] else items[0], [])
    {
      groups := FileItem(groups, items[i], keys, items[..i]);
      GroupedWhole(groups, items[..i], keys, items[i], if i + 1 < |items| then items[i + 1] else items[0]);
      assert items[..i] + [items[i]] == items[..i + 1];
    }
    assert items[..|items|] == items;
    SliceIsGrouped(groups, items, keys, items[0]);
  }

  // ---- What the groups add up to ----

  type Figure = string -> int

  ghost function SumOver(keys: set<string>, f: Figure): int {
    if keys == {} then 0
    else
      var k :| k in keys;
      f(k) + SumOver(keys - {k}, f)
  }

  lemma {:induction false} SumOverTake(keys: set<string>, f: Figure, k: string)
    requires k in keys
    ensures SumOver(keys, f) == f(k) + SumOver(keys - {k}, f)
    decreases |keys|
  {
    var j :| j in keys && SumOver(keys, f) == f(j) + SumOver(keys - {j}, f);
    if j != k {
      SumOverTake(keys - {j}, f, k);
      SumOverTake(keys - {k}, f, j);
      assert keys - {j} - {k} == keys - {k} - {j};
    }
  }

  /** A figure that is another plus a multiple of a third sums to just that. */
  lemma {:induction false} SumOverCombines(keys: set<string>, f: Figure, g: Figure, h: Figure, c: int)
    requires forall k | k in keys :: f(k) == g(k) + c * h(k)
    ensures SumOver(keys, f) == SumOver(keys, g) + c * SumOver(keys, h)
    decreases |keys|
  {
    if keys != {} {
      var k :| k in keys;
      SumOverCombines(keys - {k}, f, g, h, c);
      SumOverTake(keys, f, k);
      SumOverTake(keys, g, k);
      SumOverTake(keys, h, k);
      Distribute(c, h(k), SumOver(keys - {k}, h));
    }
  }

  lemma Distribute(c: int, a: int, b: int)
    ensures c * (a + b) == c * a + c * b
  {
  }

  lemma {:induction false} SumOverZeros(keys: set<string>, more: set<string>, f: Figure)
    requires keys <= more && forall k | k in more - keys :: f(k) == 0
    ensures SumOver(more, f) == SumOver(keys, f)
    decreases |more|
  {
    if more - keys != {} {
      var k :| k in more - keys;
      SumOverTake(more, f, k);
      SumOverZeros(keys, more - {k}, f);
    } else {
      assert more == keys;
    }
  }

  function CountIn(named: seq<string>): Figure { (k: string) => Occurrences(named, k) }

  function One(key: string): Figure { (k: string) => if k == key then 1 else 0 }

  lemma SumOverOne(keys: set<string>, key: string)
    requires key in keys
    ensures SumOver(keys, One(key)) == 1
  {
    SumOverTake(keys, One(key), key);
    SumOverZeros({}, keys - {key}, One(key));
  }

  /** Every occurrence is counted once. */
  lemma {:induction false} CountsAddUp(keys: set<string>, named: seq<string>)
    requires forall k | k in named :: k in keys
    ensures SumOver(keys, CountIn(named)) == |named|
  {
    if named == [] {
      SumOverZeros({}, keys, CountIn(named));
    } else {
      var n := |named| - 1;
      CountsAddUp(keys, named[..n]);
      SumOverOne(keys, named[n]);
      SumOverCombines(keys, CountIn(named), CountIn(named[..n]), One(named[n]), 1);
    }
  }

  function GroupTotal<X>(items: seq<X>, keys: Keys<X>, date: Dating<X>, weight: Weight<X>, w: Window): Figure {
    (k: string) => Total(InGroup(items, keys, k), date, weight, w)
  }

  lemma {:induction false} CopiesTotal<X>(before: seq<X>, x: X, n: nat, date: Dating<X>, weight: Weight<X>, w: Window)
    ensures Total(before + Copies(x, n), date, weight, w)
         == Total(before, date, weight, w) + Share(x, date, weight, w) * n
  {
    if n == 0 {
      assert before + Copies(x, n) == before;
    } else {
      CopiesTotal(before, x, n - 1, date, weight, w);
      Append(before, Copies(x, n - 1), x);
      TotalNext(before + Copies(x, n - 1), x, date, weight, w);
      OneMoreTime(Share(x, date, weight, w), n);
    }
  }

  lemma OneMoreTime(s: int, n: nat)
    requires n > 0
    ensures s * (n - 1) + s == s * n
  {
  }

  lemma {:induction false} NotInGroup<X>(items: seq<X>, keys: Keys<X>, k: string)
    requires k !in AllKeys(items, keys)
    ensures InGroup(items, keys, k) == []
  {
    if items != [] {
      NotInGroup(items[..|items| - 1], keys, k);
      NotNamed(keys(items[|items| - 1]), k);
    }
  }

  lemma {:induction false} NotNamed(named: seq<string>, k: string)
    requires k !in named
    ensures Occurrences(named, k) == 0
  {
    if named != [] { NotNamed(named[..|named| - 1], k); }
  }

  /** An item's share, once for each key it is filed under. */
  function Weighed<X>(keys: Keys<X>, weight: Weight<X>): Weight<X> { (x: X) => weight(x) * |keys(x)| }

  /** Main result: the totals of the groups add up to the whole, with each item taken as
      many times as it has keys: exactly once in a slice by a single key. */
  lemma {:induction false} GroupsAddUp<X>(items: seq<X>, keys: Keys<X>, date: Dating<X>, weight: Weight<X>, w: Window)
    ensures SumOver(AllKeys(items, keys), GroupTotal(items, keys, date, weight, w))
         == Total(items, date, Weighed(keys, weight), w)
  {
    if items != [] {
      var n := |items| - 1;
      var x, all, before := items[n], AllKeys(items, keys), AllKeys(items[..n], keys);
      var now, earlier := GroupTotal(items, keys, date, weight, w), GroupTotal(items[..n], keys, date, weight, w);
      GroupsAddUp(items[..n], keys, date, weight, w);
      forall k | k in all - before ensures earlier(k) == 0 {
        NotInGroup(items[..n], keys, k);
      }
      SumOverZeros(before, all, earlier);
      forall k | k in all ensures now(k) == earlier(k) + Share(x, date, weight, w) * CountIn(keys(x))(k) {
        CopiesTotal(InGroup(items[..n], keys, k), x, Occurrences(keys(x), k), date, weight, w);
      }
      SumOverCombines(all, now, earlier, CountIn(keys(x)), Share(x, date, weight, w));
      CountsAddUp(all, keys(x));
    }
  }

  /** Sliced by a single key, the groups add up to the whole. */
  lemma {:induction false} SingleKeyWeighs<X>(items: seq<X>, keys: Keys<X>, date: Dating<X>, weight: Weight<X>,
                                              w: Window)
    requires forall i | 0 <= i < |items| :: |keys(items[i])| == 1
    ensures Total(items, date, Weighed(keys, weight), w) == Total(items, date, weight, w)
  {
    if items != [] { SingleKeyWeighs(items[..|items| - 1], keys, date, weight, w); }
  }

  // ---- Slots ----

  type Slot<!X> = X -> Option<nat>

  /** How many items fall in one slot. */
  function InSlot<X>(items: seq<X>, slot: Slot<X>, b: nat): nat {
    if items == [] then 0
    else InSlot(items[..|items| - 1], slot, b) + if slot(items[|items| - 1]) == Some(b) then 1 else 0
  }

  /** How many items fall in any. */
  function Slotted<X>(items: seq<X>, slot: Slot<X>): nat {
    if items == [] then 0
    else Slotted(items[..|items| - 1], slot) + if slot(items[|items| - 1]).Some? then 1 else 0
  }

  /** Counts the items slot by slot, in an array of `n`. */
  method FillSlots<X>(items: seq<X>, slot: Slot<X>, n: nat) returns (counts: array<nat>)
    requires forall i | 0 <= i < |items| && slot(items[i]).Some? :: slot(items[i]).value < n
    ensures fresh(counts) && counts.Length == n && forall b | 0 <= b < n :: counts[b] == InSlot(items, slot, b)
  {
    counts := new nat[n](_ => 0);
    for i := 0 to |items|
      invariant forall b | 0 <= b < n :: counts[b] == InSlot(items[..i], slot, b)
    {
      assert items[..i + 1][..i] == items[..i];
      var b := slot(items[i]);
      if b.Some? {
        counts[b.value] := counts[b.value] + 1;
      }
    }
    assert items[..|items|] == items;
  }

  /** The first `n` slots, added up. */
  function SumOfSlots<X>(items: seq<X>, slot: Slot<X>, n: nat): nat {
    if n == 0 then 0 else SumOfSlots(items, slot, n - 1) + InSlot(items, slot, n - 1)
  }

  lemma {:induction false} SlotsNext<X>(items: seq<X>, slot: Slot<X>, n: nat)
    requires items != []
    ensures var b := slot(items[|items| - 1]);
            SumOfSlots(items, slot, n)
            == SumOfSlots(items[..|items| - 1], slot, n) + if b.Some? && b.value < n then 1 else 0
  {
    if n > 0 { SlotsNext(items, slot, n - 1); }
  }

  lemma {:induction false} NothingSlotted<X>(slot: Slot<X>, n: nat)
    ensures SumOfSlots([], slot, n) == 0
  {
    if n > 0 { NothingSlotted(slot, n - 1); }
  }

  /** Every item that has a slot is in exactly one of them. */
  lemma {:induction false} SlotsAddUp<X>(items: seq<X>, slot: Slot<X>, n: nat)
    requires forall i | 0 <= i < |items| && slot(items[i]).Some? :: slot(items[i]).value < n
    ensures SumOfSlots(items, slot, n) == Slotted(items, slot)
  {
    if items == [] {
      NothingSlotted(slot, n);
    } else {
      SlotsAddUp(items[..|items| - 1], slot, n);
      SlotsNext(items, slot, n);
    }
  }

  /** Slots within a window: an item is slotted exactly when it is dated inside. */
  lemma {:induction false} SlottedIsTotal<X>(items: seq<X>, slot: Slot<X>, date: Dating<X>, weight: Weight<X>,
                                             w: Window)
    requires forall i | 0 <= i < |items| ::
               Share(items[i], date, weight, w) == if slot(items[i]).Some? then 1 else 0
    ensures Slotted(items, slot) == Total(items, date, weight, w)
  {
    if items != [] { SlottedIsTotal(items[..|items| - 1], slot, date, weight, w); }
  }

  // ---- What is counted, said of the items ----

  function DatedIn<X>(date: Dating<X>, w: Window): X -> bool {
    (x: X) => match date(x) case None => false case Some(at) => w.from <= at < w.until
  }

  /** A total is what the items dated in the window weigh. */
  lemma {:induction false} TotalMeaning<X>(items: seq<X>, date: Dating<X>, weight: Weight<X>, w: Window)
    ensures Total(items, date, weight, w) == SumBy(items, Weigh(DatedIn(date, w), weight))
  {
    if items != [] {
      TotalMeaning(items[..|items| - 1], date, weight, w);
      SumByNext(items, Weigh(DatedIn(date, w), weight));
    }
  }

  /** Where each weighs one, it is how many they are. */
  lemma {:induction false} CountMeaning<X>(items: seq<X>, date: Dating<X>, weight: Weight<X>, w: Window)
    requires forall x :: weight(x) == 1
    ensures Total(items, date, weight, w) == HowMany(items, DatedIn(date, w))
  {
    if items != [] {
      CountMeaning(items[..|items| - 1], date, weight, w);
      HowManyNext(items, DatedIn(date, w));
    }
  }

  function Falls<X>(slot: Slot<X>, b: nat): X -> bool { (x: X) => slot(x) == Some(b) }

  lemma {:induction false} SlotMeaning<X>(items: seq<X>, slot: Slot<X>, b: nat)
    ensures InSlot(items, slot, b) == HowMany(items, Falls(slot, b))
  {
    if items != [] {
      SlotMeaning(items[..|items| - 1], slot, b);
      HowManyNext(items, Falls(slot, b));
    }
  }

  function KeyIs(k: string): string -> bool { (j: string) => j == k }

  lemma {:induction false} OccurrencesMeaning(keys: seq<string>, k: string)
    ensures Occurrences(keys, k) == HowMany(keys, KeyIs(k))
  {
    if keys != [] {
      OccurrencesMeaning(keys[..|keys| - 1], k);
      HowManyNext(keys, KeyIs(k));
    }
  }

  /** How often an item that passes names `k`. */
  function TimesUnder<X>(keys: Keys<X>, k: string, test: X -> bool): X -> int {
    (x: X) => if test(x) then HowMany(keys(x), KeyIs(k)) else 0
  }

  lemma {:induction false} CopiesPass<X>(before: seq<X>, x: X, n: nat, test: X -> bool)
    ensures HowMany(before + Copies(x, n), test) == HowMany(before, test) + if test(x) then n else 0
  {
    if n == 0 {
      assert before + Copies(x, n) == before;
    } else {
      CopiesPass(before, x, n - 1, test);
      Append(before, Copies(x, n - 1), x);
      HowManyMore(before + Copies(x, n - 1), x, test);
    }
  }

  /** A group holds each item as often as the item names its key. */
  lemma {:induction false} GroupMeaning<X>(items: seq<X>, keys: Keys<X>, k: string, test: X -> bool)
    ensures HowMany(InGroup(items, keys, k), test) == SumBy(items, TimesUnder(keys, k, test))
  {
    if items != [] {
      var n := |items| - 1;
      GroupMeaning(items[..n], keys, k, test);
      SumByNext(items, TimesUnder(keys, k, test));
      OccurrencesMeaning(keys(items[n]), k);
      CopiesPass(InGroup(items[..n], keys, k), items[n], Occurrences(keys(items[n]), k), test);
    }
  }

  function Keyed<X>(keys: Keys<X>, k: string): X -> bool { (x: X) => keys(x) == [k] }

  /** Sliced by a single key, a group is the items of that key, in order. */
  lemma {:induction false} SingleGroup<X>(items: seq<X>, keys: Keys<X>, k: string)
    requires forall i | 0 <= i < |items| :: |keys(items[i])| == 1
    ensures InGroup(items, keys, k) == Filter(items, Keyed(keys, k))
  {
    if items != [] {
      var n := |items| - 1;
      SingleGroup(items[..n], keys, k);
      OneKey(keys(items[n]), k);
      assert Copies(items[n], 1) == Copies(items[n], 0) + [items[n]] == [items[n]];
    }
  }

  lemma OneKey(keys: seq<string>, k: string)
    requires |keys| == 1
    ensures Occurrences(keys, k) == if keys == [k] then 1 else 0
  {
    assert keys[..0] == [] && keys == [keys[0]];
  }
}
