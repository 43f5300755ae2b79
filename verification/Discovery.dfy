/** The relays one invocation dials, and the rounds in which it finds more. */
module Discovery {
  import opened Prelude
  import opened Ranking
  import opened Events
  import opened Schema
  import opened Pipeline
  import opened Reachability

  /** How a url is normalised before it is dialled; none for one that does not parse. */
  type Normal = string -> Option<Url>

  /** Whether a relay answers when dialled. */
  type Dial = Url -> bool

  /** Whether one of the urls is this relay. */
  predicate Names(urls: seq<string>, normal: Normal, relay: Url) {
    exists i | 0 <= i < |urls| :: normal(urls[i]) == Some(relay)
  }

  // ---- The client ----

  /** The relays in play once every configured url has been gone through: those that
      were, and those that answer this time, each once, in configured order. */
  function Attached(configured: seq<string>, relays: seq<Url>, normal: Normal, dial: Dial): seq<Url> {
    if configured == [] then []
    else
      var before := Attached(configured[..|configured| - 1], relays, normal, dial);
      var relay := normal(configured[|configured| - 1]);
      if relay.None? || relay.value in before then before
      else if relay.value in relays || dial(relay.value) then before + [relay.value]
      else before
  }

  /** The relays that are named and not in play, each once. */
  function Missing(configured: seq<string>, relays: seq<Url>, normal: Normal): seq<Url> {
    if configured == [] then []
    else
      var before := Missing(configured[..|configured| - 1], relays, normal);
      var relay := normal(configured[|configured| - 1]);
      if relay.None? || relay.value in relays || relay.value in before then before else before + [relay.value]
  }

  class RelayClient {
    var configured: seq<string>
    var relays: seq<Url>

    /** Dials what it is given, keeping what answers. */
    constructor (urls: seq<string>, normal: Normal, dial: Dial)
      ensures configured == urls && relays == Attached(urls, [], normal, dial)
    {
      configured, relays := urls, Attached(urls, [], normal, dial);
    }

    method Reconfigure(urls: seq<string>)
      modifies this`configured
      ensures configured == urls
    {
      configured := urls;
    }

    method Reattach(normal: Normal, dial: Dial)
      modifies this`relays
      ensures relays == Attached(configured, old(relays), normal, dial)
    {
      var attached: seq<Url> := [];
      for i := 0 to |configured|
        invariant relays == old(relays)
        invariant attached == Attached(configured[..i], relays, normal, dial)
      {
        assert configured[..i + 1][..i] == configured[..i];
        var parsed := normal(configured[i]);
        if parsed.Some? && parsed.value !in attached {
          if parsed.value in relays {
            attached := attached + [parsed.value];
          } else if dial(parsed.value) {
            attached := attached + [parsed.value];
          }
        }
      }
      assert configured[..|configured|] == configured;
      relays := attached;
    }

    method Unattached(normal: Normal) returns (missing: seq<Url>)
      ensures missing == Missing(configured, relays, normal)
    {
      missing := [];
      for i := 0 to |configured|
        invariant missing == Missing(configured[..i], relays, normal)
      {
        assert configured[..i + 1][..i] == configured[..i];
        var parsed := normal(configured[i]);
        if parsed.Some? && parsed.value !in relays && parsed.value !in missing {
          missing := missing + [parsed.value];
        }
      }
      assert configured[..|configured|] == configured;
    }
  }

  /** Reattaching keeps every relay in play that is still named, adds only named relays
      that answer, and holds none of them twice. */
  lemma {:induction false} AttachedMeaning(configured: seq<string>, relays: seq<Url>, normal: Normal, dial: Dial,
                                           relay: Url)
    ensures Distinct(Attached(configured, relays, normal, dial))
    ensures relay in Attached(configured, relays, normal, dial)
       <==> Names(configured, normal, relay) && (relay in relays || dial(relay))
  {
    if configured != [] {
      var n := |configured| - 1;
      AttachedMeaning(configured[..n], relays, normal, dial, relay);
      NamesNext(configured, normal, relay);
      if normal(configured[n]).Some? {
        AttachedMeaning(configured[..n], relays, normal, dial, normal(configured[n]).value);
      }
    }
  }

  /** Whether url number `at` is the first to name this relay. */
  predicate NamesFirst(urls: seq<string>, normal: Normal, relay: Url, at: nat) {
    at < |urls| && normal(urls[at]) == Some(relay) && forall i | 0 <= i < at :: normal(urls[i]) != Some(relay)
  }

  lemma StillNamesFirst(urls: seq<string>, normal: Normal, relay: Url, at: nat)
    requires urls != [] && NamesFirst(urls[..|urls| - 1], normal, relay, at)
    ensures NamesFirst(urls, normal, relay, at)
  {
    assert forall i | 0 <= i < |urls| - 1 :: urls[..|urls| - 1][i] == urls[i];
  }

  lemma LastNamesFirst(urls: seq<string>, normal: Normal, relay: Url)
    requires urls != [] && normal(urls[|urls| - 1]) == Some(relay) && !Names(urls[..|urls| - 1], normal, relay)
    ensures NamesFirst(urls, normal, relay, |urls| - 1)
  {
    forall i | 0 <= i < |urls| - 1 ensures normal(urls[i]) != Some(relay) {
      assert urls[..|urls| - 1][i] == urls[i];
    }
  }

  /** The relays in play stand in the order in which they are first named. */
  lemma {:induction false} AttachedInOrder(configured: seq<string>, relays: seq<Url>, normal: Normal, dial: Dial)
    returns (at: seq<nat>)
    ensures var attached := Attached(configured, relays, normal, dial);
            && |at| == |attached| && (forall k | 0 <= k < |at| :: NamesFirst(configured, normal, attached[k], at[k]))
            && forall i, j | 0 <= i < j < |at| :: at[i] < at[j]
  {
    if configured == [] { return []; }
    var n := |configured| - 1;
    var before := Attached(configured[..n], relays, normal, dial);
    at := AttachedInOrder(configured[..n], relays, normal, dial);
    forall k | 0 <= k < |at| ensures NamesFirst(configured, normal, before[k], at[k]) && at[k] < n {
      StillNamesFirst(configured, normal, before[k], at[k]);
    }
    if Attached(configured, relays, normal, dial) != before {
      var relay := normal(configured[n]).value;
      AttachedMeaning(configured[..n], relays, normal, dial, relay);
      LastNamesFirst(configured, normal, relay);
      at := at + [n];
    }
  }

  lemma NamesNext(urls: seq<string>, normal: Normal, relay: Url)
    requires urls != []
    ensures Names(urls, normal, relay)
       <==> Names(urls[..|urls| - 1], normal, relay) || normal(urls[|urls| - 1]) == Some(relay)
  {
    var n := |urls| - 1;
    if i :| 0 <= i < n && normal(urls[..n][i]) == Some(relay) { assert normal(urls[i]) == Some(relay); }
    if i :| 0 <= i < |urls| && normal(urls[i]) == Some(relay) && i < n { assert normal(urls[..n][i]) == Some(relay); }
  }

  lemma {:induction false} MissingMeaning(configured: seq<string>, relays: seq<Url>, normal: Normal, relay: Url)
    ensures Distinct(Missing(configured, relays, normal))
    ensures relay in Missing(configured, relays, normal) <==> Names(configured, normal, relay) && relay !in relays
  {
    if configured != [] {
      var n := |configured| - 1;
      MissingMeaning(configured[..n], relays, normal, relay);
      NamesNext(configured, normal, relay);
    }
  }

  // ---- The connection set ----

  type RelayTable = map<Url, RelayRow>

  /** The rows of a table, first seen first. */
  type InOrder = RelayTable -> seq<Url>

  ghost predicate Lists(inOrder: InOrder) {
    forall t: RelayTable, url: Url :: url in inOrder(t) <==> url in t
  }

  /** The table once the configured relays are in it. */
  function WithConfigured(t: RelayTable, urls: seq<Url>, now: int): RelayTable {
    if urls == [] then t
    else
      var before := WithConfigured(t, urls[..|urls| - 1], now);
      var url := urls[|urls| - 1];
      if url in before then before else before[url := RelayRow(Config, now)]
  }

  /** Those of the listed relays that a relay list named and the set does not hold yet,
      behind it. */
  function Discovered(first: seq<Url>, t: RelayTable, listed: seq<Url>): seq<Url> {
    if listed == [] then first
    else
      var before := Discovered(first, t, listed[..|listed| - 1]);
      var url := listed[|listed| - 1];
      if url in t && t[url].source.Nip65? && url !in before then before + [url] else before
  }

  function ConnectionSet(t: RelayTable, configured: seq<Url>, discover: bool, inOrder: InOrder, now: int): seq<Url> {
    var known := WithConfigured(t, configured, now);
    if discover then Discovered(configured, known, inOrder(known)) else configured
  }

  /** Records the configured relays, and reads back who to dial. */
  method ReadConnectionSet(t: RelayTable, configured: seq<Url>, discover: bool, inOrder: InOrder, now: int)
    returns (after: RelayTable, urls: seq<Url>)
    ensures after == WithConfigured(t, configured, now)
    ensures urls == ConnectionSet(t, configured, discover, inOrder, now)
  {
    after, urls := t, configured;
    for i := 0 to |configured|
      invariant after == WithConfigured(t, configured[..i], now)
    {
      assert configured[..i + 1][..i] == configured[..i];
      if configured[i] !in after { after := after[configured[i] := RelayRow(Config, now)]; }
    }
    assert configured[..|configured|] == configured;
    if discover {
      var listed := inOrder(after);
      for i := 0 to |listed|
        invariant urls == Discovered(configured, after, listed[..i])
      {
        assert listed[..i + 1][..i] == listed[..i];
        if listed[i] in after && after[listed[i]].source.Nip65? && listed[i] !in urls { urls := urls + [listed[i]]; }
      }
      assert listed[..|listed|] == listed;
    }
  }

  /** Rows are only ever added, and keep the source that named them first. */
  ghost predicate Grows(before: RelayTable, after: RelayTable) {
    forall url | url in before :: url in after && after[url] == before[url]
  }

  /** Every delivery grows the table so. */
  lemma StepGrows(r: Rules, t: Tables, d: Delivery)
    ensures Grows(t.relays, Step(r, t, d).relays)
  {
  }

  lemma {:induction false} ConfiguredGrows(t: RelayTable, urls: seq<Url>, now: int)
    ensures Grows(t, WithConfigured(t, urls, now))
  {
    if urls != [] { ConfiguredGrows(t, urls[..|urls| - 1], now); }
  }

  lemma {:induction false} DiscoveredMeaning(first: seq<Url>, t: RelayTable, listed: seq<Url>, url: Url)
    ensures url in Discovered(first, t, listed) <==> url in first || (url in listed && url in t && t[url].source.Nip65?)
    ensures |first| <= |Discovered(first, t, listed)| && Discovered(first, t, listed)[..|first|] == first
  {
    if listed != [] {
      var n := |listed| - 1;
      assert listed == listed[..n] + [listed[n]];
      DiscoveredMeaning(first, t, listed[..n], url);
    } else {
      assert first[..|first|] == first;
    }
  }

  /** The relays behind the configured ones stand in the order they are listed in, and none
      of them stands there before. */
  lemma {:induction false} DiscoveredInOrder(first: seq<Url>, t: RelayTable, listed: seq<Url>) returns (at: seq<nat>)
    ensures var urls := Discovered(first, t, listed);
            && |urls| == |first| + |at|
            && (forall k | 0 <= k < |at| ::
                  at[k] < |listed| && urls[|first| + k] == listed[at[k]] && listed[at[k]] !in urls[..|first| + k])
            && forall i, j | 0 <= i < j < |at| :: at[i] < at[j]
  {
    if listed == [] {
      at := [];
    } else {
      var n := |listed| - 1;
      at := DiscoveredInOrder(first, t, listed[..n]);
      var before, urls := Discovered(first, t, listed[..n]), Discovered(first, t, listed);
      forall k | 0 <= k < |at|
        ensures urls[|first| + k] == listed[at[k]] && urls[..|first| + k] == before[..|first| + k]
      {
        assert urls[..|before|] == before;
      }
      if urls != before {
        assert urls[..|before|] == before;
        at := at + [n];
      }
    }
  }

  /** Recording the configured relays adds a row for each that had none, and changes no
      other. */
  lemma {:induction false} ConfiguredMeaning(t: RelayTable, urls: seq<Url>, now: int, url: Url)
    ensures var after := WithConfigured(t, urls, now);
            && (url in after <==> url in t || url in urls)
            && (url in after ==> after[url] == if url in t then t[url] else RelayRow(Config, now))
  {
    if urls != [] {
      var n := |urls| - 1;
      ConfiguredMeaning(t, urls[..n], now, url);
      assert urls == urls[..n] + [urls[n]];
    }
  }

  lemma {:induction false} ConfiguredRows(t: RelayTable, urls: seq<Url>, now: int, url: Url)
    ensures var after := WithConfigured(t, urls, now);
            url in after && after[url].source.Nip65? <==> url in t && t[url].source.Nip65?
  {
    if urls != [] { ConfiguredRows(t, urls[..|urls| - 1], now, url); }
  }

  /** The configured relays come first and are never dropped; behind them stand those a
      relay list named, when discovery is on. */
  lemma ConnectionSetMeaning(t: RelayTable, configured: seq<Url>, discover: bool, inOrder: InOrder, now: int, url: Url)
    requires Lists(inOrder)
    ensures var urls := ConnectionSet(t, configured, discover, inOrder, now);
            && |configured| <= |urls| && urls[..|configured|] == configured
            && (url in urls <==> url in configured || (discover && url in t && t[url].source.Nip65?))
  {
    var known := WithConfigured(t, configured, now);
    DiscoveredMeaning(configured, known, inOrder(known), url);
    ConfiguredRows(t, configured, now, url);
    assert configured[..|configured|] == configured;
  }

  /** While the table grows, the set only grows. */
  lemma ConnectionSetGrows(t: RelayTable, later: RelayTable, configured: seq<Url>, discover: bool, inOrder: InOrder,
                           now: int)
    requires Lists(inOrder) && Grows(t, later)
    ensures forall url | url in ConnectionSet(t, configured, discover, inOrder, now) ::
              url in ConnectionSet(later, configured, discover, inOrder, now)
  {
    forall url | url in ConnectionSet(t, configured, discover, inOrder, now)
      ensures url in ConnectionSet(later, configured, discover, inOrder, now)
    {
      ConnectionSetMeaning(t, configured, discover, inOrder, now, url);
      ConnectionSetMeaning(later, configured, discover, inOrder, now, url);
    }
  }

  /** What an operator configured, and the clock of the run. */
  datatype Settings = Settings(configured: seq<Url>, discover: bool, now: int, normal: Normal, inOrder: InOrder)

  function DialSet(s: Settings, t: RelayTable): seq<Url> {
    ConnectionSet(t, s.configured, s.discover, s.inOrder, s.now)
  }

  /** With discovery on, every relay an archived list names is dialled. */
  lemma NamedIsDialled(r: Rules, attempts: seq<Attempt>, s: Settings, id: EventId, url: Url)
    requires Lists(s.inOrder) && s.discover && id in Pipeline.Run(r, attempts).events
    requires url in RelaysNamed(r.parsers, Pipeline.Run(r, attempts).events[id].event)
    ensures url in DialSet(s, Pipeline.Run(r, attempts).relays)
  {
    RelaysAreNamed(r, attempts, url);
    ConnectionSetMeaning(Pipeline.Run(r, attempts).relays, s.configured, s.discover, s.inOrder, s.now, url);
  }

  /** Hands the client the set as the table has it now, and reports whether it names a
      relay that is not in play; nothing is dialled. */
  method Rediscover(client: RelayClient, s: Settings, t: RelayTable) returns (after: RelayTable, changed: bool)
    modifies client`configured
    ensures after == if s.discover then WithConfigured(t, s.configured, s.now) else t
    ensures client.configured == if s.discover then DialSet(s, t) else old(client.configured)
    ensures changed <==> s.discover && exists relay :: Names(DialSet(s, t), s.normal, relay) && relay !in client.relays
  {
    if !s.discover { return t, false; }
    var urls;
    after, urls := ReadConnectionSet(t, s.configured, s.discover, s.inOrder, s.now);
    client.Reconfigure(urls);
    var missing := client.Unattached(s.normal);
    changed := missing != [];
    if changed {
      MissingMeaning(urls, client.relays, s.normal, missing[0]);
    }
    forall relay ensures relay in missing <==> Names(urls, s.normal, relay) && relay !in client.relays {
      MissingMeaning(urls, client.relays, s.normal, relay);
    }
  }

  // ---- The rounds ----

  const MAX_DISCOVERY_ROUNDS := 3

  /** What walking some relays leaves in the table, in each round. */
  type Walks = (nat, seq<Url>, RelayTable) -> RelayTable

  ghost predicate WalksGrow(walks: Walks) {
    forall n, relays, t :: Grows(t, walks(n, relays, t))
  }

  /** What the run was given: its settings, which relays answer in each round, and what
      walking them leaves behind. */
  datatype Run = Run(settings: Settings, dials: nat -> Dial, walks: Walks)

  /** Every attached relay is named by what is known. */
  ghost predicate StillNamed(s: Settings, relays: seq<Url>, t: RelayTable) {
    forall relay | relay in relays :: Names(DialSet(s, t), s.normal, relay)
  }

  lemma StaysNamed(s: Settings, relays: seq<Url>, t: RelayTable, later: RelayTable)
    requires Lists(s.inOrder) && Grows(t, later) && StillNamed(s, relays, t)
    ensures StillNamed(s, relays, later)
  {
    var now := DialSet(s, t);
    var next := DialSet(s, later);
    ConnectionSetGrows(t, later, s.configured, s.discover, s.inOrder, s.now);
    forall relay | relay in relays ensures Names(next, s.normal, relay) {
      var i :| 0 <= i < |now| && s.normal(now[i]) == Some(relay);
      assert now[i] in next;
    }
  }

  function NotYet(relays: seq<Url>, before: seq<Url>): seq<Url> {
    if relays == [] then []
    else
      NotYet(relays[..|relays| - 1], before) +
      if relays[|relays| - 1] in before then [] else [relays[|relays| - 1]]
  }

  lemma {:induction false} NotYetMeaning(relays: seq<Url>, before: seq<Url>, relay: Url)
    requires Distinct(relays)
    ensures Distinct(NotYet(relays, before))
    ensures relay in NotYet(relays, before) <==> relay in relays && relay !in before
  {
    if relays != [] {
      var n := |relays| - 1;
      NotYetMeaning(relays[..n], before, relay);
      NotYetMeaning(relays[..n], before, relays[n]);
      assert relays == relays[..n] + [relays[n]];
    }
  }

  /** Whether every relay now named was walked or does not answer. */
  ghost predicate AllWalked(s: Settings, walked: seq<Url>, t: RelayTable, dial: Dial) {
    forall relay | Names(DialSet(s, t), s.normal, relay) :: relay in walked || !dial(relay)
  }

  lemma {:induction false} ConfiguredHas(t: RelayTable, urls: seq<Url>, now: int)
    ensures forall url | url in urls :: url in WithConfigured(t, urls, now)
  {
    if urls != [] {
      ConfiguredHas(t, urls[..|urls| - 1], now);
      assert urls == urls[..|urls| - 1] + [urls[|urls| - 1]];
    }
  }

  lemma {:induction false} ConfiguredAlready(t: RelayTable, urls: seq<Url>, now: int)
    requires forall url | url in urls :: url in t
    ensures WithConfigured(t, urls, now) == t
  {
    if urls != [] { ConfiguredAlready(t, urls[..|urls| - 1], now); }
  }

  /** Recording the configured relays does not change who to dial. */
  lemma SettledSet(s: Settings, t: RelayTable)
    ensures DialSet(s, WithConfigured(t, s.configured, s.now)) == DialSet(s, t)
  {
    ConfiguredHas(t, s.configured, s.now);
    ConfiguredAlready(WithConfigured(t, s.configured, s.now), s.configured, s.now);
  }

  lemma NothingMissing(s: Settings, relays: seq<Url>, urls: seq<Url>, t: RelayTable, dial: Dial)
    requires urls == DialSet(s, t) && Missing(urls, relays, s.normal) == []
    ensures AllWalked(s, relays, t, dial)
  {
    forall relay | Names(urls, s.normal, relay) ensures relay in relays {
      MissingMeaning(urls, relays, s.normal, relay);
    }
  }

  lemma NobodyAnswered(s: Settings, before: seq<Url>, urls: seq<Url>, t: RelayTable, dial: Dial)
    requires urls == DialSet(s, t)
    requires forall relay | relay in Attached(urls, before, s.normal, dial) :: relay in before
    ensures AllWalked(s, before, t, dial)
  {
    forall relay | Names(urls, s.normal, relay) ensures relay in before || !dial(relay) {
      AttachedMeaning(urls, before, s.normal, dial, relay);
    }
  }

  // ---- What a run of rounds is ----

  function Joined(legs: seq<seq<Url>>): seq<Url> {
    if legs == [] then [] else Joined(legs[..|legs| - 1]) + legs[|legs| - 1]
  }

  function Configured(s: Settings, t: RelayTable): RelayTable { WithConfigured(t, s.configured, s.now) }

  /** The table after every leg has been walked, the configured relays recorded between
      two. */
  function TableAfter(run: Run, t: RelayTable, legs: seq<seq<Url>>): RelayTable {
    if legs == [] then t
    else
      var n := |legs| - 1;
      var before := TableAfter(run, t, legs[..n]);
      run.walks(n, legs[n], if n == 0 then before else Configured(run.settings, before))
  }

  /** Whether each leg but the first is of relays that were named by then and answered in
      its round. */
  ghost predicate Travels(run: Run, t: RelayTable, legs: seq<seq<Url>>) {
    |legs| <= 1 ||
    var n := |legs| - 1;
    Travels(run, t, legs[..n]) && IsLeg(run, TableAfter(run, t, legs[..n]), legs[n], n)
  }

  ghost predicate IsLeg(run: Run, t: RelayTable, leg: seq<Url>, n: nat)
    requires n > 0
  {
    leg != [] && forall relay | relay in leg ::
      run.dials(n - 1)(relay) && Names(DialSet(run.settings, t), run.settings.normal, relay)
  }

  lemma OneMoreLeg(run: Run, t: RelayTable, legs: seq<seq<Url>>, leg: seq<Url>)
    requires legs != [] && Travels(run, t, legs) && IsLeg(run, TableAfter(run, t, legs), leg, |legs|)
    ensures Travels(run, t, legs + [leg]) && Joined(legs + [leg]) == Joined(legs) + leg
    ensures TableAfter(run, t, legs + [leg])
         == run.walks(|legs|, leg, Configured(run.settings, TableAfter(run, t, legs)))
  {
    assert (legs + [leg])[..|legs|] == legs;
  }

  lemma FirstLeg(run: Run, t: RelayTable, leg: seq<Url>)
    ensures Travels(run, t, [leg]) && Joined([leg]) == leg && TableAfter(run, t, [leg]) == run.walks(0, leg, t)
  {
    assert [leg][..0] == [];
  }

  lemma NewOnesAnswered(run: Run, t: RelayTable, urls: seq<Url>, before: seq<Url>, n: nat)
    requires urls == DialSet(run.settings, t) && n > 0
    requires var now := Attached(urls, before, run.settings.normal, run.dials(n - 1));
             Distinct(now) && NotYet(now, before) != []
    ensures IsLeg(run, t, NotYet(Attached(urls, before, run.settings.normal, run.dials(n - 1)), before), n)
  {
    var now := Attached(urls, before, run.settings.normal, run.dials(n - 1));
    NewOnes(now, before);
    forall relay | relay in NotYet(now, before)
      ensures run.dials(n - 1)(relay) && Names(urls, run.settings.normal, relay)
    {
      AttachedMeaning(urls, before, run.settings.normal, run.dials(n - 1), relay);
    }
  }

  /** Whether what has been walked, each relay once, is what is in play, all of it named. */
  ghost predicate IsInPlay(run: Run, t: RelayTable, walked: seq<Url>, relays: seq<Url>, now: RelayTable) {
    && Distinct(walked) && Distinct(relays) && (forall relay :: relay in walked <==> relay in relays)
    && StillNamed(run.settings, relays, now) && Grows(t, now)
  }

  /** Whether that is, leg by leg, how the table came to stand so. */
  ghost predicate HasCome(run: Run, t: RelayTable, legs: seq<seq<Url>>, walked: seq<Url>, now: RelayTable) {
    legs != [] && walked == Joined(legs) && Travels(run, t, legs) && now == TableAfter(run, t, legs)
  }

  ghost predicate IsUnderway(run: Run, t: RelayTable, legs: seq<seq<Url>>, walked: seq<Url>, relays: seq<Url>,
                             now: RelayTable)
  {
    IsInPlay(run, t, walked, relays, now) && HasCome(run, t, legs, walked, now)
  }

  /** The relays in play after the next round, and those of them that are new. */
  function NextRelays(run: Run, now: RelayTable, relays: seq<Url>, n: nat): seq<Url> {
    Attached(DialSet(run.settings, now), relays, run.settings.normal, run.dials(n))
  }

  lemma ConfiguredIsNamed(run: Run, t: RelayTable, relays: seq<Url>, now: RelayTable)
    requires Lists(run.settings.inOrder) && StillNamed(run.settings, relays, now) && Grows(t, now)
    ensures StillNamed(run.settings, relays, Configured(run.settings, now)) && Grows(t, Configured(run.settings, now))
    ensures DialSet(run.settings, Configured(run.settings, now)) == DialSet(run.settings, now)
  {
    ConfiguredGrows(now, run.settings.configured, run.settings.now);
    StaysNamed(run.settings, relays, now, Configured(run.settings, now));
    SettledSet(run.settings, now);
  }

  lemma NextInPlay(run: Run, t: RelayTable, walked: seq<Url>, relays: seq<Url>, now: RelayTable, n: nat)
    requires Lists(run.settings.inOrder) && WalksGrow(run.walks) && IsInPlay(run, t, walked, relays, now)
    ensures var next := NextRelays(run, now, relays, n);
            var found := NotYet(next, relays);
            IsInPlay(run, t, walked + found, next, run.walks(n + 1, found, Configured(run.settings, now)))
  {
    var s, urls, dial := run.settings, DialSet(run.settings, now), run.dials(n);
    var next := NextRelays(run, now, relays, n);
    var found := NotYet(next, relays);
    NothingDropped(s, urls, relays, dial);
    NamedByConfiguration(s, urls, relays, dial, now);
    NewOnes(next, relays);
    JoinDistinct(walked, found);
    ConfiguredIsNamed(run, t, next, now);
    StaysNamed(s, next, Configured(s, now), run.walks(n + 1, found, Configured(s, now)));
  }

  lemma NextCome(run: Run, t: RelayTable, legs: seq<seq<Url>>, walked: seq<Url>, relays: seq<Url>, now: RelayTable)
    requires HasCome(run, t, legs, walked, now) && NotYet(NextRelays(run, now, relays, |legs| - 1), relays) != []
    ensures var found := NotYet(NextRelays(run, now, relays, |legs| - 1), relays);
            HasCome(run, t, legs + [found], walked + found, run.walks(|legs|, found, Configured(run.settings, now)))
  {
    AttachedMeaning(DialSet(run.settings, now), relays, run.settings.normal, run.dials(|legs| - 1), "");
    NewOnesAnswered(run, now, DialSet(run.settings, now), relays, |legs|);
    OneMoreLeg(run, t, legs, NotYet(NextRelays(run, now, relays, |legs| - 1), relays));
  }

  /** What the rounds come to: each relay was walked once, in at most three rounds after the
      first, and those walked are those in play, all still named; each round walked relays
      named by then that answered in it, and left the table so; and a walk that ended
      before the last round left nobody named who answers. */
  ghost predicate HasWalked(run: Run, t: RelayTable, legs: seq<seq<Url>>, walked: seq<Url>, relays: seq<Url>,
                            rounds: nat, after: RelayTable)
  {
    var reached := TableAfter(run, t, legs);
    && Distinct(walked) && (forall relay :: relay in walked <==> relay in relays)
    && |legs| == rounds + 1 && rounds <= 3 && walked == Joined(legs) && Travels(run, t, legs)
    && after == (if run.settings.discover && rounds < 3 then Configured(run.settings, reached) else reached)
    && StillNamed(run.settings, relays, after) && Grows(t, after)
    && if run.settings.discover then rounds < 3 ==> AllWalked(run.settings, walked, after, run.dials(rounds))
       else rounds == 0
  }

  /** With every round done, or none to do. */
  lemma RoundsAreDone(run: Run, t: RelayTable, legs: seq<seq<Url>>, walked: seq<Url>, relays: seq<Url>, now: RelayTable)
    requires IsUnderway(run, t, legs, walked, relays, now)
    requires if run.settings.discover then |legs| == 4 else |legs| == 1
    ensures HasWalked(run, t, legs, walked, relays, |legs| - 1, now)
  {
  }

  /** Or when nothing named is out of play. */
  lemma NothingIsMissing(run: Run, t: RelayTable, legs: seq<seq<Url>>, walked: seq<Url>, relays: seq<Url>,
                         now: RelayTable)
    requires Lists(run.settings.inOrder) && IsUnderway(run, t, legs, walked, relays, now)
    requires run.settings.discover && |legs| <= 3
    requires Missing(DialSet(run.settings, now), relays, run.settings.normal) == []
    ensures HasWalked(run, t, legs, walked, relays, |legs| - 1, Configured(run.settings, now))
  {
    ConfiguredIsNamed(run, t, relays, now);
    NothingMissing(run.settings, relays, DialSet(run.settings, now), Configured(run.settings, now),
                   run.dials(|legs| - 1));
  }

  /** Or nobody new answers. */
  lemma NobodyIsNew(run: Run, t: RelayTable, legs: seq<seq<Url>>, walked: seq<Url>, relays: seq<Url>, now: RelayTable)
    requires Lists(run.settings.inOrder) && IsUnderway(run, t, legs, walked, relays, now)
    requires run.settings.discover && |legs| <= 3
    requires NotYet(NextRelays(run, now, relays, |legs| - 1), relays) == []
    ensures HasWalked(run, t, legs, walked, NextRelays(run, now, relays, |legs| - 1), |legs| - 1,
                      Configured(run.settings, now))
  {
    NobodyElse(run, t, walked, relays, now, |legs| - 1);
  }

  lemma NobodyElse(run: Run, t: RelayTable, walked: seq<Url>, relays: seq<Url>, now: RelayTable, n: nat)
    requires Lists(run.settings.inOrder) && IsInPlay(run, t, walked, relays, now)
    requires NotYet(NextRelays(run, now, relays, n), relays) == []
    ensures var next, known := NextRelays(run, now, relays, n), Configured(run.settings, now);
            && (forall relay :: relay in walked <==> relay in next)
            && StillNamed(run.settings, next, known) && Grows(t, known)
            && AllWalked(run.settings, walked, known, run.dials(n))
  {
    var s, urls, dial := run.settings, DialSet(run.settings, now), run.dials(n);
    var next := NextRelays(run, now, relays, n);
    NothingDropped(s, urls, relays, dial);
    NamedByConfiguration(s, urls, relays, dial, now);
    ConfiguredIsNamed(run, t, next, now);
    NewOnes(next, relays);
    NobodyAnswered(s, relays, urls, Configured(s, now), dial);
  }

  /** What one round finds: the relays that are named now, were not in play, and answer. */
  function Found(run: Run, now: RelayTable, relays: seq<Url>, n: nat): seq<Url> {
    if Missing(DialSet(run.settings, now), relays, run.settings.normal) == [] then []
    else NotYet(NextRelays(run, now, relays, n), relays)
  }

  /** The relays in play after it: nothing is dialled when nothing named is out of play. */
  function InPlay(run: Run, now: RelayTable, relays: seq<Url>, n: nat): seq<Url> {
    if Missing(DialSet(run.settings, now), relays, run.settings.normal) == [] then relays
    else NextRelays(run, now, relays, n)
  }

  /** One round: reads the set again, and dials what it names that is not in play. */
  method FindMore(client: RelayClient, run: Run, t: RelayTable, n: nat) returns (known: RelayTable, found: seq<Url>)
    requires run.settings.discover
    modifies client
    ensures known == Configured(run.settings, t)
    ensures found == Found(run, t, old(client.relays), n) && client.relays == InPlay(run, t, old(client.relays), n)
  {
    var s, urls := run.settings, [];
    known, urls := ReadConnectionSet(t, s.configured, s.discover, s.inOrder, s.now);
    client.Reconfigure(urls);
    var missing := client.Unattached(s.normal);
    if missing == [] { return known, []; }
    var before := client.relays;
    client.Reattach(s.normal, run.dials(n));
    found := NotYet(client.relays, before);
  }

  lemma RoundEnds(run: Run, t: RelayTable, legs: seq<seq<Url>>, walked: seq<Url>, relays: seq<Url>, now: RelayTable)
    requires Lists(run.settings.inOrder) && IsUnderway(run, t, legs, walked, relays, now)
    requires run.settings.discover && |legs| <= 3 && Found(run, now, relays, |legs| - 1) == []
    ensures HasWalked(run, t, legs, walked, InPlay(run, now, relays, |legs| - 1), |legs| - 1,
                      Configured(run.settings, now))
  {
    if Missing(DialSet(run.settings, now), relays, run.settings.normal) == [] {
      NothingIsMissing(run, t, legs, walked, relays, now);
    } else {
      NobodyIsNew(run, t, legs, walked, relays, now);
    }
  }

  lemma RoundGoesOn(run: Run, t: RelayTable, legs: seq<seq<Url>>, walked: seq<Url>, relays: seq<Url>, now: RelayTable)
    requires Lists(run.settings.inOrder) && WalksGrow(run.walks) && IsUnderway(run, t, legs, walked, relays, now)
    requires Found(run, now, relays, |legs| - 1) != []
    ensures var found := Found(run, now, relays, |legs| - 1);
            IsUnderway(run, t, legs + [found], walked + found, InPlay(run, now, relays, |legs| - 1),
                       run.walks(|legs|, found, Configured(run.settings, now)))
  {
    NextInPlay(run, t, walked, relays, now, |legs| - 1);
    NextCome(run, t, legs, walked, relays, now);
  }

  lemma SetsOut(run: Run, t: RelayTable, relays: seq<Url>)
    requires Lists(run.settings.inOrder) && WalksGrow(run.walks)
    requires Distinct(relays) && StillNamed(run.settings, relays, t)
    ensures IsUnderway(run, t, [relays], relays, relays, run.walks(0, relays, t))
  {
    FirstLeg(run, t, relays);
    StaysNamed(run.settings, relays, t, run.walks(0, relays, t));
  }

  /** Walks what is connected, then what each round's relay lists name, until a round
      finds nothing or there have been enough of them. */
  method WalkWithDiscovery(client: RelayClient, run: Run, t: RelayTable)
    returns (walked: seq<Url>, rounds: nat, after: RelayTable, ghost legs: seq<seq<Url>>)
    requires Lists(run.settings.inOrder) && WalksGrow(run.walks)
    requires Distinct(client.relays) && StillNamed(run.settings, client.relays, t)
    modifies client
    ensures HasWalked(run, t, legs, walked, client.relays, rounds, after) && legs[0] == old(client.relays)
  {
    walked, rounds, legs := client.relays, 0, [client.relays];
    after := run.walks(0, walked, t);
    SetsOut(run, t, walked);
    while run.settings.discover && rounds < MAX_DISCOVERY_ROUNDS
      invariant rounds <= MAX_DISCOVERY_ROUNDS && (!run.settings.discover ==> rounds == 0)
      invariant |legs| == rounds + 1 && legs[0] == old(client.relays)
      invariant IsUnderway(run, t, legs, walked, client.relays, after)
    {
      ghost var before, now := client.relays, after;
      var found;
      after, found := FindMore(client, run, after, rounds);
      if found == [] {
        RoundEnds(run, t, legs, walked, before, now);
        return;
      }
      RoundGoesOn(run, t, legs, walked, before, now);
      walked, legs := walked + found, legs + [found];
      rounds := rounds + 1;
      after := run.walks(rounds, found, after);
    }
    RoundsAreDone(run, t, legs, walked, client.relays, after);
  }

  lemma NewOnes(relays: seq<Url>, before: seq<Url>)
    requires Distinct(relays)
    ensures Distinct(NotYet(relays, before))
    ensures forall relay :: relay in NotYet(relays, before) <==> relay in relays && relay !in before
  {
    NotYetMeaning(relays, before, "");
    forall relay ensures relay in NotYet(relays, before) <==> relay in relays && relay !in before {
      NotYetMeaning(relays, before, relay);
    }
  }

  lemma JoinDistinct<T>(a: seq<T>, b: seq<T>)
    requires Distinct(a) && Distinct(b) && forall x | x in b :: x !in a
    ensures Distinct(a + b)
  {
    forall i, j | 0 <= i < j < |a + b| ensures (a + b)[i] != (a + b)[j] {
      if i < |a| <= j { assert b[j - |a|] in b && a[i] in a; }
    }
  }

  lemma NothingDropped(s: Settings, urls: seq<Url>, before: seq<Url>, dial: Dial)
    requires forall relay | relay in before :: Names(urls, s.normal, relay)
    ensures Distinct(Attached(urls, before, s.normal, dial))
    ensures forall relay | relay in before :: relay in Attached(urls, before, s.normal, dial)
  {
    AttachedMeaning(urls, before, s.normal, dial, "");
    forall relay | relay in before ensures relay in Attached(urls, before, s.normal, dial) {
      AttachedMeaning(urls, before, s.normal, dial, relay);
    }
  }

  lemma NamedByConfiguration(s: Settings, urls: seq<Url>, before: seq<Url>, dial: Dial, t: RelayTable)
    requires urls == DialSet(s, t)
    ensures StillNamed(s, Attached(urls, before, s.normal, dial), t)
  {
    forall relay | relay in Attached(urls, before, s.normal, dial) ensures Names(urls, s.normal, relay) {
      AttachedMeaning(urls, before, s.normal, dial, relay);
    }
  }

  /** A client built from the connection set starts out so. */
  lemma ConnectedIsNamed(s: Settings, t: RelayTable, dial: Dial)
    ensures var urls := DialSet(s, t);
            Distinct(Attached(urls, [], s.normal, dial)) && StillNamed(s, Attached(urls, [], s.normal, dial), t)
  {
    var urls := DialSet(s, t);
    AttachedMeaning(urls, [], s.normal, dial, "");
    NamedByConfiguration(s, urls, [], dial, t);
  }

  /** One invocation: dials the connection set, gives up when nobody answers, and walks
      with discovery otherwise. What it walked is, in the end, still named. */
  method Invoke(run: Run, t: RelayTable, dial: Dial)
    returns (walked: seq<Url>, rounds: nat, after: RelayTable, ghost legs: seq<seq<Url>>)
    requires Lists(run.settings.inOrder) && WalksGrow(run.walks)
    ensures var s, known := run.settings, Configured(run.settings, t);
            if forall relay | Names(DialSet(s, t), s.normal, relay) :: !dial(relay)
            then walked == [] && rounds == 0 && after == known
            else HasWalked(run, known, legs, walked, walked, rounds, after)
                 && legs[0] == Attached(DialSet(s, t), [], s.normal, dial) != []
  {
    var s := run.settings;
    var known, urls := ReadConnectionSet(t, s.configured, s.discover, s.inOrder, s.now);
    ConfiguredGrows(t, s.configured, s.now);
    var client := new RelayClient(urls, s.normal, dial);
    forall relay ensures relay in client.relays <==> Names(urls, s.normal, relay) && dial(relay) {
      AttachedMeaning(urls, [], s.normal, dial, relay);
    }
    if client.relays == [] { return [], 0, known, []; }
    assert client.relays[0] in client.relays;
    ConnectedIsNamed(s, t, dial);
    StaysNamed(s, client.relays, t, known);
    walked, rounds, after, legs := WalkWithDiscovery(client, run, known);
    SameRelaysNamed(run, known, legs, walked, client.relays, rounds, after);
  }

  lemma SameRelaysNamed(run: Run, t: RelayTable, legs: seq<seq<Url>>, walked: seq<Url>, relays: seq<Url>,
                        rounds: nat, after: RelayTable)
    requires HasWalked(run, t, legs, walked, relays, rounds, after)
    ensures HasWalked(run, t, legs, walked, walked, rounds, after)
  {
  }
}
