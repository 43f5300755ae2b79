/** A name that a rebuild does not give back. */
module Renaming {
  import opened Prelude
  import opened Events
  import opened Schema
  import opened Pipeline
  import opened Admission
  import opened Reachability
  import opened Confluence
  import opened Rebuild

  /** An event of a kind whose every version is kept, that passes on its own merits and
      says a name. */
  predicate NamesItself(r: Rules, e: Event) {
    e.kind in TRADE_KINDS && Acceptable(r, e) && Parses(r.parsers, e) && InstanceName(e).Some?
  }

  /** Such an event, when new, is archived and sighted under its name. */
  lemma NewEventNames(r: Rules, t: Tables, d: Delivery)
    requires NamesItself(r, d.event) && d.event.id !in t.events
    ensures var after := Step(r, t, d);
            && after.events == t.events[d.event.id := Archived(d.event, d.relay, d.now)]
            && Find(after.instances, d.event.pubkey)
               == Some(Sighted(Find(t.instances, d.event.pubkey), InstanceName(d.event), d.event.createdAt))
  {
    TradeIsFiled(r, t, d.event);
    FiledNames(r, t, d);
  }

  /** Two events of one publisher and one second under two names, the lower id second. */
  predicate Rename(r: Rules, a: Event, b: Event) {
    && NamesItself(r, a) && NamesItself(r, b) && InstanceName(a) != InstanceName(b)
    && a.pubkey == b.pubkey && a.createdAt == b.createdAt && b.id < a.id
  }

  /** Whether `a` and `b` are all a publisher has archived, the row named by `b`. */
  ghost predicate NamedBySecond(t: Tables, a: Event, b: Event) {
    && a.id in t.events && t.events[a.id].event == a && b.id in t.events && t.events[b.id].event == b
    && (forall id | id in t.events && id != a.id && id != b.id :: t.events[id].event.pubkey != a.pubkey)
    && a.pubkey in t.instances && t.instances[a.pubkey].name == InstanceName(b)
  }

  /** Whether `a` is all a publisher has archived, the row named by it. */
  ghost predicate OnlyNamed(t: Tables, a: Event) {
    && a.id in t.events && t.events[a.id].event == a
    && (forall id | id in t.events && id != a.id :: t.events[id].event.pubkey != a.pubkey)
    && a.pubkey in t.instances && t.instances[a.pubkey].name == InstanceName(a)
    && t.instances[a.pubkey].nameSeenAt == Some(a.createdAt)
  }

  lemma FirstName(r: Rules, t: Tables, d: Delivery)
    requires NamesItself(r, d.event) && UnknownSoFar(t, d.event.pubkey) && d.event.id !in t.events
    requires d.event.pubkey !in t.instances
    ensures OnlyNamed(Step(r, t, d), d.event)
  {
    NewEventNames(r, t, d);
  }

  lemma SecondName(r: Rules, t: Tables, a: Event, d: Delivery)
    requires Rename(r, a, d.event) && OnlyNamed(t, a) && d.event.id !in t.events
    ensures NamedBySecond(Step(r, t, d), a, d.event)
  {
    NewEventNames(r, t, d);
  }

  lemma SecondNameIsKept(r: Rules, t: Tables, a: Delivery, b: Delivery)
    requires Rename(r, a.event, b.event) && UnknownSoFar(t, a.event.pubkey) && a.event.pubkey !in t.instances
    requires a.event.id !in t.events && b.event.id !in t.events
    ensures NamedBySecond(Step(r, Step(r, t, a), b), a.event, b.event)
  {
    FirstName(r, t, a);
    NewEventNames(r, t, a);
    SecondName(r, Step(r, t, a), a.event, b);
  }

  lemma FirstIsFinal(r: Rules, t: Tables, a: Event, b: Event)
    requires Rename(r, a, b) && NamedBySecond(t, a, b)
    ensures SaysFinalName(r.parsers, t.events, a.pubkey, a.id)
  {
  }

  /** So a rebuild gives that one back instead. */
  lemma SecondNameIsLost(r: Rules, t: Tables, a: Event, b: Event, fromRaw: bool)
    requires Inv(r, t) && Rename(r, a, b) && NamedBySecond(t, a, b)
    ensures var after := Rebuilt(r.parsers, t, fromRaw).instances;
            a.pubkey in after && after[a.pubkey].name != t.instances[a.pubkey].name
  {
    FirstIsFinal(r, t, a, b);
    RebuildRestoresTheName(r, t, fromRaw, a.pubkey);
  }

  /** After any run that has archived nothing of a publisher, two events of one second
      under two names, the lower id delivered last, leave a name that a rebuild replaces by
      the other. */
  lemma RebuildCanRename(r: Rules, attempts: seq<Attempt>, a: Delivery, b: Delivery, fromRaw: bool)
    requires Rename(r, a.event, b.event) && UnknownSoFar(Run(r, attempts), a.event.pubkey)
    requires a.event.id !in Run(r, attempts).events && b.event.id !in Run(r, attempts).events
    ensures var t, k := Run(r, attempts + [Committed(a)] + [Committed(b)]), a.event.pubkey;
            var after := Rebuilt(r.parsers, t, fromRaw).instances;
            && k in t.instances && t.instances[k].name == InstanceName(b.event)
            && k in after && after[k].name != t.instances[k].name
  {
    OneMoreStep(r, EMPTY, attempts, a);
    OneMoreStep(r, EMPTY, attempts + [Committed(a)], b);
    Reachable(r, attempts);
    UnknownIsUnlisted(r, Run(r, attempts), a.event.pubkey);
    SecondNameIsKept(r, Run(r, attempts), a, b);
    Reachable(r, attempts + [Committed(a)] + [Committed(b)]);
    SecondNameIsLost(r, Run(r, attempts + [Committed(a)] + [Committed(b)]), a.event, b.event, fromRaw);
  }
}
