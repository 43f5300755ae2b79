/** Which events are let in, said of the events themselves. */
module Admission {
  import opened Prelude
  import opened Events
  import opened Schema
  import opened Pipeline

  predicate IsTagged(kind: Kind) { kind == 38383 || kind == 8383 || kind == 38386 || kind == 38385 }

  predicate HasNetwork(kind: Kind) { kind == 38383 || kind == 8383 }

  predicate IsListened(r: Rules, pubkey: PubKey) { pubkey in r.policy.instances || r.policy.acceptUnknown }

  /** An event that does not say where it lives is not turned away for that. */
  predicate IsOnWantedNetwork(r: Rules, tags: seq<Tag>) {
    match r.parsers.network(tags)
    case Ok(None) => true
    case Ok(Some(network)) => network in r.policy.networks
    case Err(_) => false
  }

  /** What this indexer wants: a signed event of a publisher it listens to, of Mostro where
      the kind says whose it is, and on a wanted network where it says on which. */
  predicate Acceptable(r: Rules, e: Event) {
    && r.parsers.verify(e) && IsListened(r, e.pubkey)
    && (IsTagged(e.kind) ==> SaysMostro(e.tags))
    && (HasNetwork(e.kind) ==> IsOnWantedNetwork(r, e.tags))
  }

  /** Whether this is the first thing wrong with an event. */
  predicate FailsFirst(r: Rules, e: Event, why: Rejection) {
    match why
    case InvalidSignature => !r.parsers.verify(e)
    case UnknownInstance => r.parsers.verify(e) && !IsListened(r, e.pubkey)
    case OtherPlatform => IsHeard(r, e) && IsTagged(e.kind) && !SaysMostro(e.tags)
    case OtherNetwork(network) =>
      && IsHeard(r, e) && HasNetwork(e.kind) && SaysMostro(e.tags)
      && r.parsers.network(e.tags) == Ok(Some(network)) && network !in r.policy.networks
    case Malformed => IsHeard(r, e) && HasNetwork(e.kind) && SaysMostro(e.tags) && r.parsers.network(e.tags).Err?
    case _ => false
  }

  predicate IsHeard(r: Rules, e: Event) { r.parsers.verify(e) && IsListened(r, e.pubkey) }

  /** Admission lets in exactly what is acceptable. */
  lemma AdmitMeaning(r: Rules, e: Event)
    ensures Admit(r, e).None? <==> Acceptable(r, e)
  {
    IsMostroMeaning(e);
  }

  /** And it says of anything else what fails first. */
  lemma RejectionMeaning(r: Rules, e: Event)
    ensures forall why :: Admit(r, e) == Some(why) <==> FailsFirst(r, e, why)
  {
    IsMostroMeaning(e);
  }
}
