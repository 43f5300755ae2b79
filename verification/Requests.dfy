/** What a relay is asked for: one kind, of the publishers that kind may be asked of. */
module Requests {
  import opened Prelude
  import opened Events
  import opened Schema
  import opened Pipeline
  import opened Priming

  /** The part of a filter that does not change from page to page; a missing list of
      authors asks everybody. */
  datatype Request = Request(kind: Kind, identifier: Option<string>, authors: Option<set<PubKey>>)

  /** The request for one kind, if this run has anybody to ask it of. */
  function ForKind(r: Rules, t: Derived, kind: Kind): Option<Request> {
    if kind in UNTAGGED_KINDS then
      var vouched := Askable(r, t);
      if vouched == {} then None
      else Some(Request(kind, if kind == RATES then Some(RATES_IDENTIFIER) else None, Some(vouched)))
    else
      var anybody := r.policy.acceptUnknown || r.policy.instances == {};
      Some(Request(kind, None, if anybody then None else Some(r.policy.instances)))
  }

  predicate HasIdentifier(tags: seq<Tag>, identifier: string) {
    exists i | 0 <= i < |tags| :: |tags[i]| > 1 && tags[i][0] == "d" && tags[i][1] == identifier
  }

  predicate Fits(q: Request, e: Event) {
    && e.kind == q.kind
    && (q.identifier.Some? ==> HasIdentifier(e.tags, q.identifier.value))
    && (q.authors.Some? ==> e.pubkey in q.authors.value)
  }

  lemma AskableMeaning(r: Rules, t: Derived, pubkey: PubKey)
    ensures pubkey in Askable(r, t) <==> pubkey in r.policy.instances || IsPlatformProven(t, pubkey)
  {
  }

  /** Only an untagged kind can have nobody to be asked of: when nobody is listed and
      nobody is proven. */
  lemma NobodyToAsk(r: Rules, t: Derived, kind: Kind)
    ensures ForKind(r, t, kind).None? <==>
              (kind == 30078 || kind == 10002)
              && forall pubkey :: pubkey !in r.policy.instances && !IsPlatformProven(t, pubkey)
  {
    if Askable(r, t) != {} {
      var pubkey :| pubkey in Askable(r, t);
      AskableMeaning(r, t, pubkey);
    } else {
      forall pubkey ensures pubkey !in r.policy.instances && !IsPlatformProven(t, pubkey) {
        AskableMeaning(r, t, pubkey);
      }
    }
  }

  /** Nothing is left unasked that would be let in: an acceptable event that reads, and
      whose publisher is vouched for, fits the request for its kind. */
  lemma WelcomeIsAskedFor(r: Rules, t: Tables, e: Event)
    requires Admission.Acceptable(r, e) && Vouched(r, t, e) && Parses(r.parsers, e)
    ensures ForKind(r, t.derived, e.kind).Some? && Fits(ForKind(r, t.derived, e.kind).value, e)
  {
    if e.kind in UNTAGGED_KINDS {
      AskedIsVouched(r, t, e);
      if e.kind == RATES { IdentifierIsThere(e.tags); }
    }
  }

  lemma IdentifierIsThere(tags: seq<Tag>)
    requires TagValues(tags, "d") == Single([RATES_IDENTIFIER])
    ensures HasIdentifier(tags, RATES_IDENTIFIER)
  {
    TagValuesMeaning(tags, "d");
    var i: nat :| OnlyTag(tags, "d", i);
    assert tags[i][1..][0] == RATES_IDENTIFIER;
  }

  /** And what is asked for of a kind is of that kind, of those it may be asked of. */
  lemma AskedFor(r: Rules, t: Derived, kind: Kind, e: Event)
    requires ForKind(r, t, kind).Some?
    ensures Fits(ForKind(r, t, kind).value, e) <==>
              && e.kind == kind
              && (kind == 30078 ==> HasIdentifier(e.tags, "mostro-rates"))
              && (if kind == 30078 || kind == 10002
                  then e.pubkey in r.policy.instances || IsPlatformProven(t, e.pubkey)
                  else e.pubkey in r.policy.instances || r.policy.acceptUnknown || r.policy.instances == {})
  {
    AskableMeaning(r, t, e.pubkey);
  }
}
