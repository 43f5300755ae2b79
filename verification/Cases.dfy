/** Disputes as the reports read them: the projected row, when the dispute was resolved
    and how, which only the versions still know. */
module Cases {
  import opened Prelude
  import opened Ranking
  import opened Schema
  import opened Grouping
  import opened Projection

  /** The statuses a dispute does not leave. */
  const TERMINAL: seq<DisputeStatus> := [SellerRefunded, Settled, Released, CooperativelyCanceled]

  datatype CaseRow = CaseRow(
    disputeId: DisputeId, instance: string, openedAt: int, status: DisputeStatus, initiator: Option<Initiator>,
    resolvedAt: Option<int>, outcome: Option<DisputeStatus>)

  /** A dispute is resolved when it has an outcome, which is a terminal status. */
  predicate EndsTerminally(c: CaseRow) {
    match c.outcome
    case None => c.resolvedAt.None?
    case Some(status) => c.resolvedAt.Some? && status in TERMINAL
  }

  type Case = c: CaseRow | EndsTerminally(c) witness CaseRow("", "", 0, Initiated, None, None, None)

  /** The versions of one dispute. */
  type History = vs: Rows<DisputeVersion> | vs.Keys != {} witness OneVersion()

  function OneVersion(): (vs: Rows<DisputeVersion>)
    ensures vs.Keys != {}
  {
    var vs: Rows<DisputeVersion> := map[0 := DisputeVersion(0, "", 0, 0, Initiated, None, None)];
    assert 0 in vs;
    vs
  }

  predicate Ends(v: DisputeVersion) {
    v.status.SellerRefunded? || v.status.Settled? || v.status.Released? || v.status.CooperativelyCanceled?
  }

  function Endings(vs: History): (stamps: Stamps)
    ensures forall id :: id in stamps <==> id in vs && Ends(vs[id])
  {
    map id | id in vs && Ends(vs[id]) :: vs[id].createdAt
  }

  function FirstSeen(vs: History): (at: nat)
    ensures forall id | id in vs :: at <= vs[id].createdAt
    ensures exists id :: id in vs && vs[id].createdAt == at
  {
    var clocks := set id | id in vs :: vs[id].createdAt;
    assert clocks != {} by {
      var id :| id in vs;
      assert vs[id].createdAt in clocks;
    }
    assert forall id | id in vs :: vs[id].createdAt in clocks;
    Least(clocks).value
  }

  function ResolvedAt(vs: History): Option<nat> {
    Least(set id | id in vs && Ends(vs[id]) :: vs[id].createdAt)
  }

  function Outcome(vs: History): Option<DisputeStatus> {
    if Endings(vs).Keys == {} then None else Some(vs[Oldest(Endings(vs))].status)
  }

  /** The opening falls back to the first version seen; the resolution is the first
      terminal version. */
  function CaseOf(vs: History, instance: string): Case {
    var d := ProjectDispute(vs);
    EndingsAgree(vs);
    CaseRow(
      d.disputeId, instance, if d.openedAt.Some? then d.openedAt.value else FirstSeen(vs), d.finalStatus, d.initiator,
      ResolvedAt(vs), Outcome(vs))
  }

  /** Whether `id` is the first version to end the dispute. */
  predicate FirstToEnd(vs: History, id: EventId) {
    && id in vs && Ends(vs[id])
    && forall o | o in vs && o != id && Ends(vs[o]) ::
         vs[id].createdAt < vs[o].createdAt || (vs[id].createdAt == vs[o].createdAt && id < o)
  }

  /** The least clock and the oldest row are read separately, and are of one version. */
  lemma EndingsAgree(vs: History)
    ensures ResolvedAt(vs).None? <==> forall id | id in vs :: !Ends(vs[id])
    ensures Outcome(vs).None? <==> forall id | id in vs :: !Ends(vs[id])
    ensures forall id | FirstToEnd(vs, id) ::
              ResolvedAt(vs) == Some(vs[id].createdAt) && Outcome(vs) == Some(vs[id].status)
    ensures Outcome(vs).Some? ==> exists id :: FirstToEnd(vs, id)
  {
    LeastEnding(vs);
    OldestEnding(vs);
  }

  lemma LeastEnding(vs: History)
    ensures ResolvedAt(vs).None? <==> forall id | id in vs :: !Ends(vs[id])
    ensures forall id | FirstToEnd(vs, id) :: ResolvedAt(vs) == Some(vs[id].createdAt)
  {
    var clocks := set id | id in vs && Ends(vs[id]) :: vs[id].createdAt;
    assert forall id | id in vs && Ends(vs[id]) :: vs[id].createdAt in clocks;
  }

  lemma OldestEnding(vs: History)
    ensures Outcome(vs).None? <==> forall id | id in vs :: !Ends(vs[id])
    ensures forall id | FirstToEnd(vs, id) :: Outcome(vs) == Some(vs[id].status)
    ensures Outcome(vs).Some? ==> exists id :: FirstToEnd(vs, id)
  {
    if Endings(vs).Keys != {} {
      assert FirstToEnd(vs, Oldest(Endings(vs)));
    } else {
      assert forall id | id in vs && Ends(vs[id]) :: id in Endings(vs).Keys;
    }
  }

  /** A dispute is resolved exactly when some version ended it, at the clock and under the
      status of the first to do so; it opened when its latest version to say so says, or
      else with its first version, and then no later than it was resolved. */
  lemma CaseMeaning(vs: History, instance: string, id: EventId)
    requires id in vs
    ensures var c := CaseOf(vs, instance);
            && (c.resolvedAt.Some? <==> exists o :: o in vs && Ends(vs[o]))
            && (c.resolvedAt.Some? ==> exists o :: FirstToEnd(vs, o))
            && (FirstToEnd(vs, id) ==> c.resolvedAt == Some(vs[id].createdAt) && c.outcome == Some(vs[id].status))
            && (c.status in TERMINAL ==> c.resolvedAt.Some?)
            && (LatestToSay(vs, SaysAnything, id) ==>
                  c.disputeId == vs[id].disputeId && c.status == vs[id].status && c.instance == instance)
            && (c.initiator.None? <==> forall o | o in vs :: !SaysInitiator(vs[o]))
            && (LatestToSay(vs, SaysInitiator, id) ==> c.initiator == vs[id].initiator)
    ensures var c := CaseOf(vs, instance);
            && (LatestToSay(vs, SaysOpening, id) ==> Some(c.openedAt) == vs[id].openedAt)
            && ((forall o | o in vs :: !SaysOpening(vs[o])) ==>
                  && c.openedAt <= vs[id].createdAt && (exists o :: o in vs && vs[o].createdAt == c.openedAt)
                  && (c.resolvedAt.Some? ==> c.openedAt <= c.resolvedAt.value))
  {
    EndingsAgree(vs);
    DisputeMeaning(vs, id);
    LatestStatus(vs);
  }

  lemma LatestStatus(vs: History)
    ensures exists id :: id in vs && vs[id].status == ProjectDispute(vs).finalStatus
  {
    var stamps: Stamps := map id | id in vs :: vs[id].createdAt;
    assert stamps.Keys == vs.Keys;
    assert Newest(stamps) in vs;
  }
}
