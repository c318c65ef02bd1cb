/** Several replicas that run the device-token backfill at once over one collection. */
module BackfillRuns {
  import opened Wrappers
  import opened Devices
  import Sizes

  /** Where a replica's backfill has got to. */
  datatype Phase =
    | Bulk                                      // in the bulk update
    | Listing                                   // it stopped at a collision; what lacks a token is to be listed
    | Rest(left: set<DocID>)                    // takes the documents listed one at a time
    | Deleting(left: set<DocID>, id: DocID)     // the update of id collided; the delete is next
    | Finished

  datatype System = System(docs: seq<Doc>, replicas: map<nat, Phase>)

  /** Replica id does its next operation; at is the document it happens upon, or takes from its list. */
  datatype Step = Step(id: nat, at: DocID)

  predicate IsLackingAt(docs: seq<Doc>, i: nat, id: DocID) {
    i < |docs| && docs[i].docID == id && docs[i].Lacking()
  }

  ghost predicate LacksToken(docs: seq<Doc>, id: DocID) {
    exists i: nat :: IsLackingAt(docs, i, id)
  }

  ghost function IndexOf(docs: seq<Doc>, id: DocID): (i: nat)
    requires LacksToken(docs, id)
    ensures IsLackingAt(docs, i, id)
  {
    var i: nat :| IsLackingAt(docs, i, id);
    i
  }

  /**
   The update of one document that lacks its token; None is the unique index's refusal. A document that no longer
   lacks it is left alone.
   */
  ghost function UpdateOne(docs: seq<Doc>, id: DocID): Option<seq<Doc>> {
    if !LacksToken(docs, id) then Some(docs)
    else if Collides(docs, docs[IndexOf(docs, id)]) then None
    else Some(Set(docs, IndexOf(docs, id)))
  }

  ghost function DeleteOne(docs: seq<Doc>, id: DocID): seq<Doc> {
    if LacksToken(docs, id) then Drop(docs, IndexOf(docs, id)) else docs
  }

  /** One operation of one replica. */
  ghost function Advance(docs: seq<Doc>, phase: Phase, at: DocID): (seq<Doc>, Phase) {
    match phase
    case Bulk =>
      if LackingIDs(docs) == {} then (docs, Finished)
      else if UpdateOne(docs, at).Some? then (UpdateOne(docs, at).value, Bulk)
      else (docs, Listing)
    case Listing => (docs, Rest(LackingIDs(docs)))
    case Rest(left) =>
      if left == {} then (docs, Finished)
      else if at !in left then (docs, phase)
      else if UpdateOne(docs, at).Some? then (UpdateOne(docs, at).value, Rest(left - {at}))
      else (docs, Deleting(left, at))
    case Deleting(left, id) => (DeleteOne(docs, id), Rest(left - {id}))
    case Finished => (docs, phase)
  }

  ghost function Next(s: System, step: Step): System {
    if step.id !in s.replicas then s
    else
      var (docs, phase) := Advance(s.docs, s.replicas[step.id], step.at);
      System(docs, s.replicas[step.id := phase])
  }

  /** Any interleaving of the replicas' operations, none of which has begun. */
  ghost predicate IsRun(states: seq<System>, steps: seq<Step>) {
    && |states| == |steps| + 1
    && Valid(states[0].docs)
    && (forall id | id in states[0].replicas :: states[0].replicas[id].Bulk?)
    && forall i | 0 <= i < |steps| :: states[i + 1] == Next(states[i], steps[i])
  }

  // --- what every operation keeps -----------------------------------------------------------

  /** Every document of id that lacks its token has its pair registered. */
  ghost predicate Doomed(docs: seq<Doc>, id: DocID) {
    forall i: nat | IsLackingAt(docs, i, id) :: Collides(docs, docs[i])
  }

  /** A replica past its listing has all that lacks a token on its list, and what it is about to delete collides. */
  ghost predicate PhaseOk(docs: seq<Doc>, phase: Phase) {
    match phase
    case Rest(left) => LackingIDs(docs) <= left
    case Deleting(left, id) => LackingIDs(docs) <= left && id in left && Doomed(docs, id)
    case Finished => LackingIDs(docs) == {}
    case _ => true
  }

  ghost predicate SystemOk(s: System, end: seq<Doc>) {
    && Valid(s.docs) && Migrated(s.docs) == end
    && forall id | id in s.replicas :: PhaseOk(s.docs, s.replicas[id])
  }

  /** after is docs, or one step of the migration further. */
  ghost predicate MovesOn(docs: seq<Doc>, after: seq<Doc>) {
    && Valid(after) && Migrated(after) == Migrated(docs) && LackingIDs(after) <= LackingIDs(docs)
    && forall id | Doomed(docs, id) :: Doomed(after, id)
  }

  lemma LackingIsListed(docs: seq<Doc>, id: DocID)
    ensures LacksToken(docs, id) <==> id in LackingIDs(docs)
  {
    if id in LackingIDs(docs) {
      var i :| 0 <= i < |docs| && docs[i].Lacking() && docs[i].docID == id;
      assert IsLackingAt(docs, i, id);
    }
  }

  lemma SetKeepsDoom(docs: seq<Doc>, i: nat, id: DocID)
    requires Valid(docs) && i < |docs| && docs[i].Lacking() && Doomed(docs, id)
    ensures Doomed(Set(docs, i), id)
  {
    var after := Set(docs, i);
    forall k: nat | IsLackingAt(after, k, id) ensures Collides(after, after[k]) {
      assert k != i && after[k] == docs[k] && IsLackingAt(docs, k, id);
      SetKeepsCollision(docs, i, k);
    }
  }

  lemma DropKeepsDoom(docs: seq<Doc>, i: nat, id: DocID)
    requires i < |docs| && docs[i].Lacking() && Doomed(docs, id)
    ensures Doomed(Drop(docs, i), id)
  {
    var after := Drop(docs, i);
    forall k: nat | IsLackingAt(after, k, id) ensures Collides(after, after[k]) {
      var j := if k < i then k else k + 1;
      assert after[k] == docs[j] && IsLackingAt(docs, j, id);
      DropKeepsCollisions(docs, i, docs[j]);
    }
  }

  lemma UpdateMovesOn(docs: seq<Doc>, id: DocID)
    requires Valid(docs)
    ensures UpdateOne(docs, id).Some? ==>
              MovesOn(docs, UpdateOne(docs, id).value)
              && LackingIDs(UpdateOne(docs, id).value) == LackingIDs(docs) - {id}
    ensures UpdateOne(docs, id).None? ==> id in LackingIDs(docs) && Doomed(docs, id)
  {
    LackingIsListed(docs, id);
    if LacksToken(docs, id) {
      var i := IndexOf(docs, id);
      if !Collides(docs, docs[i]) {
        SetMigrates(docs, i);
        SetLeavesFewer(docs, i);
        forall x | Doomed(docs, x) ensures Doomed(Set(docs, i), x) { SetKeepsDoom(docs, i, x); }
      }
    }
  }

  lemma DeleteMovesOn(docs: seq<Doc>, id: DocID)
    requires Valid(docs) && Doomed(docs, id)
    ensures MovesOn(docs, DeleteOne(docs, id)) && LackingIDs(DeleteOne(docs, id)) == LackingIDs(docs) - {id}
  {
    LackingIsListed(docs, id);
    if LacksToken(docs, id) {
      var i := IndexOf(docs, id);
      DropMigrates(docs, i);
      DropLeavesFewer(docs, i);
      forall x | Doomed(docs, x) ensures Doomed(Drop(docs, i), x) { DropKeepsDoom(docs, i, x); }
    }
  }

  lemma AdvanceMovesOn(docs: seq<Doc>, phase: Phase, at: DocID)
    requires Valid(docs) && PhaseOk(docs, phase)
    ensures var (after, phase') := Advance(docs, phase, at); MovesOn(docs, after) && PhaseOk(after, phase')
  {
    match phase
    case Bulk => UpdateMovesOn(docs, at);
    case Rest(_) => UpdateMovesOn(docs, at);
    case Deleting(_, id) => DeleteMovesOn(docs, id);
    case Listing =>
    case Finished =>
  }

  /** What one replica does takes nothing from under the others. */
  lemma OthersStayOk(docs: seq<Doc>, after: seq<Doc>, phase: Phase)
    requires MovesOn(docs, after) && PhaseOk(docs, phase)
    ensures PhaseOk(after, phase)
  {
  }

  lemma NextStaysOk(s: System, step: Step, end: seq<Doc>)
    requires SystemOk(s, end)
    ensures SystemOk(Next(s, step), end)
  {
    if step.id in s.replicas {
      var (docs, phase) := Advance(s.docs, s.replicas[step.id], step.at);
      AdvanceMovesOn(s.docs, s.replicas[step.id], step.at);
      forall id | id in s.replicas && id != step.id ensures PhaseOk(docs, s.replicas[id]) {
        OthersStayOk(s.docs, docs, s.replicas[id]);
      }
    }
  }

  lemma {:induction false} RunStaysOk(states: seq<System>, steps: seq<Step>, n: nat)
    requires IsRun(states, steps) && n < |states|
    ensures SystemOk(states[n], Migrated(states[0].docs))
  {
    if n > 0 {
      RunStaysOk(states, steps, n - 1);
      NextStaysOk(states[n - 1], steps[n - 1], Migrated(states[0].docs));
      assert states[n - 1 + 1] == Next(states[n - 1], steps[n - 1]);
    }
  }

  // --- where every interleaving ends --------------------------------------------------------

  /**
   However the replicas' operations interleave, the collection is always on its way to the one end; and once any
   replica has finished, it is there, with every identity's devices listed as before.
   */
  lemma ReplicasReachOneEnd(states: seq<System>, steps: seq<Step>, n: nat, id: nat, identityKey: string)
    requires IsRun(states, steps) && n < |states|
    ensures Valid(states[n].docs) && Migrated(states[n].docs) == Migrated(states[0].docs)
    ensures ListDevices(states[n].docs, identityKey) == ListDevices(states[0].docs, identityKey)
    ensures id in states[n].replicas && states[n].replicas[id].Finished? ==> states[n].docs == Migrated(states[0].docs)
  {
    RunStaysOk(states, steps, n);
    SameEndSameLists(states[0].docs, states[n].docs, identityKey);
    if id in states[n].replicas && states[n].replicas[id].Finished? {
      NothingLacksIsEnd(states[n].docs);
    }
  }

  /** How many more operations, each on a document it still has to see to, a replica can need at most. */
  ghost function Rank(docs: seq<Doc>, phase: Phase): nat {
    match phase
    case Bulk => 3 * |LackingIDs(docs)| + 3
    case Listing => 2 * |LackingIDs(docs)| + 2
    case Rest(left) => 2 * |left| + 1
    case Deleting(left, _) => 2 * |left|
    case Finished => 0
  }

  /** The operation does something: the replica is not through, and at is a document it still has to see to. */
  ghost predicate Works(docs: seq<Doc>, phase: Phase, at: DocID) {
    match phase
    case Bulk => LackingIDs(docs) == {} || at in LackingIDs(docs)
    case Rest(left) => left == {} || at in left
    case Finished => false
    case _ => true
  }

  /** Every replica finishes: its own operations bring it closer, and the others' never set it back. */
  lemma ReplicasFinish(docs: seq<Doc>, phase: Phase, at: DocID, other: Phase)
    requires Valid(docs) && PhaseOk(docs, phase) && PhaseOk(docs, other) && Works(docs, phase, at)
    ensures var (after, phase') := Advance(docs, phase, at);
            Rank(after, phase') < Rank(docs, phase) && Rank(after, other) <= Rank(docs, other)
  {
    AdvanceMovesOn(docs, phase, at);
    UpdateMovesOn(docs, at);
    var after := Advance(docs, phase, at).0;
    Sizes.SubsetIsNoLarger(LackingIDs(after), LackingIDs(docs));
    if phase.Rest? { Sizes.SubsetIsNoLarger(phase.left - {at}, phase.left); }
    if phase.Deleting? { Sizes.SubsetIsNoLarger(phase.left - {phase.id}, phase.left); }
  }
}
