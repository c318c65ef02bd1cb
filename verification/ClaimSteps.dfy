/** What a single step of the protocol can and cannot do. */
module ClaimSteps {
  import opened Registry
  import RegistryLaws
  import opened ClaimProtocol

  /** The table changes exactly when the step's write matched, and then by one guarded write to one row. */
  lemma WriteChanges(call: Call, t: Table, ts: int)
    requires Inv(t)
    ensures WriteOf(call, t, ts).Matched? <==> TableAfter(t, WriteOf(call, t, ts)) != t
    ensures WriteOf(call, t, ts).Matched? ==> GuardedWrite(call, t, WriteOf(call, t, ts).table, ts)
    ensures Inv(TableAfter(t, WriteOf(call, t, ts)))
  {
    var w := WriteOf(call, t, ts);
    if w.Matched? {
      if call.Parting? {
        RegistryLaws.ReleaseKeepsInv(t, call.release, ts);
        assert w.table[call.release.handle] != t[call.release.handle];
      } else if call.at.Updating? {
        RegistryLaws.OwnerUpdateLands(t, call.claim, ts);
        assert w.table[call.claim.handle].issuedAt != t[call.claim.handle].issuedAt;
      } else if call.at.Reclaiming? {
        RegistryLaws.ReclaimLands(t, call.claim, ts);
        assert w.table[call.claim.handle].issuedAt != t[call.claim.handle].issuedAt;
      } else {
        RegistryLaws.InsertLands(t, call.claim, ts);
        assert call.claim.handle in w.table;
      }
    }
  }

  /** What the call would make of registry t if it were decided there all at once. */
  function Effect(call: Call, t: Table, ts: int): Table {
    if call.Claiming? then TableAfterClaim(t, call.claim, ts) else TableAfterRelease(t, call.release, ts)
  }

  /** A call whose write matches answers as one look at that registry decides, and leaves what that decision leaves. */
  lemma WriteIsDecision(call: Call, t: Table, ts: int)
    requires Inv(t) && WriteOf(call, t, ts).Matched? && (call.Parting? ==> ValidRelease(call.release))
    ensures WriteOf(call, t, ts).table == Effect(call, t, ts)
    ensures call.Claiming? ==> NextCall(call, t, ts).at == Answered(Decide(t, call.claim))
    ensures call.Parting? ==> NextCall(call, t, ts).stage == Ended(DecideRelease(t, call.release))
  {
    if call.Claiming? {
      RegistryLaws.WritesLandIffAccepted(t, call.claim, ts);
      WriteChanges(call, t, ts);
    } else {
      RegistryLaws.ReleaseDecided(t, call.release, ts);
    }
  }

  lemma CallAfterWrite(call: Call, t: Table, ts: int)
    ensures !call.Done() ==> (NextCall(call, t, ts).ReportsWrite() <==> WriteOf(call, t, ts).Matched?)
    ensures call.Done() ==> NextCall(call, t, ts) == call && WriteOf(call, t, ts).NoMatch?
    ensures NextCall(call, t, ts).Claiming? <==> call.Claiming?
    ensures call.Claiming? ==> NextCall(call, t, ts).claim == call.claim
    ensures call.Parting? ==> NextCall(call, t, ts).release == call.release
  {
  }

  lemma NextKeepsInv(s: System, step: Step)
    requires Inv(s.table)
    ensures Inv(Next(s, step).table)
  {
    if step.Advance? && step.id in s.calls {
      WriteChanges(s.calls[step.id], s.table, step.ts);
    }
  }

  /**
   A started call keeps its identity; only its own steps move it; it reports a write exactly when one of them made it.
   */
  lemma NextKeepsCall(s: System, step: Step, id: nat)
    requires Inv(s.table) && id in s.calls
    ensures id in Next(s, step).calls
    ensures var before, after := s.calls[id], Next(s, step).calls[id];
            && (after.Claiming? <==> before.Claiming?)
            && (before.Claiming? ==> after.claim == before.claim)
            && (before.Parting? ==> after.release == before.release)
            && (before.Done() ==> after == before)
            && (!(step.Advance? && step.id == id) ==> after == before)
            && (after.ReportsWrite() <==>
                  before.ReportsWrite() || (step.Advance? && step.id == id && Next(s, step).table != s.table))
            && (before.Done() && step.Advance? && step.id == id ==> Next(s, step).table == s.table)
  {
    if step.Advance? && step.id == id {
      WriteChanges(s.calls[id], s.table, step.ts);
      CallAfterWrite(s.calls[id], s.table, step.ts);
    }
  }
}
