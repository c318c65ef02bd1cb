/** What every interleaving of claims and releases guarantees, over whole runs. */
module ClaimRuns {
  import opened Registry
  import opened ClaimProtocol
  import opened ClaimSteps

  // --- every reachable registry ------------------------------------------------

  lemma {:induction false} ReachableInv(states: seq<System>, steps: seq<Step>, n: nat)
    requires IsRun(states, steps) && n < |states|
    ensures Inv(states[n].table)
  {
    if n > 0 {
      ReachableInv(states, steps, n - 1);
      NextKeepsInv(states[n - 1], steps[n - 1]);
      assert states[n - 1 + 1] == Next(states[n - 1], steps[n - 1]);
    }
  }

  /** How one step can move one row: not at all, or by the landed write of a call on that handle. */
  lemma StepMovesRow(states: seq<System>, steps: seq<Step>, k: nat, h: string)
    requires IsRun(states, steps) && k < |steps|
    ensures h in states[k].table ==> h in states[k + 1].table
    ensures ClaimLands(states, steps, k, h) || ReleaseLands(states, steps, k, h)
            || (h in states[k].table <==> h in states[k + 1].table)
    ensures !ClaimLands(states, steps, k, h) && !ReleaseLands(states, steps, k, h) && h in states[k].table
            ==> states[k + 1].table[h] == states[k].table[h]
    ensures ClaimLands(states, steps, k, h) || ReleaseLands(states, steps, k, h)
            ==> steps[k].Advance? && steps[k].id in states[k].calls
                && GuardedWrite(states[k].calls[steps[k].id], states[k].table, states[k + 1].table, steps[k].ts)
  {
    ReachableInv(states, steps, k);
    assert states[k + 1] == Next(states[k], steps[k]);
    if steps[k].Advance? && steps[k].id in states[k].calls {
      WriteChanges(states[k].calls[steps[k].id], states[k].table, steps[k].ts);
    }
  }

  lemma StepKeepsRow(states: seq<System>, steps: seq<Step>, k: nat, h: string)
    requires IsRun(states, steps) && k < |steps| && h in states[k].table
    ensures h in states[k + 1].table
    ensures states[k + 1].table[h].createdAt == states[k].table[h].createdAt
    ensures states[k].table[h].issuedAt <= states[k + 1].table[h].issuedAt
  {
    StepMovesRow(states, steps, k, h);
  }

  /** Rows are never removed, keep their birth time, and their issuedAt never falls. */
  lemma {:induction false} RowsPersist(states: seq<System>, steps: seq<Step>, i: nat, j: nat, h: string)
    requires IsRun(states, steps) && i <= j < |states| && h in states[i].table
    ensures h in states[j].table
    ensures states[j].table[h].createdAt == states[i].table[h].createdAt
    ensures states[i].table[h].issuedAt <= states[j].table[h].issuedAt
  {
    if i < j {
      RowsPersist(states, steps, i, j - 1, h);
      StepKeepsRow(states, steps, j - 1, h);
    }
  }

  // --- one call, at most one write -----------------------------------------------

  /** How many of the first n steps were writes of call id that changed the registry. */
  ghost function Landings(states: seq<System>, steps: seq<Step>, id: nat, n: nat): nat
    requires |states| == |steps| + 1 && n <= |steps|
  {
    if n == 0 then 0
    else Landings(states, steps, id, n - 1) + if Lands(states, steps, n - 1, id) then 1 else 0
  }

  /** A call that reports a write made exactly one; any other call, running or ended, made none. */
  lemma {:induction false} AtMostOneWrite(states: seq<System>, steps: seq<Step>, n: nat, id: nat)
    requires IsRun(states, steps) && n < |states|
    ensures Landings(states, steps, id, n)
            == if id in states[n].calls && states[n].calls[id].ReportsWrite() then 1 else 0
  {
    if n > 0 {
      AtMostOneWrite(states, steps, n - 1, id);
      ReachableInv(states, steps, n - 1);
      assert states[n - 1 + 1] == Next(states[n - 1], steps[n - 1]);
      if id in states[n - 1].calls {
        NextKeepsCall(states[n - 1], steps[n - 1], id);
      }
    }
  }

  /** Step k made the write that outcome o reports: what one look at the registry decided then, guard and effect. */
  ghost predicate WroteAt(states: seq<System>, steps: seq<Step>, k: nat, id: nat, c: Claim, o: ClaimOutcome)
    requires k < |steps| && |states| == |steps| + 1
  {
    var t := states[k].table;
    && Lands(states, steps, k, id)
    && Decide(t, c) == o
    && states[k + 1].table == TableAfterClaim(t, c, steps[k].ts)
    && (if o.Updated? then OwnerGuard(t, c) else ReclaimGuard(t, c) || c.handle !in t)
  }

  lemma {:induction false} AcceptedClaimWrote(states: seq<System>, steps: seq<Step>, n: nat, id: nat) returns (k: nat)
    requires IsRun(states, steps) && n < |states| && id in states[n].calls
    requires states[n].calls[id].Claiming? && states[n].calls[id].ReportsWrite()
    ensures k < n && WroteAt(states, steps, k, id, states[n].calls[id].claim, states[n].calls[id].at.outcome)
  {
    ReachableInv(states, steps, n - 1);
    assert states[n - 1 + 1] == Next(states[n - 1], steps[n - 1]);
    if id in states[n - 1].calls {
      NextKeepsCall(states[n - 1], steps[n - 1], id);
      if states[n - 1].calls[id].ReportsWrite() {
        k := AcceptedClaimWrote(states, steps, n - 1, id);
      } else {
        k := n - 1;
        WriteChanges(states[k].calls[id], states[k].table, steps[k].ts);
        WriteIsDecision(states[k].calls[id], states[k].table, steps[k].ts);
      }
    }
  }

  // --- every run is a serial one ---------------------------------------------------

  /** Cut to milliseconds and, if it is a release that was let in, valid. */
  predicate CutToMillis(call: Call) {
    if call.Claiming? then Pin(call.claim) == call.claim
    else call.stage != Ended(InvalidRelease) ==> ValidRelease(call.release) && PinRelease(call.release) == call.release
  }

  lemma {:induction false} CallsAreCut(states: seq<System>, steps: seq<Step>, n: nat, id: nat)
    requires IsRun(states, steps) && n < |states| && id in states[n].calls
    ensures CutToMillis(states[n].calls[id])
  {
    ReachableInv(states, steps, n - 1);
    assert states[n - 1 + 1] == Next(states[n - 1], steps[n - 1]);
    if id in states[n - 1].calls {
      CallsAreCut(states, steps, n - 1, id);
      NextKeepsCall(states[n - 1], steps[n - 1], id);
    }
  }

  /** The registry after n steps had each call that landed been decided and carried out all at once where it landed. */
  ghost function Serial(states: seq<System>, steps: seq<Step>, n: nat): Table
    requires |states| == |steps| + 1 && n <= |steps|
  {
    if n == 0 then states[0].table
    else
      var before, step := Serial(states, steps, n - 1), steps[n - 1];
      if Lands(states, steps, n - 1, step.id) then Effect(states[n - 1].calls[step.id], before, step.ts) else before
  }

  /** Every interleaving leaves the registry that its landed calls leave one after another. */
  lemma {:induction false} RegistryIsSerial(states: seq<System>, steps: seq<Step>, n: nat)
    requires IsRun(states, steps) && n < |states|
    ensures states[n].table == Serial(states, steps, n)
  {
    if n > 0 {
      var before, step := states[n - 1], steps[n - 1];
      RegistryIsSerial(states, steps, n - 1);
      ReachableInv(states, steps, n - 1);
      assert states[n - 1 + 1] == Next(before, step);
      if step.Advance? && step.id in before.calls {
        CallsAreCut(states, steps, n - 1, step.id);
        WriteChanges(before.calls[step.id], before.table, step.ts);
        if WriteOf(before.calls[step.id], before.table, step.ts).Matched? {
          WriteIsDecision(before.calls[step.id], before.table, step.ts);
        }
      }
    }
  }
}
