/** How a handle's row moves through a run: replay guard, the frozen released row, and who may hold what, when. */
module ClaimHistory {
  import opened Wrappers
  import opened Registry
  import opened ClaimProtocol
  import opened ClaimSteps
  import opened ClaimRuns

  // --- the replay guard ----------------------------------------------------------

  /** The issuedAt a landed write brings: a claim's, or an owner tombstone's. */
  function Stamp(call: Call): Option<int> {
    if call.Claiming? then Some(call.claim.issuedAt)
    else if call.release.owner.Some? then call.release.issuedAt
    else None
  }

  ghost predicate StampLands(states: seq<System>, steps: seq<Step>, k: nat, h: string, stamp: int)
    requires k < |steps| && |states| == |steps| + 1
  {
    && (ClaimLands(states, steps, k, h) || ReleaseLands(states, steps, k, h))
    && Stamp(states[k].calls[steps[k].id]) == Some(stamp)
  }

  /**
   A landed certificate or tombstone is newer than everything the handle held up to then, and becomes what it holds.
   */
  lemma StampBeatsHistory(states: seq<System>, steps: seq<Step>, i: nat, k: nat, h: string, stamp: int)
    requires IsRun(states, steps) && i <= k < |steps| && StampLands(states, steps, k, h, stamp)
    ensures h in states[i].table ==> states[i].table[h].issuedAt < stamp
    ensures h in states[k + 1].table && states[k + 1].table[h].issuedAt == stamp
  {
    StepMovesRow(states, steps, k, h);
    if h in states[i].table {
      RowsPersist(states, steps, i, k, h);
    }
  }

  /** No certificate or tombstone lands twice on a handle, nor one that an earlier one already superseded. */
  lemma StampsStrictlyRise(states: seq<System>, steps: seq<Step>, j: nat, k: nat, h: string, first: int, second: int)
    requires IsRun(states, steps) && j < k < |steps|
    requires StampLands(states, steps, j, h, first) && StampLands(states, steps, k, h, second)
    ensures first < second
  {
    StampBeatsHistory(states, steps, j, j, h, first);
    StampBeatsHistory(states, steps, j + 1, k, h, second);
  }

  // --- held until released ---------------------------------------------------------

  /** Until a release lands on it, an active handle stays with the same key. */
  lemma {:induction false} HeldUntilReleased(states: seq<System>, steps: seq<Step>, i: nat, j: nat, h: string)
    requires IsRun(states, steps) && i <= j < |states| && h in states[i].table && states[i].table[h].Active()
    requires forall k | i <= k < j :: !ReleaseLands(states, steps, k, h)
    ensures h in states[j].table && states[j].table[h].identityKey == states[i].table[h].identityKey
  {
    if i < j {
      HeldUntilReleased(states, steps, i, j - 1, h);
      StepMovesRow(states, steps, j - 1, h);
      assert !ReleaseLands(states, steps, j - 1, h);
    }
  }

  ghost predicate CreatedAt(states: seq<System>, steps: seq<Step>, k: nat, c: Claim)
    requires k < |steps| && |states| == |steps| + 1
  {
    && ClaimLands(states, steps, k, c.handle)
    && states[k].calls[steps[k].id].claim == c && !states[k].calls[steps[k].id].at.Updating?
  }

  ghost predicate ReleasedBetween(states: seq<System>, steps: seq<Step>, j: nat, k: nat, h: string)
    requires k <= |steps| && |states| == |steps| + 1
  {
    exists i :: j < i < k && ReleaseLands(states, steps, i, h)
  }

  /** Between two claims created for one handle, or for one key, the handle held was released. */
  lemma CreatedTwiceMeansReleased(states: seq<System>, steps: seq<Step>, j: nat, k: nat, first: Claim, second: Claim)
    requires IsRun(states, steps) && j < k < |steps|
    requires CreatedAt(states, steps, j, first) && CreatedAt(states, steps, k, second)
    requires first.handle == second.handle || first.identityKey == second.identityKey
    ensures ReleasedBetween(states, steps, j, k, first.handle)
  {
    StepMovesRow(states, steps, j, first.handle);
    StepMovesRow(states, steps, k, second.handle);
    RowsPersist(states, steps, j + 1, k, first.handle);
    ReachableInv(states, steps, k + 1);
    if !ReleasedBetween(states, steps, j, k, first.handle) {
      HeldUntilReleased(states, steps, j + 1, k, first.handle);
    }
  }

  // --- one skeleton, one handle ------------------------------------------------------

  /** Every claim carries the fixed fold of its handle, as does every row there was to begin with. */
  ghost predicate FoldedClaims(states: seq<System>, steps: seq<Step>, fold: string -> string)
    requires |states| > 0
  {
    && (forall h | h in states[0].table :: states[0].table[h].skeleton == fold(h))
    && (forall k | 0 <= k < |steps| && steps[k].StartClaim? :: steps[k].claim.skeleton == fold(steps[k].claim.handle))
  }

  ghost predicate Folded(s: System, fold: string -> string) {
    && (forall h | h in s.table :: s.table[h].skeleton == fold(h))
    && (forall id | id in s.calls && s.calls[id].Claiming? ::
          s.calls[id].claim.skeleton == fold(s.calls[id].claim.handle))
  }

  lemma {:induction false} RowsStayFolded(states: seq<System>, steps: seq<Step>, n: nat, fold: string -> string)
    requires IsRun(states, steps) && n < |states| && FoldedClaims(states, steps, fold)
    ensures Folded(states[n], fold)
  {
    if n > 0 {
      var before, step := states[n - 1], steps[n - 1];
      RowsStayFolded(states, steps, n - 1, fold);
      ReachableInv(states, steps, n - 1);
      assert states[n - 1 + 1] == Next(before, step);
      forall id | id in states[n].calls && states[n].calls[id].Claiming?
        ensures states[n].calls[id].claim.skeleton == fold(states[n].calls[id].claim.handle)
      {
        if id in before.calls { NextKeepsCall(before, step, id); }
      }
      forall h | h in states[n].table ensures states[n].table[h].skeleton == fold(h) {
        StepMovesRow(states, steps, n - 1, h);
      }
    }
  }

  lemma {:induction false} CreatedHandleStays(states: seq<System>, steps: seq<Step>, n: nat, id: nat)
    requires IsRun(states, steps) && n < |states| && id in states[n].calls
    requires states[n].calls[id].Claiming? && states[n].calls[id].ReportsWrite()
    ensures states[n].calls[id].claim.handle in states[n].table
  {
    var k := AcceptedClaimWrote(states, steps, n, id);
    RowsPersist(states, steps, k + 1, n, states[n].calls[id].claim.handle);
  }

  /** Two calls told Created (or Updated) with one skeleton are for one handle, whatever was released in between. */
  lemma OneSkeletonOneHandle(states: seq<System>, steps: seq<Step>, n: nat, a: nat, b: nat, fold: string -> string)
    requires IsRun(states, steps) && n < |states| && FoldedClaims(states, steps, fold)
    requires a in states[n].calls && states[n].calls[a].Claiming? && states[n].calls[a].ReportsWrite()
    requires b in states[n].calls && states[n].calls[b].Claiming? && states[n].calls[b].ReportsWrite()
    requires states[n].calls[a].claim.skeleton == states[n].calls[b].claim.skeleton
    ensures states[n].calls[a].claim.handle == states[n].calls[b].claim.handle
  {
    CreatedHandleStays(states, steps, n, a);
    CreatedHandleStays(states, steps, n, b);
    RowsStayFolded(states, steps, n, fold);
    ReachableInv(states, steps, n);
  }

  // --- the released row ----------------------------------------------------------------

  /** A released row does not move, in any field, until a claim on its handle lands. */
  lemma {:induction false} ReleasedRowFrozen(states: seq<System>, steps: seq<Step>, i: nat, j: nat, h: string)
    requires IsRun(states, steps) && i <= j < |states| && h in states[i].table && !states[i].table[h].Active()
    requires forall k | i <= k < j :: !ClaimLands(states, steps, k, h)
    ensures h in states[j].table && states[j].table[h] == states[i].table[h]
  {
    if i < j {
      ReleasedRowFrozen(states, steps, i, j - 1, h);
      StepMovesRow(states, steps, j - 1, h);
      assert !ClaimLands(states, steps, j - 1, h);
    }
  }

  /** Step i is the release that put handle h into the state it is in at states[j]. */
  ghost predicate ReleasedIt(states: seq<System>, steps: seq<Step>, i: nat, j: nat, h: string)
    requires i < j < |states| && |states| == |steps| + 1
  {
    && ReleaseLands(states, steps, i, h)
    && h in states[i].table && states[i].table[h].Active()
    && h in states[j].table
    && states[j].table[h] == Parted(states[i].table[h], states[i].calls[steps[i].id].release, steps[i].ts)
  }

  /** Only operator releases under another name than the owner's, and no row from before the run. */
  ghost predicate FreshRegistry(states: seq<System>, steps: seq<Step>)
    requires |states| > 0
  {
    && states[0].table == map[]
    && (forall k | 0 <= k < |steps| && steps[k].StartRelease? && steps[k].release.owner.None? ::
          steps[k].release.releasedBy != RELEASED_BY_OWNER)
  }

  /** Every released row was put there by one release, which is what its fields record. */
  lemma {:induction false} ReleasedRowHasReleaser(states: seq<System>, steps: seq<Step>, j: nat, h: string)
    returns (i: nat)
    requires IsRun(states, steps) && FreshRegistry(states, steps)
    requires j < |states| && h in states[j].table && !states[j].table[h].Active()
    ensures i < j && ReleasedIt(states, steps, i, j, h)
  {
    StepMovesRow(states, steps, j - 1, h);
    if ReleaseLands(states, steps, j - 1, h) {
      i := j - 1;
    } else {
      i := ReleasedRowHasReleaser(states, steps, j - 1, h);
    }
  }

  /** Cut to milliseconds, and a release that was let in is signed "owner" by an owner and nobody else. */
  ghost predicate SoundRelease(call: Call) {
    && CutToMillis(call)
    && (call.Parting? && call.stage != Ended(InvalidRelease) ==>
          (call.release.owner.Some? <==> call.release.releasedBy == RELEASED_BY_OWNER))
  }

  lemma {:induction false} ReleasesAreSound(states: seq<System>, steps: seq<Step>, n: nat, id: nat)
    requires IsRun(states, steps) && FreshRegistry(states, steps) && n < |states| && id in states[n].calls
    ensures SoundRelease(states[n].calls[id])
  {
    CallsAreCut(states, steps, n, id);
    ReachableInv(states, steps, n - 1);
    assert states[n - 1 + 1] == Next(states[n - 1], steps[n - 1]);
    if id in states[n - 1].calls {
      ReleasesAreSound(states, steps, n - 1, id);
      NextKeepsCall(states[n - 1], steps[n - 1], id);
    } else {
      assert steps[n - 1].StartRelease? ==> SoundRelease(BeginRelease(steps[n - 1].release));
    }
  }

  /** While a released handle cools down, only the key whose own tombstone released it gets it back. */
  lemma CooldownBinds(states: seq<System>, steps: seq<Step>, i: nat, k: nat, c: Claim)
    requires IsRun(states, steps) && FreshRegistry(states, steps)
    requires i < k < |steps| && ReleasedIt(states, steps, i, k, c.handle) && CreatedAt(states, steps, k, c)
    ensures var r := states[i].calls[steps[i].id].release;
            r.cooldownUntil.Some? && c.now < r.cooldownUntil.value ==> r.owner == Some(c.identityKey)
  {
    StepMovesRow(states, steps, i, c.handle);
    StepMovesRow(states, steps, k, c.handle);
    ReleasesAreSound(states, steps, i, steps[i].id);
    ReachableInv(states, steps, i);
  }

  /**
   Against a released row, an owner's tombstone is answered as already applied exactly when it is the one that
   released it.
   */
  lemma AlreadyAppliedExactly(states: seq<System>, steps: seq<Step>, i: nat, j: nat, tombstone: Release)
    requires IsRun(states, steps) && FreshRegistry(states, steps)
    requires i < j < |states| && ReleasedIt(states, steps, i, j, tombstone.handle)
    requires ValidRelease(tombstone) && tombstone.owner.Some?
    ensures var r := states[i].calls[steps[i].id].release;
            DiagnoseRelease(GetHandle(states[j].table, tombstone.handle), PinRelease(tombstone)) == AlreadyApplied
            <==> r.owner == tombstone.owner && r.issuedAt == MsOption(tombstone.issuedAt)
  {
    StepMovesRow(states, steps, i, tombstone.handle);
    ReleasesAreSound(states, steps, i, steps[i].id);
    ReachableInv(states, steps, i);
  }
}
