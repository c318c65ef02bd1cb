/** Every named answer a call returns was true of the registry at some moment while the call ran. */
module ClaimAnswers {
  import opened Wrappers
  import opened Registry
  import RegistryLaws
  import opened ClaimProtocol
  import opened ClaimSteps
  import opened ClaimRuns

  /** The registry fact each answer to claim c asserts. AcceptedClaimWrote and RacedTwice say what the others mean. */
  ghost predicate True(t: Table, c: Claim, o: ClaimOutcome) {
    var rec := GetHandle(t, c.handle);
    match o
    case HandleTaken => rec.Some? && rec.value.Active() && rec.value.identityKey != Some(c.identityKey)
    case Unchanged => rec.Some? && rec.value.identityKey == Some(c.identityKey) && SameCertificate(rec.value, c)
    case StaleCertificate =>
      && rec.Some?
      && (|| c.issuedAt <= rec.value.issuedAt
          || (rec.value.identityKey == Some(c.identityKey) && rec.value.serialNumber == c.serialNumber))
    case KeyHasHandle => KeyHolds(t, c.identityKey)
    case Cooldown => CoolingDown(rec, c) && !rec.value.Active()
    case TooSimilar => LooksLikeAnother(t, c)
    case _ => true
  }

  ghost predicate Running(s: System, id: nat) {
    id in s.calls && !s.calls[id].Done()
  }

  ghost predicate WasTrue(states: seq<System>, n: nat, id: nat, c: Claim, o: ClaimOutcome)
    requires n <= |states|
  {
    exists j :: 0 <= j < n && Running(states[j], id) && True(states[j].table, c, o)
  }

  ghost predicate WasRead(states: seq<System>, n: nat, id: nat, handle: string, rec: Option<Row>)
    requires n <= |states|
  {
    exists j :: 0 <= j < n && Running(states[j], id) && GetHandle(states[j].table, handle) == rec
  }

  /**
   One operation of a claim either leaves it running or answers with something true right now (or of the row it read).
   */
  lemma AnswerIsTrueNow(call: Call, t: Table, ts: int)
    requires Inv(t) && call.Claiming? && !call.Done()
    ensures var after := NextCall(call, t, ts);
            && (after.at.ReadingKey? ==> after.at.rec == GetHandle(t, call.claim.handle)
                                          && (after.at.rec.Some? ==> !after.at.rec.value.Active()))
            && (after.Done() ==> True(t, call.claim, after.at.outcome)
                                 || (call.at.ReadingKey? && after.at.outcome == Cooldown
                                       && CoolingDown(call.at.rec, call.claim)))
  {
    if call.at.ReadingKey? {
      RegistryLaws.KeyReadDecides(t, call.claim.identityKey);
    } else {
      RegistryLaws.SkeletonReadDecides(t, call.claim);
    }
  }

  lemma {:induction false} AnswersWereTrue(states: seq<System>, steps: seq<Step>, n: nat, id: nat)
    requires IsRun(states, steps) && n < |states| && id in states[n].calls && states[n].calls[id].Claiming?
    ensures var call := states[n].calls[id];
            && (call.Done() ==> WasTrue(states, n, id, call.claim, call.at.outcome))
            && (call.at.ReadingKey? ==> WasRead(states, n, id, call.claim.handle, call.at.rec)
                                        && (call.at.rec.Some? ==> !call.at.rec.value.Active()))
  {
    var before := states[n - 1];
    var call := states[n].calls[id];
    ReachableInv(states, steps, n - 1);
    assert states[n - 1 + 1] == Next(before, steps[n - 1]);
    if id in before.calls {
      NextKeepsCall(before, steps[n - 1], id);
      AnswersWereTrue(states, steps, n - 1, id);
      if before.calls[id] != call {
        AnswerIsTrueNow(before.calls[id], before.table, steps[n - 1].ts);
        assert Running(before, id);
        if call.Done() && !True(before.table, call.claim, call.at.outcome) {
          var j :| 0 <= j < n - 1 && Running(states[j], id)
                   && GetHandle(states[j].table, call.claim.handle) == before.calls[id].at.rec;
          assert True(states[j].table, call.claim, call.at.outcome);
        }
      } else if call.Done() {
        var j :| 0 <= j < n - 1 && Running(states[j], id) && True(states[j].table, call.claim, call.at.outcome);
      } else if call.at.ReadingKey? {
        var j :| 0 <= j < n - 1 && Running(states[j], id)
                 && GetHandle(states[j].table, call.claim.handle) == call.at.rec;
      }
    }
  }

  // --- what a race means ---------------------------------------------------------

  /** Where the call has got to is where one undisturbed pass over registry t gets to. */
  ghost predicate OnTrack(call: Call, t: Table)
    requires call.Claiming?
  {
    var c := call.claim;
    match call.at
    case Updating => true
    case Reclaiming => !OwnerGuard(t, c)
    case Inserting => !OwnerGuard(t, c) && !ReclaimGuard(t, c)
    case ReadingHandle => !Accepted(Decide(t, c))
    case ReadingOwnedSkeleton => !Accepted(Decide(t, c)) && AfterHandle(GetHandle(t, c.handle), c).ReadOwnedSkeleton?
    case ReadingKey(rec) =>
      !Accepted(Decide(t, c)) && rec == GetHandle(t, c.handle) && AfterHandle(rec, c).ReadKey?
    case ReadingSkeleton =>
      && !Accepted(Decide(t, c)) && AfterHandle(GetHandle(t, c.handle), c).ReadKey?
      && !KeyHolds(t, c.identityKey) && !CoolingDown(GetHandle(t, c.handle), c)
    case Answered(o) => !o.ClaimRaced?
  }

  lemma WritingStaysOnTrack(call: Call, t: Table, ts: int)
    requires Inv(t) && call.Claiming? && (call.at.Updating? || call.at.Reclaiming? || call.at.Inserting?)
        && OnTrack(call, t)
    ensures OnTrack(NextCall(call, t, ts), TableAfter(t, WriteOf(call, t, ts)))
    ensures NextCall(call, t, ts).retried == call.retried
  {
    RegistryLaws.WritesLandIffAccepted(t, call.claim, ts);
  }

  lemma ReadingStaysOnTrack(call: Call, t: Table, ts: int)
    requires Inv(t) && call.Claiming? && !call.Done() && OnTrack(call, t)
    requires !call.at.Updating? && !call.at.Reclaiming? && !call.at.Inserting?
    ensures WriteOf(call, t, ts).NoMatch?
    ensures OnTrack(NextCall(call, t, ts), t) && NextCall(call, t, ts).retried == call.retried
  {
    if call.at.ReadingKey? {
      RegistryLaws.KeyReadDecides(t, call.claim.identityKey);
    } else if !call.at.ReadingHandle? {
      RegistryLaws.SkeletonReadDecides(t, call.claim);
    }
  }

  /** Its own operations keep an undisturbed pass on track, so they neither end in a race nor start a second pass. */
  lemma PassStaysOnTrack(call: Call, t: Table, ts: int)
    requires Inv(t) && call.Claiming? && !call.Done() && OnTrack(call, t)
    ensures OnTrack(NextCall(call, t, ts), TableAfter(t, WriteOf(call, t, ts)))
    ensures NextCall(call, t, ts).retried == call.retried
  {
    if call.at.Updating? || call.at.Reclaiming? || call.at.Inserting? {
      WritingStaysOnTrack(call, t, ts);
    } else {
      ReadingStaysOnTrack(call, t, ts);
    }
  }

  /** During call id's first or second pass (retried says which) some other call's write landed. */
  ghost predicate Disturbed(states: seq<System>, steps: seq<Step>, n: nat, id: nat, retried: bool)
    requires n <= |steps| && |states| == |steps| + 1
  {
    exists j :: 0 <= j < n && Running(states[j], id)
                && states[j].calls[id].Claiming? && states[j].calls[id].retried == retried
                && steps[j].id != id && states[j + 1].table != states[j].table
  }

  /** How one step of the run can change where claim id has got to. */
  lemma StepOnTrack(before: System, step: Step, after: System, id: nat)
    requires Inv(before.table) && id in before.calls && before.calls[id].Claiming? && after == Next(before, step)
    ensures id in after.calls && after.calls[id].Claiming?
    ensures var was, has := before.calls[id], after.calls[id];
            && (OnTrack(was, before.table) ==>
                  || (OnTrack(has, after.table) && has.retried == was.retried)
                  || (Running(before, id) && step.id != id && after.table != before.table && has == was))
            && (has.retried != was.retried ==> has.retried && OnTrack(has, after.table))
            && (has.at == Answered(ClaimRaced) ==> has.retried || has == was)
  {
    NextKeepsCall(before, step, id);
    if step.Advance? && step.id == id && OnTrack(before.calls[id], before.table) && Running(before, id) {
      PassStaysOnTrack(before.calls[id], before.table, step.ts);
    }
  }

  /** A claim that gives up as raced was overtaken twice: another call's write landed during each of its two passes. */
  lemma {:induction false} RacedTwice(states: seq<System>, steps: seq<Step>, n: nat, id: nat)
    requires IsRun(states, steps) && n < |states| && id in states[n].calls && states[n].calls[id].Claiming?
    ensures var call := states[n].calls[id];
            && (call.retried ==> Disturbed(states, steps, n, id, false))
            && (OnTrack(call, states[n].table) || Disturbed(states, steps, n, id, call.retried))
            && (call.at == Answered(ClaimRaced) ==>
                  call.retried && Disturbed(states, steps, n, id, false) && Disturbed(states, steps, n, id, true))
  {
    var before, step := states[n - 1], steps[n - 1];
    ReachableInv(states, steps, n - 1);
    assert states[n - 1 + 1] == Next(before, step);
    if id in before.calls {
      CallStaysClaim(before, step, id);
      RacedTwice(states, steps, n - 1, id);
      StillDisturbed(states, steps, n, id, false);
      StillDisturbed(states, steps, n, id, true);
      StepOnTrack(before, step, states[n], id);
    }
  }

  lemma CallStaysClaim(s: System, step: Step, id: nat)
    requires Inv(s.table) && id in s.calls && Next(s, step).calls[id].Claiming?
    ensures s.calls[id].Claiming?
  {
    NextKeepsCall(s, step, id);
  }

  lemma StillDisturbed(states: seq<System>, steps: seq<Step>, n: nat, id: nat, retried: bool)
    requires 0 < n <= |steps| && |states| == |steps| + 1
    ensures Disturbed(states, steps, n - 1, id, retried) ==> Disturbed(states, steps, n, id, retried)
  {
    if Disturbed(states, steps, n - 1, id, retried) {
      var j :| 0 <= j < n - 1 && Running(states[j], id)
               && states[j].calls[id].Claiming? && states[j].calls[id].retried == retried
               && steps[j].id != id && states[j + 1].table != states[j].table;
      assert 0 <= j < n;
    }
  }

  // --- which answers are decisions -------------------------------------------------

  /** One look at the registry, at some moment of the call, decided o. */
  ghost predicate WasDecided(states: seq<System>, n: nat, id: nat, c: Claim, o: ClaimOutcome)
    requires n <= |states|
  {
    exists j :: 0 <= j < n && Running(states[j], id) && Decide(states[j].table, c) == o
  }

  /** Read off the handle's row alone, an answer is what the whole registry decides. */
  predicate RowDecides(o: ClaimOutcome) { o.HandleTaken? || o.Unchanged? || o.StaleCertificate? }

  /**
   When the operation at registry t that answers the claim answers as t decides: always, if the answer is read off the
   handle's row; and if another row is its reason, exactly when the handle's row stands as it was when read for the
   diagnosis (held by the key, or else open to the claim) and the key still holds nothing else.
   */
  ghost predicate AnswersAsDecided(call: Call, t: Table, o: ClaimOutcome)
    requires call.Claiming?
  {
    var c := call.claim;
    var rec := GetHandle(t, c.handle);
    match o
    case KeyHasHandle => AfterHandle(rec, c).ReadKey?
    case Cooldown => AfterHandle(rec, c).ReadKey? && CoolingDown(rec, c)
    case TooSimilar =>
      || AfterHandle(rec, c).ReadOwnedSkeleton?
      || (AfterHandle(rec, c).ReadKey? && !KeyHolds(t, c.identityKey) && !CoolingDown(rec, c))
    case _ => true
  }

  /** The diagnosis of call at registry t ends with answer o. */
  ghost predicate Concludes(call: Call, t: Table, ts: int, o: ClaimOutcome) {
    && call.Claiming? && !call.Done()
    && NextCall(call, t, ts).at == Answered(o) && !o.ClaimRaced? && !Accepted(o)
  }

  lemma HandleAnswerIsDecision(call: Call, t: Table, ts: int, o: ClaimOutcome)
    requires Concludes(call, t, ts, o) && call.at.ReadingHandle?
    ensures RowDecides(o) && Decide(t, call.claim) == o
  {
  }

  lemma KeyAnswerIsDecisionIff(call: Call, t: Table, ts: int, o: ClaimOutcome)
    requires Concludes(call, t, ts, o) && call.at.ReadingKey?
    ensures !RowDecides(o) && (Decide(t, call.claim) == o <==> AnswersAsDecided(call, t, o))
  {
    RegistryLaws.KeyReadDecides(t, call.claim.identityKey);
  }

  lemma SkeletonAnswerIsDecisionIff(call: Call, t: Table, ts: int, o: ClaimOutcome)
    requires Inv(t) && Concludes(call, t, ts, o) && (call.at.ReadingSkeleton? || call.at.ReadingOwnedSkeleton?)
    ensures !RowDecides(o) && (Decide(t, call.claim) == o <==> AnswersAsDecided(call, t, o))
  {
    RegistryLaws.SkeletonReadDecides(t, call.claim);
  }

  lemma AnswerIsDecisionIff(call: Call, t: Table, ts: int, o: ClaimOutcome)
    requires Inv(t) && Concludes(call, t, ts, o)
    ensures Decide(t, call.claim) == o <==> AnswersAsDecided(call, t, o)
    ensures RowDecides(o) ==> Decide(t, call.claim) == o
  {
    if call.at.ReadingHandle? {
      HandleAnswerIsDecision(call, t, ts, o);
    } else if call.at.ReadingKey? {
      KeyAnswerIsDecisionIff(call, t, ts, o);
    } else {
      SkeletonAnswerIsDecisionIff(call, t, ts, o);
    }
  }

  /** A pass still on track that answers answers as the registry decides then. */
  lemma OnTrackDecides(call: Call, t: Table, ts: int)
    requires Inv(t) && call.Claiming? && !call.Done() && OnTrack(call, t) && NextCall(call, t, ts).Done()
    ensures NextCall(call, t, ts).at.outcome == Decide(t, call.claim)
  {
    if WriteOf(call, t, ts).Matched? {
      WriteIsDecision(call, t, ts);
    } else {
      PassStaysOnTrack(call, t, ts);
      CallAfterWrite(call, t, ts);
      AnswerIsDecisionIff(call, t, ts, NextCall(call, t, ts).at.outcome);
    }
  }

  /**
   Over every interleaving the answers read off the handle's row, and the landed ones, are what the registry decided at
   some moment of the call; and so is any other, unless another call's write landed during the pass that answered.
   */
  lemma {:induction false} AnswersWereDecided(states: seq<System>, steps: seq<Step>, n: nat, id: nat)
    requires IsRun(states, steps) && n < |states| && id in states[n].calls
    requires states[n].calls[id].Claiming? && states[n].calls[id].Done()
    ensures var c, o, retried := states[n].calls[id].claim, states[n].calls[id].at.outcome, states[n].calls[id].retried;
            && (WasDecided(states, n, id, c, o) || Disturbed(states, steps, n, id, retried))
            && (RowDecides(o) || Accepted(o) ==> WasDecided(states, n, id, c, o))
  {
    var before, step, call := states[n - 1], steps[n - 1], states[n].calls[id];
    ReachableInv(states, steps, n - 1);
    assert states[n - 1 + 1] == Next(before, step);
    assert id in before.calls;
    NextKeepsCall(before, step, id);
    StillDisturbed(states, steps, n, id, call.retried);
    if Running(before, id) {
      RacedTwice(states, steps, n - 1, id);
      AnsweringStep(before.calls[id], before.table, step.ts);
    } else {
      AnswersWereDecided(states, steps, n - 1, id);
      if WasDecided(states, n - 1, id, call.claim, call.at.outcome) {
        var j :| 0 <= j < n - 1 && Running(states[j], id) && Decide(states[j].table, call.claim) == call.at.outcome;
        assert 0 <= j < n;
      }
    }
  }

  lemma AnsweringStep(call: Call, t: Table, ts: int)
    requires Inv(t) && call.Claiming? && !call.Done() && NextCall(call, t, ts).Done()
    ensures var after := NextCall(call, t, ts);
            && after.retried == call.retried
            && (OnTrack(call, t) ==> Decide(t, call.claim) == after.at.outcome)
            && (RowDecides(after.at.outcome) || Accepted(after.at.outcome) ==>
                  Decide(t, call.claim) == after.at.outcome)
  {
    if OnTrack(call, t) { OnTrackDecides(call, t, ts); }
    CallAfterWrite(call, t, ts);
    if WriteOf(call, t, ts).Matched? {
      WriteIsDecision(call, t, ts);
    } else if !NextCall(call, t, ts).at.outcome.ClaimRaced? {
      AnswerIsDecisionIff(call, t, ts, NextCall(call, t, ts).at.outcome);
    }
  }

  // --- every call ends -----------------------------------------------------------

  /** How many more operations of its own a call can need at most. */
  function Rank(call: Call): nat {
    if call.Parting? then
      if call.stage.Releasing? then 2 else if call.stage.ReadingRow? then 1 else 0
    else
      var left := match call.at
        case Updating => 6 case Reclaiming => 5 case Inserting => 4
        case ReadingHandle => 3 case ReadingKey(_) => 2 case _ => 1;
      if call.at.Answered? then 0 else left + if call.retried then 0 else 6
  }

  lemma RankFalls(call: Call, t: Table, ts: int)
    requires !call.Done()
    ensures Rank(NextCall(call, t, ts)) < Rank(call)
  {
  }

  /** How many of the first n steps were operations of call id while it ran. */
  ghost function OwnSteps(states: seq<System>, steps: seq<Step>, id: nat, n: nat): nat
    requires |states| == |steps| + 1 && n <= |steps|
  {
    if n == 0 then 0
    else OwnSteps(states, steps, id, n - 1)
         + if steps[n - 1].Advance? && steps[n - 1].id == id && Running(states[n - 1], id) then 1 else 0
  }

  /**
   Whatever the others do, a claim is answered within twelve operations of its own, its retry included, and a release
   within two.
   */
  lemma {:induction false} CallsEnd(states: seq<System>, steps: seq<Step>, n: nat, id: nat)
    requires IsRun(states, steps) && n < |states|
    ensures id !in states[n].calls ==> OwnSteps(states, steps, id, n) == 0
    ensures id in states[n].calls ==>
              OwnSteps(states, steps, id, n) + Rank(states[n].calls[id])
              <= if states[n].calls[id].Claiming? then 12 else 2
  {
    if n > 0 {
      CallsEnd(states, steps, n - 1, id);
      assert states[n - 1 + 1] == Next(states[n - 1], steps[n - 1]);
      if id in states[n - 1].calls {
        ReachableInv(states, steps, n - 1);
        NextKeepsCall(states[n - 1], steps[n - 1], id);
        if steps[n - 1].Advance? && steps[n - 1].id == id && Running(states[n - 1], id) {
          RankFalls(states[n - 1].calls[id], states[n - 1].table, steps[n - 1].ts);
        }
      }
    }
  }
}
