/** A call that nothing interferes with ends, and ends with the one answer the registry calls for. */
module ClaimAlone {
  import opened Registry
  import RegistryLaws
  import opened ClaimProtocol
  import opened ClaimSteps

  /** n operations of one call in a row, all at server time ts. */
  ghost function Alone(call: Call, t: Table, ts: int, n: nat): (Call, Table)
    decreases n
  {
    if n == 0 then (call, t)
    else Alone(NextCall(call, t, ts), TableAfter(t, WriteOf(call, t, ts)), ts, n - 1)
  }

  lemma {:induction false} DoneStaysDone(call: Call, t: Table, ts: int, n: nat)
    requires call.Done()
    ensures Alone(call, t, ts, n) == (call, t)
  {
    if n > 0 {
      CallAfterWrite(call, t, ts);
      DoneStaysDone(call, t, ts, n - 1);
    }
  }

  lemma OneStep(call: Call, next: Call, t: Table, ts: int, n: nat)
    requires !WriteOf(call, t, ts).Matched? && NextCall(call, t, ts) == next
    ensures Alone(call, t, ts, n + 1) == Alone(next, t, ts, n)
  {
  }

  lemma LastStep(call: Call, done: Call, t: Table, t': Table, ts: int, n: nat)
    requires WriteOf(call, t, ts) == Matched(t') && NextCall(call, t, ts) == done && done.Done()
    ensures Alone(call, t, ts, n + 1) == (done, t')
  {
    DoneStaysDone(done, t', ts, n);
  }

  /** From the first read of a diagnosis three operations reach its conclusion. */
  lemma DiagnosisAlone(call: Call, t: Table, ts: int, n: nat)
    requires call.Claiming? && call.at.ReadingHandle? && !DiagnoseClaim(t, call.claim).ClaimRaced?
    ensures Alone(call, t, ts, n + 3) == (call.(at := Answered(DiagnoseClaim(t, call.claim))), t)
  {
    var one := NextCall(call, t, ts);
    var two := NextCall(one, t, ts);
    var three := NextCall(two, t, ts);
    OneStep(call, one, t, ts, n + 2);
    OneStep(one, two, t, ts, n + 1);
    OneStep(two, three, t, ts, n);
    DoneStaysDone(three, t, ts, n);
  }

  /** Where a write lands, three operations are enough. */
  lemma AcceptedAlone(call: Call, t: Table, ts: int, n: nat)
    requires Inv(t) && call.Claiming? && call.at.Updating?
    requires RegistryLaws.ThreeWrites(t, call.claim, ts).Matched?
    ensures Alone(call, t, ts, n + 3)
            == (call.(at := Answered(Decide(t, call.claim))), TableAfterClaim(t, call.claim, ts))
  {
    var p := call.claim;
    var done, t' := call.(at := Answered(Decide(t, p))), TableAfterClaim(t, p, ts);
    var reclaiming, inserting := call.(at := Reclaiming), call.(at := Inserting);
    RegistryLaws.WritesLandIffAccepted(t, p, ts);
    if OwnerUpdate(t, p, ts).Matched? {
      LastStep(call, done, t, t', ts, n + 2);
    } else if Reclaim(t, p, ts).Matched? {
      OneStep(call, reclaiming, t, ts, n + 2);
      LastStep(reclaiming, done, t, t', ts, n + 1);
    } else {
      OneStep(call, reclaiming, t, ts, n + 2);
      OneStep(reclaiming, inserting, t, ts, n + 1);
      LastStep(inserting, done, t, t', ts, n);
    }
  }

  /** Where none does, the call gets to the diagnosis within three. */
  lemma RefusedReads(call: Call, t: Table, ts: int, n: nat) returns (extra: nat)
    requires call.Claiming? && call.at.Updating? && !RegistryLaws.ThreeWrites(t, call.claim, ts).Matched?
    ensures Alone(call, t, ts, n + 3) == Alone(call.(at := ReadingHandle), t, ts, n + extra)
  {
    var reading, reclaiming, inserting :=
      call.(at := ReadingHandle), call.(at := Reclaiming), call.(at := Inserting);
    if OwnerUpdate(t, call.claim, ts).Duplicate? {
      OneStep(call, reading, t, ts, n + 2);
      extra := 2;
    } else if Reclaim(t, call.claim, ts).Duplicate? {
      OneStep(call, reclaiming, t, ts, n + 2);
      OneStep(reclaiming, reading, t, ts, n + 1);
      extra := 1;
    } else {
      OneStep(call, reclaiming, t, ts, n + 2);
      OneStep(reclaiming, inserting, t, ts, n + 1);
      OneStep(inserting, reading, t, ts, n);
      extra := 0;
    }
  }

  /** Three more read the reason. */
  lemma RefusedAlone(call: Call, t: Table, ts: int, n: nat)
    requires Inv(t) && call.Claiming? && call.at.Updating? && n >= 3
    requires !RegistryLaws.ThreeWrites(t, call.claim, ts).Matched?
    ensures Alone(call, t, ts, n + 3) == (call.(at := Answered(Decide(t, call.claim))), t)
  {
    RegistryLaws.RefusalIsExplained(t, call.claim, ts);
    var extra := RefusedReads(call, t, ts, n);
    DiagnosisAlone(call.(at := ReadingHandle), t, ts, n + extra - 3);
  }

  /** Left alone, a claim needs at most six operations, decides as one look at the registry would, and never retries. */
  lemma ClaimAloneDecides(c: Claim, t: Table, ts: int, n: nat)
    requires Inv(t) && n >= 6
    ensures Alone(BeginClaim(c), t, ts, n)
            == (Claiming(Pin(c), false, Answered(Decide(t, Pin(c)))), TableAfterClaim(t, Pin(c), ts))
  {
    RegistryLaws.WritesLandIffAccepted(t, Pin(c), ts);
    if RegistryLaws.ThreeWrites(t, Pin(c), ts).Matched? {
      AcceptedAlone(BeginClaim(c), t, ts, n - 3);
    } else {
      RefusedAlone(BeginClaim(c), t, ts, n - 3);
    }
  }

  lemma ReleaseAloneDecides(r: Release, t: Table, ts: int)
    ensures Alone(BeginRelease(r), t, ts, 2).0.stage == Ended(DecideRelease(t, PinRelease(r)))
    ensures Alone(BeginRelease(r), t, ts, 2).1 == TableAfterRelease(t, PinRelease(r), ts)
    ensures !DecideRelease(t, PinRelease(r)).AppliedNowhere?
  {
    var call := BeginRelease(r);
    if ValidRelease(r) {
      RegistryLaws.ReleaseDecided(t, PinRelease(r), ts);
      var one := NextCall(call, t, ts);
      assert Alone(call, t, ts, 2) == Alone(one, TableAfter(t, WriteOf(call, t, ts)), ts, 1);
      if one.Done() { DoneStaysDone(one, TableAfter(t, WriteOf(call, t, ts)), ts, 1); }
    } else {
      DoneStaysDone(call, t, ts, 2);
    }
  }
}
