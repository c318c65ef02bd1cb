/**
 Claims and releases as concurrent calls over one registry. Every database write
 and every read of a diagnosis is one atomic step, and any call may take the next.
 */
module ClaimProtocol {
  import opened Wrappers
  import opened Registry

  /** The database operation a claim is about to make. */
  datatype ClaimPhase =
    | Updating | Reclaiming | Inserting
    | ReadingHandle | ReadingOwnedSkeleton | ReadingKey(rec: Option<Row>) | ReadingSkeleton
    | Answered(outcome: ClaimOutcome)

  datatype ReleasePhase = Releasing | ReadingRow | Ended(outcome: ReleaseOutcome)

  datatype Call =
    | Claiming(claim: Claim, retried: bool, at: ClaimPhase)
    | Parting(release: Release, stage: ReleasePhase)
  {
    predicate Done() {
      if Claiming? then at.Answered? else stage.Ended?
    }

    /** The call reports that its write is in the registry. */
    predicate ReportsWrite() {
      if Claiming? then at.Answered? && Accepted(at.outcome) else stage == Ended(Applied)
    }

    function Handle(): string {
      if Claiming? then claim.handle else release.handle
    }
  }

  datatype System = System(table: Table, calls: map<nat, Call>)

  /** A call begins, or call id makes its next database operation at server time ts. */
  datatype Step =
    | StartClaim(id: nat, claim: Claim)
    | StartRelease(id: nat, release: Release)
    | Advance(id: nat, ts: int)

  function BeginClaim(c: Claim): Call { Claiming(Pin(c), false, Updating) }

  function BeginRelease(r: Release): Call {
    if ValidRelease(r) then Parting(PinRelease(r), Releasing) else Parting(r, Ended(InvalidRelease))
  }

  /** The write a call's next operation makes; a read writes nothing. */
  function WriteOf(call: Call, t: Table, ts: int): Write {
    if call.Parting? then
      if call.stage.Releasing? then ReleaseWrite(t, call.release, ts) else NoMatch
    else match call.at
      case Updating => OwnerUpdate(t, call.claim, ts)
      case Reclaiming => Reclaim(t, call.claim, ts)
      case Inserting => Insert(t, call.claim, ts)
      case _ => NoMatch
  }

  /** An answer ends the call, except that the first lost race starts the second pass. */
  function Conclude(call: Call, o: ClaimOutcome): Call
    requires call.Claiming?
  {
    if o.ClaimRaced? && !call.retried then call.(retried := true, at := Updating) else call.(at := Answered(o))
  }

  function AfterWrite(call: Call, w: Write): Call
    requires call.Claiming?
  {
    match w
    case Matched(_) => Conclude(call, if call.at.Updating? then Updated else Created)
    case NoMatch =>
      call.(at := if call.at.Updating? then Reclaiming else if call.at.Reclaiming? then Inserting else ReadingHandle)
    case Duplicate => call.(at := ReadingHandle)
  }

  ghost function NextClaim(call: Call, t: Table, ts: int): Call
    requires call.Claiming?
  {
    var c := call.claim;
    match call.at
    case Answered(_) => call
    case ReadingHandle =>
      (match AfterHandle(GetHandle(t, c.handle), c)
       case Answer(o) => Conclude(call, o)
       case ReadOwnedSkeleton => call.(at := ReadingOwnedSkeleton)
       case ReadKey => call.(at := ReadingKey(GetHandle(t, c.handle))))
    case ReadingKey(rec) =>
      if GetHandleByIdentityKey(t, c.identityKey).Some? then Conclude(call, KeyHasHandle)
      else if CoolingDown(rec, c) then Conclude(call, Cooldown)
      else call.(at := ReadingSkeleton)
    case ReadingOwnedSkeleton => Conclude(call, AfterSkeleton(GetHandleBySkeleton(t, c.skeleton), c))
    case ReadingSkeleton => Conclude(call, AfterSkeleton(GetHandleBySkeleton(t, c.skeleton), c))
    case _ => AfterWrite(call, WriteOf(call, t, ts))
  }

  ghost function NextRelease(call: Call, t: Table, ts: int): Call
    requires call.Parting?
  {
    match call.stage
    case Ended(_) => call
    case Releasing => call.(stage := if WriteOf(call, t, ts).Matched? then Ended(Applied) else ReadingRow)
    case ReadingRow => call.(stage := Ended(DiagnoseRelease(GetHandle(t, call.release.handle), call.release)))
  }

  ghost function NextCall(call: Call, t: Table, ts: int): Call {
    if call.Claiming? then NextClaim(call, t, ts) else NextRelease(call, t, ts)
  }

  function TableAfter(t: Table, w: Write): Table {
    if w.Matched? then w.table else t
  }

  /** A step for a call that is already there (or not yet there) changes nothing. */
  ghost function Next(s: System, step: Step): System {
    match step
    case StartClaim(id, c) => if id in s.calls then s else s.(calls := s.calls[id := BeginClaim(c)])
    case StartRelease(id, r) => if id in s.calls then s else s.(calls := s.calls[id := BeginRelease(r)])
    case Advance(id, ts) =>
      if id !in s.calls then s
      else System(TableAfter(s.table, WriteOf(s.calls[id], s.table, ts)),
                  s.calls[id := NextCall(s.calls[id], s.table, ts)])
  }

  /** Any interleaving, from any registry that keeps the invariant and before any call. */
  ghost predicate IsRun(states: seq<System>, steps: seq<Step>) {
    && |states| == |steps| + 1
    && Inv(states[0].table) && states[0].calls == map[]
    && forall i | 0 <= i < |steps| :: states[i + 1] == Next(states[i], steps[i])
  }

  /** Step k is a write of call id that changed the registry. */
  ghost predicate Lands(states: seq<System>, steps: seq<Step>, k: nat, id: nat)
    requires k < |steps| && |states| == |steps| + 1
  {
    steps[k].Advance? && steps[k].id == id && id in states[k].calls && states[k + 1].table != states[k].table
  }

  ghost predicate ClaimLands(states: seq<System>, steps: seq<Step>, k: nat, h: string)
    requires k < |steps| && |states| == |steps| + 1
  {
    && Lands(states, steps, k, steps[k].id)
    && states[k].calls[steps[k].id].Claiming? && states[k].calls[steps[k].id].claim.handle == h
  }

  ghost predicate ReleaseLands(states: seq<System>, steps: seq<Step>, k: nat, h: string)
    requires k < |steps| && |states| == |steps| + 1
  {
    && Lands(states, steps, k, steps[k].id)
    && states[k].calls[steps[k].id].Parting? && states[k].calls[steps[k].id].release.handle == h
  }

  // --- single steps ------------------------------------------------------------

  /** What one call's next operation does to the registry: nothing, or one guarded write to its own handle's row. */
  ghost predicate GuardedWrite(call: Call, t: Table, t': Table, ts: int) {
    var h := call.Handle();
    if call.Claiming? then
      var c := call.claim;
      && t' == t[h := Held(c, if h in t then t[h].createdAt else ts, ts)]
      && (h in t ==> t[h].issuedAt < c.issuedAt)
      && (call.at.Updating? ==> OwnerGuard(t, c))
      && (call.at.Reclaiming? ==> ReclaimGuard(t, c))
      && (call.at.Inserting? ==> h !in t)
      && !call.Done()
    else
      && call.stage.Releasing?
      && ReleaseGuard(t, call.release)
      && t' == t[h := Parted(t[h], call.release, ts)]
  }
}
