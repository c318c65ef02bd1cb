/** The registry's store: the collection as a field, its writes as methods that update rows in place. */
module HandleStores {
  import opened Wrappers
  import opened Registry
  import RegistryLaws

  datatype WriteStatus = Hit | Miss | DuplicateKey

  ghost predicate Answers(w: Write, status: WriteStatus, before: Table, after: Table) {
    match w
    case Matched(table) => status.Hit? && after == table
    case NoMatch => status.Miss? && after == before
    case Duplicate => status.DuplicateKey? && after == before
  }

  class HandleStore {
    var rows: Table

    ghost predicate Valid() reads this { Inv(rows) }

    constructor ()
      ensures Valid() && rows == map[]
    {
      rows := map[];
    }

    // --- one conditional write each --------------------------------------------

    method UpdateOwned(c: Claim, ts: int) returns (status: WriteStatus)
      modifies this
      ensures Answers(OwnerUpdate(old(rows), c, ts), status, old(rows), rows)
    {
      if !OwnerGuard(rows, c) { return Miss; }
      var row := rows[c.handle];
      row := row.(skeleton := c.skeleton, certificate := Some(c.certificate), serialNumber := c.serialNumber);
      row := row.(issuedAt := c.issuedAt, updatedAt := ts);
      if !IndexesAdmit(rows, c.handle, row) { return DuplicateKey; }
      rows := rows[c.handle := row];
      return Hit;
    }

    method ReclaimReleased(c: Claim, ts: int) returns (status: WriteStatus)
      modifies this
      ensures Answers(Reclaim(old(rows), c, ts), status, old(rows), rows)
    {
      if !ReclaimGuard(rows, c) { return Miss; }
      var row := rows[c.handle];
      row := row.(skeleton := c.skeleton, identityKey := Some(c.identityKey), lastIdentityKey := c.identityKey);
      row := row.(certificate := Some(c.certificate), serialNumber := c.serialNumber);
      row := row.(issuedAt := c.issuedAt, updatedAt := ts);
      row := row.(releasedAt := None, cooldownUntil := None, releasedBy := None);
      if !IndexesAdmit(rows, c.handle, row) { return DuplicateKey; }
      rows := rows[c.handle := row];
      return Hit;
    }

    method InsertNew(c: Claim, ts: int) returns (status: WriteStatus)
      modifies this
      ensures Answers(Insert(old(rows), c, ts), status, old(rows), rows)
    {
      var row := Held(c, ts, ts);
      if c.handle in rows || !IndexesAdmit(rows, c.handle, row) { return DuplicateKey; }
      rows := rows[c.handle := row];
      return Hit;
    }

    method UpdateReleased(r: Release, ts: int) returns (status: WriteStatus)
      modifies this
      ensures Answers(ReleaseWrite(old(rows), r, ts), status, old(rows), rows)
    {
      if !ReleaseGuard(rows, r) { return Miss; }
      var row := rows[r.handle];
      row := row.(identityKey := None, certificate := None, updatedAt := ts);
      row := row.(releasedAt := Some(r.now), releasedBy := Some(r.releasedBy));
      if r.owner.Some? && r.issuedAt.Some? {
        row := row.(issuedAt := r.issuedAt.value);
      }
      row := row.(cooldownUntil := r.cooldownUntil);
      rows := rows[r.handle := row];
      return Hit;
    }

    // --- the reads ---------------------------------------------------------------

    method FindBySkeleton(skeleton: string) returns (rec: Option<Row>)
      requires Valid()
      ensures rec == GetHandleBySkeleton(rows, skeleton)
    {
      if h :| h in rows && rows[h].skeleton == skeleton {
        assert HoldsSkeleton(rows, h, skeleton);
        rec := Some(rows[h]);
      } else {
        rec := None;
      }
    }

    method FindByIdentityKey(key: string) returns (rec: Option<Row>)
      requires Valid()
      ensures rec == GetHandleByIdentityKey(rows, key)
    {
      if h :| h in rows && rows[h].identityKey == Some(key) {
        assert HoldsKey(rows, h, key);
        rec := Some(rows[h]);
      } else {
        rec := None;
      }
    }

    method Diagnose(c: Claim) returns (outcome: ClaimOutcome)
      requires Valid()
      ensures outcome == DiagnoseClaim(rows, c)
    {
      var rec := GetHandle(rows, c.handle);
      match AfterHandle(rec, c) {
        case Answer(o) => return o;
        case ReadOwnedSkeleton =>
          var sim := FindBySkeleton(c.skeleton);
          return AfterSkeleton(sim, c);
        case ReadKey =>
          var other := FindByIdentityKey(c.identityKey);
          if other.Some? { return KeyHasHandle; }
          if CoolingDown(rec, c) { return Cooldown; }
          var sim := FindBySkeleton(c.skeleton);
          return AfterSkeleton(sim, c);
      }
    }

    // --- claim and release -------------------------------------------------------

    /** One pass: owner update, reclaim, insert, and the diagnosis of whatever was refused. */
    method ClaimOnce(claim: Claim, ts: int) returns (outcome: ClaimOutcome)
      requires Valid()
      modifies this
      ensures Valid()
      ensures outcome == Decide(old(rows), Pin(claim))
      ensures rows == TableAfterClaim(old(rows), Pin(claim), ts)
    {
      var c := Pin(claim);
      RegistryLaws.WritesLandIffAccepted(rows, c, ts);
      RegistryLaws.ClaimKeepsInv(rows, c, ts);
      if !RegistryLaws.ThreeWrites(rows, c, ts).Matched? {
        RegistryLaws.RefusalIsExplained(rows, c, ts);
      }
      var status := UpdateOwned(c, ts);
      if status.Hit? { return Updated; }
      if status.Miss? {
        status := ReclaimReleased(c, ts);
        if status.Hit? { return Created; }
        if status.Miss? {
          status := InsertNew(c, ts);
          if status.Hit? { return Created; }
        }
      }
      outcome := Diagnose(c);
    }

    /** A claim that lost a race is tried once more; undisturbed, the first pass always answers. */
    method ClaimHandle(claim: Claim, ts: int) returns (outcome: ClaimOutcome)
      requires Valid()
      modifies this
      ensures Valid()
      ensures outcome == Decide(old(rows), Pin(claim)) && !outcome.ClaimRaced?
      ensures rows == TableAfterClaim(old(rows), Pin(claim), ts)
      ensures outcome.Unchanged? <==> RegistryLaws.Holds(old(rows), Pin(claim))
      ensures Accepted(outcome) || outcome.Unchanged? ==>
                && claim.handle in rows && rows[claim.handle].identityKey == Some(claim.identityKey)
                && rows[claim.handle].certificate == Some(claim.certificate)
                && rows[claim.handle].serialNumber == claim.serialNumber
                && rows[claim.handle].issuedAt == MsUTC(claim.issuedAt)
    {
      outcome := ClaimRaced;
      var passes := 0;
      while passes < 2 && outcome.ClaimRaced?
        invariant Valid()
        invariant passes == 0 ==> outcome.ClaimRaced? && rows == old(rows)
        invariant passes > 0 ==> outcome == Decide(old(rows), Pin(claim))
        invariant passes > 0 ==> rows == TableAfterClaim(old(rows), Pin(claim), ts)
      {
        outcome := ClaimOnce(claim, ts);
        passes := passes + 1;
      }
    }

    method ReleaseHandle(release: Release, ts: int) returns (outcome: ReleaseOutcome)
      requires Valid()
      modifies this
      ensures Valid()
      ensures outcome == DecideRelease(old(rows), PinRelease(release)) && !outcome.AppliedNowhere?
      ensures rows == TableAfterRelease(old(rows), PinRelease(release), ts)
    {
      if !ValidRelease(release) { return InvalidRelease; }
      var r := PinRelease(release);
      RegistryLaws.ReleaseDecided(rows, r, ts);
      if ReleaseGuard(rows, r) {
        RegistryLaws.ReleaseKeepsInv(rows, r, ts);
      }
      var status := UpdateReleased(r, ts);
      if status.Hit? { return Applied; }
      outcome := DiagnoseRelease(GetHandle(rows, r.handle), r);
    }
  }
}
