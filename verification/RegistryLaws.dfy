/** What each conditional write keeps, and why a refused write can be explained afterwards. */
module RegistryLaws {
  import opened Wrappers
  import opened Registry

  // --- the invariant is kept by every write ------------------------------------

  lemma PutRowKeepsInv(t: Table, h: string, row: Row)
    requires Inv(t) && RowOk(h, row) && IndexesAdmit(t, h, row)
    ensures Inv(t[h := row])
  {
  }

  lemma OwnerUpdateLands(t: Table, c: Claim, ts: int)
    requires Inv(t) && OwnerUpdate(t, c, ts).Matched?
    ensures OwnerUpdate(t, c, ts).table == t[c.handle := Held(c, t[c.handle].createdAt, ts)]
    ensures Inv(OwnerUpdate(t, c, ts).table)
  {
    PutRowKeepsInv(t, c.handle, Held(c, t[c.handle].createdAt, ts));
  }

  lemma ReclaimLands(t: Table, c: Claim, ts: int)
    requires Inv(t) && Reclaim(t, c, ts).Matched?
    ensures Reclaim(t, c, ts).table == t[c.handle := Held(c, t[c.handle].createdAt, ts)]
    ensures Inv(Reclaim(t, c, ts).table)
  {
    PutRowKeepsInv(t, c.handle, Held(c, t[c.handle].createdAt, ts));
  }

  lemma InsertLands(t: Table, c: Claim, ts: int)
    requires Inv(t) && Insert(t, c, ts).Matched?
    ensures c.handle !in t && Insert(t, c, ts).table == t[c.handle := Held(c, ts, ts)]
    ensures Inv(Insert(t, c, ts).table)
  {
    PutRowKeepsInv(t, c.handle, Held(c, ts, ts));
  }

  lemma ReleaseKeepsInv(t: Table, r: Release, ts: int)
    requires Inv(t) && ReleaseGuard(t, r)
    ensures Inv(t[r.handle := Parted(t[r.handle], r, ts)])
  {
  }

  // --- the reads, under the unique indexes -------------------------------------

  lemma SkeletonReadDecides(t: Table, c: Claim)
    requires Inv(t)
    ensures AfterSkeleton(GetHandleBySkeleton(t, c.skeleton), c)
            == if LooksLikeAnother(t, c) then TooSimilar else ClaimRaced
  {
    var sim := GetHandleBySkeleton(t, c.skeleton);
    if LooksLikeAnother(t, c) {
      var h :| h in t && h != c.handle && t[h].skeleton == c.skeleton;
      assert HoldsSkeleton(t, h, c.skeleton);
    }
    if sim.Some? {
      var h :| HoldsSkeleton(t, h, c.skeleton) && sim.value == t[h];
      assert h in t && t[h].handle == h;
    }
  }

  lemma KeyReadDecides(t: Table, key: string)
    ensures GetHandleByIdentityKey(t, key).Some? <==> KeyHolds(t, key)
  {
    if KeyHolds(t, key) {
      var h :| h in t && t[h].identityKey == Some(key);
      assert HoldsKey(t, h, key);
    }
  }

  // --- write, then diagnose ----------------------------------------------------

  /** What the three writes of one pass do to an undisturbed registry, in order. */
  function ThreeWrites(t: Table, c: Claim, ts: int): Write {
    if !OwnerUpdate(t, c, ts).NoMatch? then OwnerUpdate(t, c, ts)
    else if !Reclaim(t, c, ts).NoMatch? then Reclaim(t, c, ts)
    else Insert(t, c, ts)
  }

  /** A write lands exactly when the claim is acceptable, and leaves the one row the decision names. */
  lemma WritesLandIffAccepted(t: Table, c: Claim, ts: int)
    requires Inv(t)
    ensures ThreeWrites(t, c, ts).Matched? <==> Accepted(Decide(t, c))
    ensures ThreeWrites(t, c, ts).Matched? ==> ThreeWrites(t, c, ts).table == TableAfterClaim(t, c, ts)
    ensures ThreeWrites(t, c, ts).Matched? ==> (OwnerUpdate(t, c, ts).Matched? <==> Decide(t, c).Updated?)
  {
    if OwnerUpdate(t, c, ts).Matched? { OwnerUpdateLands(t, c, ts); }
    if Reclaim(t, c, ts).Matched? { ReclaimLands(t, c, ts); }
    if Insert(t, c, ts).Matched? { InsertLands(t, c, ts); }
  }

  /** After a refusal the diagnosis over the same registry names the rule that refused, and never a race. */
  lemma RefusalIsExplained(t: Table, c: Claim, ts: int)
    requires Inv(t) && !ThreeWrites(t, c, ts).Matched?
    ensures DiagnoseClaim(t, c) == Decide(t, c) && !DiagnoseClaim(t, c).ClaimRaced?
  {
    WritesLandIffAccepted(t, c, ts);
    KeyReadDecides(t, c.identityKey);
    SkeletonReadDecides(t, c);
  }

  // --- one rule after another -----------------------------------------------------

  /** The rules that can refuse a claim, in the order in which the first that applies is reported. */
  const REFUSALS: seq<ClaimOutcome> := [HandleTaken, Unchanged, StaleCertificate, KeyHasHandle, Cooldown, TooSimilar]

  /** Rule o, looked at by itself, stands in the claim's way. */
  ghost predicate Refuses(t: Table, c: Claim, o: ClaimOutcome) {
    var mine := c.handle in t && t[c.handle].identityKey == Some(c.identityKey);
    match o
    case HandleTaken => c.handle in t && t[c.handle].Active() && !mine
    case Unchanged => mine && SameCertificate(t[c.handle], c)
    case StaleCertificate =>
      c.handle in t && (c.issuedAt <= t[c.handle].issuedAt || (mine && t[c.handle].serialNumber == c.serialNumber))
    case KeyHasHandle => exists h :: HoldsKey(t, h, c.identityKey) && h != c.handle
    case Cooldown => CoolingDown(GetHandle(t, c.handle), c)
    case TooSimilar => exists h :: HoldsSkeleton(t, h, c.skeleton) && h != c.handle
    case _ => false
  }

  lemma RulesByName(t: Table, c: Claim)
    requires Inv(t)
    ensures Refuses(t, c, TooSimilar) <==> LooksLikeAnother(t, c)
    ensures !(c.handle in t && t[c.handle].Active()) ==> (Refuses(t, c, KeyHasHandle) <==> KeyHolds(t, c.identityKey))
    ensures c.handle in t && t[c.handle].identityKey == Some(c.identityKey) ==> !Refuses(t, c, KeyHasHandle)
  {
    if LooksLikeAnother(t, c) {
      var h :| h in t && h != c.handle && t[h].skeleton == c.skeleton;
      assert HoldsSkeleton(t, h, c.skeleton);
    }
    if KeyHolds(t, c.identityKey) {
      var h :| h in t && t[h].identityKey == Some(c.identityKey);
      assert HoldsKey(t, h, c.identityKey);
    }
  }

  /**
   The decision is the first rule that refuses; a claim no rule refuses is accepted, as an update of a handle the key
   holds.
   */
  lemma DecisionIsFirstRefusal(t: Table, c: Claim, i: nat)
    requires Inv(t)
    ensures i < |REFUSALS| && Refuses(t, c, REFUSALS[i]) && (forall j | 0 <= j < i :: !Refuses(t, c, REFUSALS[j]))
            ==> Decide(t, c) == REFUSALS[i]
    ensures (forall j | 0 <= j < |REFUSALS| :: !Refuses(t, c, REFUSALS[j])) <==> Accepted(Decide(t, c))
    ensures Accepted(Decide(t, c)) ==>
        (Decide(t, c).Updated? <==> c.handle in t && t[c.handle].identityKey == Some(c.identityKey))
  {
    RulesByName(t, c);
    assert REFUSALS[0] == HandleTaken && REFUSALS[1] == Unchanged && REFUSALS[2] == StaleCertificate;
    assert REFUSALS[3] == KeyHasHandle && REFUSALS[4] == Cooldown && REFUSALS[5] == TooSimilar;
  }

  // --- what the answers mean for the stored row -------------------------------------

  /**
   The row is active and holds exactly what the claim says: its key, its document, and that document's serial and
   date.
   */
  predicate Holds(t: Table, c: Claim) {
    && c.handle in t
    && t[c.handle].identityKey == Some(c.identityKey) && t[c.handle].certificate == Some(c.certificate)
    && t[c.handle].serialNumber == c.serialNumber && t[c.handle].issuedAt == c.issuedAt
  }

  /** A claim that succeeds, by a write or by finding nothing to do, leaves its handle holding what it says. */
  lemma SuccessHolds(t: Table, c: Claim, ts: int)
    requires Accepted(Decide(t, c)) || Decide(t, c).Unchanged?
    ensures Holds(TableAfterClaim(t, c, ts), c)
  {
  }

  /** There is nothing to do exactly when the handle holds that already. */
  lemma UnchangedIff(t: Table, c: Claim)
    ensures Decide(t, c).Unchanged? <==> Holds(t, c)
  {
  }

  /** What else an accepted claim leaves in the row: its skeleton, no trace of a release, and the birth time. */
  lemma AcceptedRow(t: Table, c: Claim, ts: int)
    requires Accepted(Decide(t, c))
    ensures var row := TableAfterClaim(t, c, ts)[c.handle];
            && row.handle == c.handle && row.skeleton == c.skeleton && row.lastIdentityKey == c.identityKey
            && row.releasedAt.None? && row.cooldownUntil.None? && row.releasedBy.None?
            && row.updatedAt == ts && row.createdAt == (if c.handle in t then t[c.handle].createdAt else ts)
    ensures forall h | h != c.handle :: GetHandle(TableAfterClaim(t, c, ts), h) == GetHandle(t, h)
  {
  }

  /** Nobody's row stands against the claim: another handle's with its skeleton, or one its key holds. */
  ghost predicate NobodyElse(t: Table, c: Claim) {
    forall h | h in t && h != c.handle :: t[h].skeleton != c.skeleton && t[h].identityKey != Some(c.identityKey)
  }

  /**
   A claim is created exactly when nobody's row stands against it and its handle was never held, or was released
   under an older date and is cooling down against nobody, or not past now, or not against the one who gave it up.
   */
  lemma CreatedIff(t: Table, c: Claim)
    requires Inv(t)
    ensures Decide(t, c).Created? <==>
              && NobodyElse(t, c)
              && (c.handle in t ==>
                    && t[c.handle].identityKey.None? && t[c.handle].issuedAt < c.issuedAt
                    && (|| t[c.handle].cooldownUntil.None? || t[c.handle].cooldownUntil.value <= c.now
                        || (c.identityKey != "" && c.identityKey == t[c.handle].lastIdentityKey
                            && t[c.handle].releasedBy == Some("owner"))))
  {
  }

  /**
   A claim is an update exactly when its key holds the handle under an older date and another serial, and nobody else
   looks like it.
   */
  lemma UpdatedIff(t: Table, c: Claim)
    requires Inv(t)
    ensures Decide(t, c).Updated? <==>
              && NobodyElse(t, c)
              && c.handle in t && t[c.handle].identityKey == Some(c.identityKey)
              && t[c.handle].issuedAt < c.issuedAt && t[c.handle].serialNumber != c.serialNumber
  {
  }

  /** A release applies exactly to an active row: an operator's to any, an owner's to its own under an older date. */
  lemma ReleaseAppliesIff(t: Table, r: Release)
    requires r.owner.Some? ==> r.issuedAt.Some? && r.releasedBy == "owner"
    ensures DecideRelease(t, r).Applied? <==>
              && r.handle in t && t[r.handle].identityKey.Some?
              && (r.owner.Some? ==> t[r.handle].identityKey == r.owner && t[r.handle].issuedAt < r.issuedAt.value)
  {
  }

  /** The row it leaves: nobody's, without a document, dated by an owner's tombstone, and all else as it was. */
  lemma ReleasedRow(t: Table, r: Release, ts: int)
    requires DecideRelease(t, r).Applied?
    ensures var row, after := t[r.handle], TableAfterRelease(t, r, ts)[r.handle];
            && after.identityKey.None? && after.certificate.None?
            && after.releasedAt == Some(r.now) && after.releasedBy == Some(r.releasedBy)
            && after.cooldownUntil == r.cooldownUntil && after.updatedAt == ts
            && after.issuedAt == (if r.owner.Some? then r.issuedAt.value else row.issuedAt)
            && after.handle == row.handle && after.skeleton == row.skeleton && after.createdAt == row.createdAt
            && after.lastIdentityKey == row.lastIdentityKey && after.serialNumber == row.serialNumber
    ensures forall h | h != r.handle :: GetHandle(TableAfterRelease(t, r, ts), h) == GetHandle(t, h)
  {
  }

  /** Why a release does not apply, and when it has been applied already. */
  lemma ReleaseRefusedIff(t: Table, r: Release)
    requires Inv(t)
    ensures DecideRelease(t, r).InvalidRelease? <==> r.owner.Some? && (r.issuedAt.None? || r.releasedBy != "owner")
    ensures DecideRelease(t, r).NotOwner? <==>
              && r.owner.Some? && r.issuedAt.Some? && r.releasedBy == "owner"
              && r.handle in t && t[r.handle].identityKey.Some? && t[r.handle].identityKey != r.owner
    ensures DecideRelease(t, r).StaleTombstone? <==>
              && r.owner.Some? && r.issuedAt.Some? && r.releasedBy == "owner"
              && r.handle in t && t[r.handle].identityKey == r.owner && r.issuedAt.value <= t[r.handle].issuedAt
    ensures DecideRelease(t, r).AlreadyApplied? <==>
              && r.owner.Some? && r.issuedAt.Some? && r.releasedBy == "owner"
              && r.handle in t && t[r.handle].identityKey.None?
              && t[r.handle].releasedBy == Some("owner") && t[r.handle].lastIdentityKey == r.owner.value
              && MsUTC(t[r.handle].issuedAt) == MsUTC(r.issuedAt.value)
    ensures !DecideRelease(t, r).AppliedNowhere?
  {
  }

  /** How a release that matched nothing is explained by the row it then reads, whatever the release. */
  lemma ReleaseIsExplained(rec: Option<Row>, r: Release)
    ensures var o := DiagnoseRelease(rec, r);
            && (o.AlreadyApplied? <==>
                  && rec.Some? && rec.value.identityKey.None? && rec.value.releasedBy == Some("owner")
                  && r.owner.Some? && r.issuedAt.Some? && r.releasedBy == "owner"
                  && rec.value.lastIdentityKey == r.owner.value
                  && MsUTC(rec.value.issuedAt) == MsUTC(r.issuedAt.value))
            && (o.NotFound? <==> !o.AlreadyApplied? && (rec.None? || rec.value.identityKey.None?))
            && (o.NotOwner? <==>
                  rec.Some? && rec.value.identityKey.Some? && r.owner.Some? && rec.value.identityKey != r.owner)
            && (o.StaleTombstone? <==>
                  rec.Some? && rec.value.identityKey.Some? && r.owner.Some? && rec.value.identityKey == r.owner)
            && (o.AppliedNowhere? <==> rec.Some? && rec.value.identityKey.Some? && r.owner.None?)
  {
  }

  lemma ReleaseDecided(t: Table, r: Release, ts: int)
    requires ValidRelease(r)
    ensures ReleaseGuard(t, r) <==> DecideRelease(t, r).Applied?
    ensures !ReleaseGuard(t, r) ==> DiagnoseRelease(GetHandle(t, r.handle), r) == DecideRelease(t, r)
    ensures !ReleaseGuard(t, r) ==> !DiagnoseRelease(GetHandle(t, r.handle), r).AppliedNowhere?
  {
  }

  lemma ClaimKeepsInv(t: Table, c: Claim, ts: int)
    requires Inv(t)
    ensures Inv(TableAfterClaim(t, c, ts))
  {
    WritesLandIffAccepted(t, c, ts);
    if Accepted(Decide(t, c)) {
      if OwnerUpdate(t, c, ts).Matched? { OwnerUpdateLands(t, c, ts); }
      else if Reclaim(t, c, ts).Matched? { ReclaimLands(t, c, ts); }
      else { InsertLands(t, c, ts); }
    }
  }

  // --- replays and returns ----------------------------------------------------------

  /** A resubmitted claim is recognised and changes nothing. */
  lemma ReplayedClaimIsUnchanged(t: Table, c: Claim, ts: int, later: int)
    requires Accepted(Decide(t, c))
    ensures var after := TableAfterClaim(t, c, ts);
            Decide(after, c).Unchanged? && TableAfterClaim(after, c, later) == after
  {
  }

  /** So is a resubmitted tombstone; a replayed operator release finds no active handle. */
  lemma ReplayedReleaseIsNoOp(t: Table, r: Release, ts: int, later: int)
    requires Inv(t) && DecideRelease(t, r).Applied?
    ensures var after := TableAfterRelease(t, r, ts);
            && DecideRelease(after, r) == (if r.owner.Some? then AlreadyApplied else NotFound)
            && TableAfterRelease(after, r, later) == after
  {
  }

  /**
   After a release, a newer certificate for the same skeleton gets the handle: the owner who gave it up at once,
   anyone else who holds nothing exactly when no cooldown runs against them.
   */
  lemma WhoMayComeBack(t: Table, r: Release, ts: int, c: Claim)
    requires Inv(t) && DecideRelease(t, r).Applied? && (r.owner.None? ==> r.releasedBy != RELEASED_BY_OWNER)
    requires c.handle == r.handle && c.skeleton == t[r.handle].skeleton && c.identityKey != ""
    requires TableAfterRelease(t, r, ts)[r.handle].issuedAt < c.issuedAt
    requires forall h | h in t && h != r.handle :: t[h].identityKey != Some(c.identityKey)
    ensures Decide(TableAfterRelease(t, r, ts), c) ==
            if r.owner == Some(c.identityKey) || r.cooldownUntil.None? || r.cooldownUntil.value <= c.now then Created
            else Cooldown
  {
    var after := TableAfterRelease(t, r, ts);
    assert !KeyHolds(after, c.identityKey) && !LooksLikeAnother(after, c);
  }
}
