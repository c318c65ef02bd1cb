/** The advisory pre-check, and how exactly it foretells the registry's answer. */
module Availability {
  import opened Wrappers
  import opened Registry
  import Handles
  import ClaimProtocol
  import ClaimRuns
  import ClaimHistory

  datatype Reason = Free | Reserved | Invalid | LooksTaken | Taken | CoolingOff | Stale

  /** What the row holding the handle's skeleton says at time now. */
  function RowReason(rec: Option<Row>, handle: string, now: int): Reason {
    if rec.None? then Free
    else if rec.value.handle != handle then LooksTaken
    else if rec.value.Active() then Taken
    else if rec.value.cooldownUntil.Some? && now < rec.value.cooldownUntil.value then CoolingOff
    else if now <= rec.value.issuedAt then Stale
    else Free
  }

  ghost function UnavailableReason(t: Table, handle: string, now: int): Reason {
    match Handles.Validate(handle)
    case Some(ReservedHandle) => Reserved
    case Some(InvalidHandle) => Invalid
    case None => RowReason(GetHandleBySkeleton(t, Handles.Skeleton(handle)), handle, now)
  }

  ghost predicate RowsFolded(t: Table) {
    forall h | h in t :: t[h].skeleton == Handles.Skeleton(h)
  }

  /** A claim for handle dated now, by a key that holds nothing. */
  ghost predicate FreshClaim(t: Table, c: Claim, handle: string, now: int) {
    && c.handle == handle && c.skeleton == Handles.Skeleton(handle)
    && c.issuedAt == now && c.now == now && MsUTC(now) == now
    && !KeyHolds(t, c.identityKey)
  }

  ghost predicate WouldBeCreated(t: Table, c: Claim) {
    Handles.Validate(c.handle).None? && Decide(t, Pin(c)).Created?
  }

  /** The one claimant the pre-check is too strict for: the owner who gave the handle up, back within its cooldown. */
  ghost predicate ReturningOwner(t: Table, c: Claim) {
    c.handle in t && CooldownExempt(t[c.handle], c.identityKey) && t[c.handle].issuedAt < c.now
  }

  lemma SkeletonReadFinds(t: Table, handle: string)
    requires Inv(t) && RowsFolded(t)
    ensures handle in t ==> GetHandleBySkeleton(t, Handles.Skeleton(handle)) == Some(t[handle])
    ensures var rec := GetHandleBySkeleton(t, Handles.Skeleton(handle));
            rec.Some? ==> rec.value.handle in t && rec.value == t[rec.value.handle]
                          && Handles.Skeleton(rec.value.handle) == Handles.Skeleton(handle)
    ensures GetHandleBySkeleton(t, Handles.Skeleton(handle)).None? ==>
              forall h | h in t :: Handles.Skeleton(h) != Handles.Skeleton(handle)
  {
    var rec := GetHandleBySkeleton(t, Handles.Skeleton(handle));
    if handle in t {
      assert HoldsSkeleton(t, handle, Handles.Skeleton(handle));
    }
    if rec.None? {
      forall h | h in t ensures Handles.Skeleton(h) != Handles.Skeleton(handle) {
        assert !HoldsSkeleton(t, h, Handles.Skeleton(handle));
      }
    }
  }

  /** What the pre-check says of a handle, in terms of the handle and the registry's rows. */
  lemma ReasonIff(t: Table, handle: string, now: int)
    requires Inv(t) && RowsFolded(t)
    ensures var reason, valid := UnavailableReason(t, handle, now), Handles.Validate(handle);
            && (reason == Reserved <==> valid == Some(Handles.ReservedHandle))
            && (reason == Invalid <==> valid == Some(Handles.InvalidHandle))
            && (reason == LooksTaken <==>
                  valid.None? && exists h :: h in t && h != handle && t[h].skeleton == Handles.Skeleton(handle))
            && (reason == Taken <==> valid.None? && handle in t && t[handle].identityKey.Some?)
            && (reason == CoolingOff <==>
                  && valid.None? && handle in t && t[handle].identityKey.None?
                  && t[handle].cooldownUntil.Some? && now < t[handle].cooldownUntil.value)
            && (reason == Stale <==>
                  && valid.None? && handle in t && t[handle].identityKey.None? && now <= t[handle].issuedAt
                  && (t[handle].cooldownUntil.None? || t[handle].cooldownUntil.value <= now))
  {
    SkeletonReadFinds(t, handle);
  }

  /** For every key that holds nothing, "free" means created, and only a returning owner is turned away wrongly. */
  lemma AvailabilityIsExact(t: Table, c: Claim, handle: string, now: int)
    requires Inv(t) && RowsFolded(t) && FreshClaim(t, c, handle, now)
    ensures var reason := UnavailableReason(t, handle, now);
            && (WouldBeCreated(t, c) <==> reason == Free || (reason == CoolingOff && ReturningOwner(t, c)))
            && (reason == LooksTaken <==> Handles.Validate(handle).None? && Decide(t, Pin(c)).TooSimilar?)
            && (reason == Taken <==> Handles.Validate(handle).None? && Decide(t, Pin(c)).HandleTaken?)
  {
    SkeletonReadFinds(t, handle);
    if handle in t { assert !(t[handle].identityKey == Some(c.identityKey)); }
  }

  /** The registry once key has claimed handle, and given it up with a cooldown of two milliseconds. */
  function GivenUpRegistry(handle: string, key: string): Table {
    var ms := NANOS_PER_MILLI;
    var first := Claim(handle, Handles.Skeleton(handle), key, "certificate", "first", 0, 0);
    var claimed := TableAfterClaim(map[], first, 0);
    TableAfterRelease(claimed, Release(handle, Some(key), Some(ms), RELEASED_BY_OWNER, Some(3 * ms), ms), ms)
  }

  /** There the owner's new certificate would be accepted, and the pre-check says the handle is cooling off. */
  lemma ReturningOwnerIsPutOff(handle: string, key: string)
    requires Handles.Validate(handle).None? && key != ""
    ensures var t, now := GivenUpRegistry(handle, key), 2 * NANOS_PER_MILLI;
            var c := Claim(handle, Handles.Skeleton(handle), key, "certificate", "second", now, now);
            && Inv(t) && RowsFolded(t) && FreshClaim(t, c, handle, now)
            && UnavailableReason(t, handle, now) == CoolingOff && WouldBeCreated(t, c)
  {
    var t, now := GivenUpRegistry(handle, key), 2 * NANOS_PER_MILLI;
    var c := Claim(handle, Handles.Skeleton(handle), key, "certificate", "second", now, now);
    assert t.Keys == {handle} && !t[handle].Active() && Inv(t);
    AvailabilityIsExact(t, c, handle, now);
    SkeletonReadFinds(t, handle);
  }

  /** For a key that was not the row's last one the pre-check is exact. */
  lemma AvailabilityForStrangers(t: Table, c: Claim, handle: string, now: int)
    requires Inv(t) && RowsFolded(t) && FreshClaim(t, c, handle, now)
    requires handle in t ==> t[handle].lastIdentityKey != c.identityKey
    ensures UnavailableReason(t, handle, now) == Free <==> WouldBeCreated(t, c)
  {
    AvailabilityIsExact(t, c, handle, now);
  }

  // --- look-alikes ----------------------------------------------------------------

  /** Every claim is made for the skeleton of its handle, as the claim handler makes it, from an empty registry. */
  ghost predicate SkeletonClaims(states: seq<ClaimProtocol.System>, steps: seq<ClaimProtocol.Step>)
    requires |states| > 0
  {
    && states[0].table == map[]
    && forall k | 0 <= k < |steps| && steps[k].StartClaim? ::
          steps[k].claim.skeleton == Handles.Skeleton(steps[k].claim.handle)
  }

  /** Then no interleaving ever registers two handles that look alike, not even after a release. */
  lemma LookAlikesNeverCoexist(states: seq<ClaimProtocol.System>, steps: seq<ClaimProtocol.Step>, n: nat, h: string,
                               g: string)
    requires ClaimProtocol.IsRun(states, steps) && SkeletonClaims(states, steps) && n < |states|
    requires h in states[n].table && g in states[n].table && Handles.Skeleton(h) == Handles.Skeleton(g)
    ensures h == g && RowsFolded(states[n].table)
  {
    ClaimHistory.RowsStayFolded(states, steps, n, Handles.Skeleton);
    ClaimRuns.ReachableInv(states, steps, n);
  }
}
