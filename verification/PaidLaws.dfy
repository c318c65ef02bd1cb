/** What paid handles come to, said of states, fields and reasons one by one. */
module PaidLaws {
  import opened Wrappers
  import opened Registry
  import RegistryLaws
  import Handles
  import opened StringOrder
  import opened Subscriptions
  import opened PaidRuns
  import opened PaidSweep

  // --- in force -----------------------------------------------------------------------------

  /** Paid up, in the store's own grace period, or paid up and not to be renewed; nothing else is. */
  predicate InForce(st: Status, now: int) {
    || st.state == SubGrace
    || (st.state == SubActive && now < st.expiresAt)
    || (st.state == SubCanceled && now < st.expiresAt)
  }

  lemma EntitledIff(st: Status, now: int)
    ensures Entitled(st, now) <==> InForce(st, now)
  {
  }

  /** Another row of sub's key and handle, of the handle's tier, is in force. */
  ghost predicate AnotherPays(subs: Subs, sub: Subscription, now: int) {
    exists id :: id in subs && IsOther(subs, sub, id) && InForce(subs[id].status, now)
  }

  predicate IsOther(subs: Subs, sub: Subscription, id: string) {
    && id in subs && id != sub.id && subs[id].handle == sub.handle && subs[id].identityKey == sub.identityKey
    && subs[id].status.tier == Handles.Tier(sub.handle)
  }

  lemma AnotherPaysIff(subs: Subs, sub: Subscription, now: int)
    ensures AnotherPays(subs, sub, now) <==> PaidByAnother(subs, sub, now)
  {
    if PaidByAnother(subs, sub, now) {
      var id :| id in subs && PaysToo(subs, sub, id, now);
      assert IsOther(subs, sub, id) && InForce(subs[id].status, now);
    }
    if AnotherPays(subs, sub, now) {
      var id :| id in subs && IsOther(subs, sub, id) && InForce(subs[id].status, now);
      assert PaysToo(subs, sub, id, now);
    }
  }

  // --- a turn of the sweep ------------------------------------------------------------------

  /** The key of the listed row holds its handle. */
  predicate KeyHasHandle(t: Table, sub: Subscription) {
    sub.handle in t && t[sub.handle].identityKey == Some(sub.identityKey)
  }

  /** The status is not in force, and ended before the cutoff. */
  predicate Over(st: Status, now: int, grace: int) {
    !InForce(st, now) && st.expiresAt < now - grace
  }

  /** The turn leaves the registry as it is, or releases sub's handle with no cooldown, in the name of the lapse. */
  ghost predicate ReleasesIff(cfg: Config, s: Paid, item: Item, now: int, due: bool) {
    var (released, after) := SweepOne(cfg, s, item, now);
    var h := item.sub.handle;
    && (released <==> due) && (after.table != s.table <==> due)
    && (due ==>
          && h in s.table && h in after.table
          && after.table == s.table[h := after.table[h]]
          && after.table[h].identityKey.None? && after.table[h].certificate.None?
          && after.table[h].releasedBy == Some("subscription-lapsed") && after.table[h].cooldownUntil.None?
          && after.table[h].releasedAt == Some(MsUTC(now)) && after.table[h].issuedAt == s.table[h].issuedAt)
  }

  lemma TurnReleasesItsHandle(cfg: Config, s: Paid, item: Item, now: int)
    requires Inv(s.table) && IdsOk(s.subs) && item.sub.id in s.subs
    ensures ReleasesIff(cfg, s, item, now, Grounds(cfg, s, item, now, item.sub.handle))
  {
    TurnReleases(cfg, s, item, now);
    var sub := Refresh(cfg, s.subs, item.sub, item.answer, item.clock).2;
    RefreshLeavesOthers(cfg, s.subs, item.sub, item.answer, item.clock, now);
    var r := PinRelease(LapseRelease(sub, now));
    if SweepOne(cfg, s, item, now).0 {
      RegistryLaws.ReleasedRow(s.table, r, item.ts);
      assert s.table[item.sub.handle].identityKey.Some?;
    }
  }

  /**
   A row the store vouches for in its handle's tier: the handle goes exactly when what the store says is over, the
   key still has the handle, and no other row of the key pays for it.
   */
  lemma FittingTurn(cfg: Config, s: Paid, sub: Subscription, v: Verified, now: int, clock: int, ts: int)
    requires Inv(s.table) && IdsOk(s.subs) && sub.id in s.subs && sub.store in cfg.verifiers
    requires v.status.tier == Handles.Tier(sub.handle)
    ensures ReleasesIff(cfg, s, Item(sub, Vouched(v), clock, ts), now,
                        && Over(v.status, now, cfg.grace)
                        && KeyHasHandle(s.table, sub) && !AnotherPays(s.subs, sub, now))
  {
    TurnReleasesItsHandle(cfg, s, Item(sub, Vouched(v), clock, ts), now);
    AnotherPaysIff(s.subs, sub, now);
  }

  /** A row the store vouches for in another tier: the earlier of the two ends counts, whatever the state. */
  lemma MisfitTurn(cfg: Config, s: Paid, sub: Subscription, v: Verified, now: int, clock: int, ts: int)
    requires Inv(s.table) && IdsOk(s.subs) && sub.id in s.subs && sub.store in cfg.verifiers
    requires v.status.tier != Handles.Tier(sub.handle)
    ensures ReleasesIff(cfg, s, Item(sub, Vouched(v), clock, ts), now,
                        && (sub.status.expiresAt < now - cfg.grace || v.status.expiresAt < now - cfg.grace)
                        && KeyHasHandle(s.table, sub) && !AnotherPays(s.subs, sub, now))
  {
    TurnReleasesItsHandle(cfg, s, Item(sub, Vouched(v), clock, ts), now);
    AnotherPaysIff(s.subs, sub, now);
  }

  /** A row the store has forgotten: what was listed counts. */
  lemma ForgottenTurn(cfg: Config, s: Paid, sub: Subscription, now: int, clock: int, ts: int)
    requires Inv(s.table) && IdsOk(s.subs) && sub.id in s.subs && sub.store in cfg.verifiers
    ensures ReleasesIff(cfg, s, Item(sub, Invalid, clock, ts), now,
                        && Over(sub.status, now, cfg.grace)
                        && KeyHasHandle(s.table, sub) && !AnotherPays(s.subs, sub, now))
  {
    TurnReleasesItsHandle(cfg, s, Item(sub, Invalid, clock, ts), now);
    AnotherPaysIff(s.subs, sub, now);
  }

  /** A row nobody can be asked about: nothing happens. */
  lemma UnansweredTurn(cfg: Config, s: Paid, item: Item, now: int)
    requires item.sub.store !in cfg.verifiers || item.answer.Unavailable?
    ensures SweepOne(cfg, s, item, now) == (false, s)
  {
  }

  /** What a turn writes in its row: the store's word, and the moment it was done with it. */
  lemma TurnWritesRow(cfg: Config, s: Paid, sub: Subscription, v: Verified, now: int, clock: int, ts: int)
    requires sub.id in s.subs && sub.store in cfg.verifiers && v.status.tier == Handles.Tier(sub.handle)
    ensures var row := SweepOne(cfg, s, Item(sub, Vouched(v), clock, ts), now).1.subs[sub.id];
            && row.status == v.status.(expiresAt := MsUTC(v.status.expiresAt))
            && row.releasedAt
                  == (if Over(v.status, now, cfg.grace) then Some(MsUTC(now)) else s.subs[sub.id].releasedAt)
            && row.updatedAt == MsUTC(if Over(v.status, now, cfg.grace) then now else clock)
  {
  }

  /** The sweep's listing: at most a hundred rows, unmarked and ended before the cutoff, the earliest first. */
  lemma ListingIs(subs: Subs, before: int, list: seq<Subscription>)
    requires IsListing(subs, before, SWEEP_BATCH, list)
    ensures |list| <= 100
    ensures forall k | 0 <= k < |list| ::
              && list[k].id in subs && subs[list[k].id] == list[k]
              && list[k].releasedAt.None? && list[k].status.expiresAt < MsUTC(before)
    ensures forall i, j | 0 <= i < j < |list| ::
              || list[i].status.expiresAt < list[j].status.expiresAt
              || (list[i].status.expiresAt == list[j].status.expiresAt && Less(list[i].id, list[j].id))
    ensures forall id | id in subs && subs[id].releasedAt.None? && subs[id].status.expiresAt < MsUTC(before)
                        && subs[id] !in list ::
              |list| == 100 && forall k | 0 <= k < 100 :: list[k].status.expiresAt <= subs[id].status.expiresAt
  {
  }

  // --- the purchase gate --------------------------------------------------------------------

  /** The purchase's row pays for another handle, or another key's, and that key has that handle. */
  predicate PaysForAnother(s: Paid, id: string, handle: string, key: string) {
    && id in s.subs && (s.subs[id].handle != handle || s.subs[id].identityKey != key)
    && s.subs[id].handle in s.table
    && s.table[s.subs[id].handle].identityKey == Some(s.subs[id].identityKey)
  }

  /** Who is let through, and what each of the others is told: the first of these that applies. */
  lemma GateTells(cfg: Config, s: Paid, handle: string, key: string, store: Option<string>, answer: Answer, now: int)
    ensures var gate := RequirePurchase(cfg, s, handle, key, store, answer, now).0;
            if Handles.IsGenerated(handle, cfg.words) then gate == Pass
            else if handle in s.table && s.table[handle].identityKey == Some(key) then gate == Pass
            else match store
              case None => gate == PurchaseRequired
              case Some(name) =>
                if name !in cfg.verifiers then gate == PurchaseInvalid
                else match answer
                  case Invalid => gate == PurchaseInvalid
                  case Unavailable => gate == StoreUnavailable
                  case Vouched(v) =>
                    if v.status.tier != Handles.Tier(handle) then gate == TierMismatch
                    else if !InForce(v.status, now) then gate == PurchaseInactive
                    else if PaysForAnother(s, name + ":" + v.storeID, handle, key) then gate == UsedElsewhere
                    else gate == Pass
  {
  }

  /** The row a purchase that is let through leaves, field by field. */
  lemma GateBinds(cfg: Config, s: Paid, handle: string, key: string, store: string, v: Verified, now: int)
    requires RequirePurchase(cfg, s, handle, key, Some(store), Vouched(v), now).0 == Pass
    requires !NeedsNoPurchase(cfg, s, handle, key)
    ensures var id, subs := store + ":" + v.storeID,
        RequirePurchase(cfg, s, handle, key, Some(store), Vouched(v), now).1;
            && id in subs && subs == s.subs[id := subs[id]]
            && subs[id].handle == handle && subs[id].identityKey == key && subs[id].releasedAt.None?
            && subs[id].status == v.status.(expiresAt := MsUTC(v.status.expiresAt)) && subs[id].updatedAt == MsUTC(now)
            && (id !in s.subs ==>
                  && subs[id].id == id && subs[id].store == store && subs[id].storeID == v.storeID
                  && subs[id].createdAt == MsUTC(now))
            && (id in s.subs ==>
                  && subs[id].id == s.subs[id].id && subs[id].store == s.subs[id].store
                  && subs[id].storeID == s.subs[id].storeID && subs[id].createdAt == s.subs[id].createdAt)
  {
  }

  // --- a profile put -------------------------------------------------------------------------

  /** An accepted profile is what is stored: its document, its serial and its date, under the fold of its handle. */
  lemma AcceptedProfileIsStored(cfg: Config, s: Paid, p: Profile, store: Option<string>, answer: Answer, now: int,
                                ts: int)
    requires var outcome := PutHandle(cfg, s, p, store, answer, now, ts).0;
             outcome.Claimed? && Accepted(outcome.outcome)
    ensures var t := PutHandle(cfg, s, p, store, answer, now, ts).1.table;
            && p.handle in t
            && t[p.handle].handle == p.handle && t[p.handle].skeleton == Handles.Skeleton(p.handle)
            && t[p.handle].identityKey == Some(p.identityKey) && t[p.handle].lastIdentityKey == p.identityKey
            && t[p.handle].certificate == Some(p.json) && t[p.handle].serialNumber == p.serialNumber
            && t[p.handle].issuedAt == MsUTC(p.issuedAt)
            && t[p.handle].releasedAt.None? && t[p.handle].cooldownUntil.None? && t[p.handle].releasedBy.None?
  {
    RegistryLaws.SuccessHolds(s.table, Pin(ClaimOf(p, now)), ts);
    RegistryLaws.AcceptedRow(s.table, Pin(ClaimOf(p, now)), ts);
  }

  /** A profile told unchanged is what was stored already. */
  lemma UnchangedProfileWasStored(cfg: Config, s: Paid, p: Profile, store: Option<string>, answer: Answer, now: int,
                                  ts: int)
    requires PutHandle(cfg, s, p, store, answer, now, ts).0 == Claimed(Unchanged)
    ensures PutHandle(cfg, s, p, store, answer, now, ts).1.table == s.table
    ensures p.handle in s.table
            && s.table[p.handle].identityKey == Some(p.identityKey) && s.table[p.handle].certificate == Some(p.json)
            && s.table[p.handle].serialNumber == p.serialNumber && s.table[p.handle].issuedAt == MsUTC(p.issuedAt)
  {
    RegistryLaws.UnchangedIff(s.table, Pin(ClaimOf(p, now)));
  }

  /** A tombstone that applies releases its owner's handle, dated by it, with the configured cooldown from now. */
  lemma TombstoneReleases(cfg: Config, s: Paid, p: Profile, store: Option<string>, answer: Answer, now: int, ts: int)
    requires PutHandle(cfg, s, p, store, answer, now, ts).0 == GivenUp(Applied)
    ensures var t := PutHandle(cfg, s, p, store, answer, now, ts).1.table;
            && p.released && p.handle in s.table && p.handle in t && t == s.table[p.handle := t[p.handle]]
            && s.table[p.handle].identityKey == Some(p.identityKey) && s.table[p.handle].issuedAt < MsUTC(p.issuedAt)
            && t[p.handle].identityKey.None? && t[p.handle].certificate.None?
            && t[p.handle].releasedBy == Some("owner") && t[p.handle].issuedAt == MsUTC(p.issuedAt)
            && t[p.handle].releasedAt == Some(MsUTC(now))
            && t[p.handle].cooldownUntil == Some(MsUTC(now + cfg.cooldown))
            && t[p.handle].lastIdentityKey == s.table[p.handle].lastIdentityKey
  {
    var r := PinRelease(TombstoneOf(cfg, p, now));
    RegistryLaws.ReleaseAppliesIff(s.table, r);
    RegistryLaws.ReleasedRow(s.table, r, ts);
  }

  /** Which way a profile goes: a tombstone is given up; a handle that will not do is refused before it is paid for. */
  lemma PutGoes(cfg: Config, s: Paid, p: Profile, store: Option<string>, answer: Answer, now: int, ts: int)
    ensures var outcome := PutHandle(cfg, s, p, store, answer, now, ts).0;
            && (outcome.GivenUp? <==> p.released)
            && (outcome.Refused? <==> !p.released && Handles.Validate(p.handle).Some?)
            && (outcome.Refused? ==> Handles.Validate(p.handle) == Some(outcome.error))
            && (outcome.Unpaid? <==>
                  && !p.released && Handles.Validate(p.handle).None?
                  && RequirePurchase(cfg, s, p.handle, p.identityKey, store, answer, now).0 != Pass)
            && (outcome.Unpaid? ==>
                  outcome.gate == RequirePurchase(cfg, s, p.handle, p.identityKey, store, answer, now).0)
  {
  }

  // --- what a store says later ----------------------------------------------------------------

  function Earlier(a: int, b: int): (r: int)
    ensures r <= a && r <= b && (r == a || r == b)
  {
    if a < b then a else b
  }

  /** A row a notification names is asked about again, and takes the store's word if it fits. */
  lemma NoticeRefreshes(cfg: Config, subs: Subs, store: string, storeID: string, v: Verified, now: int)
    requires IdsOk(subs) && store + ":" + storeID in subs && subs[store + ":" + storeID].store in cfg.verifiers
    ensures var id := store + ":" + storeID;
            var row, after := subs[id], Notification(cfg, subs, store, storeID, Vouched(v), now);
            && id in after && after == subs[id := after[id]]
            && after[id] == row.(status := after[id].status, updatedAt := MsUTC(now))
            && after[id].status.tier == v.status.tier && after[id].status.productID == v.status.productID
            && after[id].status.basePlan == v.status.basePlan && after[id].status.environment == v.status.environment
            && (v.status.tier == Handles.Tier(row.handle) ==>
                  after[id].status.state == v.status.state && after[id].status.expiresAt == MsUTC(v.status.expiresAt))
            && (v.status.tier != Handles.Tier(row.handle) ==>
                  after[id].status.state == SubWrongTier
                  && after[id].status.expiresAt == MsUTC(Earlier(v.status.expiresAt, row.status.expiresAt)))
  {
  }

  /** A Play token not on file that replaces one that is gets a row of its own for the other's handle. */
  lemma NoticeAdopts(cfg: Config, subs: Subs, token: string, v: Verified, now: int)
    requires "google-play" in cfg.verifiers && v.linkedStoreID != ""
    requires "google-play" + ":" + token !in subs && "google-play" + ":" + v.linkedStoreID in subs
    ensures var id, old' := "google-play" + ":" + token, subs["google-play" + ":" + v.linkedStoreID];
            var after := Notification(cfg, subs, "google-play", token, Vouched(v), now);
            && id in after && after == subs[id := after[id]]
            && after[id].id == id && after[id].store == "google-play" && after[id].storeID == token
            && after[id].handle == old'.handle && after[id].identityKey == old'.identityKey
            && after[id].releasedAt.None? && after[id].createdAt == MsUTC(now) && after[id].updatedAt == MsUTC(now)
            && after[id].status.tier == v.status.tier
            && (v.status.tier == Handles.Tier(old'.handle) ==>
                  after[id].status == v.status.(expiresAt := MsUTC(v.status.expiresAt)))
            && (v.status.tier != Handles.Tier(old'.handle) ==>
                  && after[id].status.state == SubWrongTier
                  && after[id].status.expiresAt == MsUTC(old'.status.expiresAt))
  {
  }

  /** Any other notification is acknowledged and changes nothing. */
  lemma NoticeIgnored(cfg: Config, subs: Subs, store: string, storeID: string, answer: Answer, now: int)
    requires IdsOk(subs)
    requires || !answer.Vouched?
             || (store + ":" + storeID in subs && subs[store + ":" + storeID].store !in cfg.verifiers)
             || (store + ":" + storeID !in subs
                 && (store != "google-play" || store !in cfg.verifiers || answer.v.linkedStoreID == ""
                     || "google-play" + ":" + answer.v.linkedStoreID !in subs))
    ensures Notification(cfg, subs, store, storeID, answer, now) == subs
  {
  }
}
