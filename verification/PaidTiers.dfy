/** Rows and their tiers: wrong_tier marks exactly the misfits, and buys no time. */
module PaidTiers {
  import opened Wrappers
  import opened Registry
  import Handles
  import opened Subscriptions
  import opened PaidRuns

  predicate TierMarked(row: Subscription) {
    row.status.tier != Handles.Tier(row.handle) <==> row.status.state.SubWrongTier?
  }

  ghost predicate TiersMarked(subs: Subs) {
    forall id | id in subs :: TierMarked(subs[id])
  }

  /** The listed row is still on a handle of the tier it was listed for. */
  predicate SameTier(subs: Subs, sub: Subscription) {
    sub.id in subs ==> Handles.Tier(subs[sub.id].handle) == Handles.Tier(sub.handle)
  }

  ghost predicate TurnsSeeTheirTier(states: seq<Paid>, steps: seq<PaidStep>)
    requires |states| == |steps| + 1
  {
    forall i | 0 <= i < |steps| && steps[i].Turn? :: SameTier(states[i].subs, steps[i].item.sub)
  }

  lemma PutKeepsTiers(cfg: Config, s: Paid, p: Profile, store: Option<string>, answer: Answer, now: int, ts: int)
    requires TiersMarked(s.subs) && FromStore(answer)
    ensures TiersMarked(PutClaim(cfg, s, p, store, answer, now, ts).1.subs)
  {
    var subs := PutClaim(cfg, s, p, store, answer, now, ts).1.subs;
    if store.Some? && answer.Vouched? {
      var bound := SubscriptionID(store.value, answer.v.storeID);
      assert subs != s.subs ==> subs[bound].handle == p.handle && subs[bound].status == Stored(answer.v.status);
      assert forall id | id in subs && id != bound :: id in s.subs && subs[id] == s.subs[id];
    }
  }

  /** A refresh through a copy that names a handle of the row's own tier marks the row rightly. */
  lemma RefreshKeepsTiers(cfg: Config, subs: Subs, sub: Subscription, answer: Answer, now: int)
    requires TiersMarked(subs) && FromStore(answer) && SameTier(subs, sub)
    ensures TiersMarked(Refresh(cfg, subs, sub, answer, now).1)
  {
  }

  lemma TurnKeepsTiers(cfg: Config, s: Paid, item: Item, now: int)
    requires TiersMarked(s.subs) && FromStore(item.answer) && SameTier(s.subs, item.sub)
    ensures TiersMarked(SweepOne(cfg, s, item, now).1.subs)
  {
    RefreshKeepsTiers(cfg, s.subs, item.sub, item.answer, item.clock);
  }

  lemma AdoptKeepsTiers(cfg: Config, subs: Subs, token: string, answer: Answer, now: int)
    requires TiersMarked(subs) && FromStore(answer)
    ensures TiersMarked(AdoptLinked(cfg, subs, token, answer, now))
  {
  }

  lemma StepKeepsTiers(cfg: Config, s: Paid, step: PaidStep)
    requires IdsOk(s.subs) && TiersMarked(s.subs) && FromStore(StoreAnswer(step))
    requires step.Turn? ==> SameTier(s.subs, step.item.sub)
    ensures TiersMarked(NextPaid(cfg, s, step).subs)
  {
    match step
    case Put(p, store, answer, now, ts) => PutKeepsTiers(cfg, s, p, store, answer, now, ts);
    case Part(_, _) =>
    case Turn(item, now) => TurnKeepsTiers(cfg, s, item, now);
    case Notice(from, storeID, answer, now) =>
      AdoptKeepsTiers(cfg, s.subs, storeID, answer, now);
      var id := SubscriptionID(from, storeID);
      if id in s.subs { RefreshKeepsTiers(cfg, s.subs, s.subs[id], answer, now); }
  }

  /**
   In every run whose sweep turns find the row still on a handle of the tier it was listed for, a row's tier differs
   from its handle's exactly when the row is wrong_tier; so whatever is entitled fits.
   */
  lemma {:induction false} WrongTierMarksMisfits(cfg: Config, states: seq<Paid>, steps: seq<PaidStep>, n: nat)
    requires IsPaidRun(cfg, states, steps) && TurnsSeeTheirTier(states, steps) && n < |states|
    ensures TiersMarked(states[n].subs)
    ensures forall id, now | id in states[n].subs && Entitled(states[n].subs[id].status, now) ::
              states[n].subs[id].status.tier == Handles.Tier(states[n].subs[id].handle)
  {
    if n > 0 {
      WrongTierMarksMisfits(cfg, states, steps, n - 1);
      HeldPaidHandlesAreBacked(cfg, states, steps, n - 1);
      StepKeepsTiers(cfg, states[n - 1], steps[n - 1]);
      assert states[n - 1 + 1] == NextPaid(cfg, states[n - 1], steps[n - 1]);
    }
  }

  /** A status of the given tier that has ended, long ago. */
  function LongExpired(tier: int, at: int): Verified {
    Verified(Status("", "", tier, SubExpired, at, ""), "", "")
  }

  /**
   A turn on a row rebound since it was listed can break the marking: it stays right whatever the store says
   exactly when the two handles are of one tier.
   */
  lemma StaleTurnKeepsTiersIff(cfg: Config, s: Paid, sub: Subscription, now: int, clock: int, ts: int)
    requires TiersMarked(s.subs) && sub.id in s.subs && sub.store in cfg.verifiers
    ensures (forall a: Answer | FromStore(a) :: TiersMarked(SweepOne(cfg, s, Item(sub, a, clock, ts), now).1.subs))
            <==> SameTier(s.subs, sub)
  {
    if !SameTier(s.subs, sub) {
      var a := Vouched(LongExpired(Handles.Tier(s.subs[sub.id].handle), 0));
      var after := SweepOne(cfg, s, Item(sub, a, clock, ts), now).1.subs;
      assert FromStore(a) && !TierMarked(after[sub.id]);
    }
  }

  // --- a crossgrade does not extend ----------------------------------------------------

  /** The listed row ends no later than the row on file. */
  predicate EndsAsListed(subs: Subs, sub: Subscription) {
    sub.id in subs ==> MsUTC(sub.status.expiresAt) <= subs[sub.id].status.expiresAt
  }

  ghost predicate TurnsEndAsListed(states: seq<Paid>, steps: seq<PaidStep>)
    requires |states| == |steps| + 1
  {
    forall i | 0 <= i < |steps| && steps[i].Turn? :: EndsAsListed(states[i].subs, steps[i].item.sub)
  }

  lemma MsUTCMonotone(a: int, b: int)
    requires a <= b
    ensures MsUTC(a) <= MsUTC(b)
  {
    assert (a - a % NANOS_PER_MILLI) / NANOS_PER_MILLI <= (b - b % NANOS_PER_MILLI) / NANOS_PER_MILLI;
  }

  /**
   A successor token of the wrong tier takes over its predecessor's handle until the predecessor would have ended, and
   no longer.
   */
  lemma AdoptedMisfitBuysNoTime(cfg: Config, subs: Subs, token: string, answer: Answer, now: int)
    requires GOOGLE_PLAY in cfg.verifiers && answer.Vouched? && answer.v.linkedStoreID != ""
    requires SubscriptionID(GOOGLE_PLAY, answer.v.linkedStoreID) in subs && SubscriptionID(GOOGLE_PLAY, token) !in subs
    ensures var old' := subs[SubscriptionID(GOOGLE_PLAY, answer.v.linkedStoreID)];
            var subs' := AdoptLinked(cfg, subs, token, answer, now);
            && SubscriptionID(GOOGLE_PLAY, token) in subs'
            && var row := subs'[SubscriptionID(GOOGLE_PLAY, token)];
               && row.BoundTo(old'.handle, old'.identityKey) && row.releasedAt.None?
               && (row.status.state.SubWrongTier? && !answer.v.status.state.SubWrongTier? ==>
                     row.status.expiresAt <= old'.status.expiresAt)
  {
  }

  /** If row id is wrong_tier afterwards, it expires no later than before. */
  predicate CappedIfWrong(before: Subs, after: Subs, id: string) {
    id in before && id in after && after[id].status.state.SubWrongTier? ==>
        after[id].status.expiresAt <= before[id].status.expiresAt
  }

  lemma RefreshIntoWrongTier(cfg: Config, subs: Subs, sub: Subscription, answer: Answer, now: int, id: string)
    requires FromStore(answer) && EndsAsListed(subs, sub) && id in subs
    ensures CappedIfWrong(subs, Refresh(cfg, subs, sub, answer, now).1, id)
  {
    if answer.Vouched? && answer.v.status.tier != Handles.Tier(sub.handle) {
      MsUTCMonotone(Fitted(sub.handle, sub.status.expiresAt, answer.v.status).expiresAt, sub.status.expiresAt);
    }
  }

  lemma PutIntoWrongTier(cfg: Config, s: Paid, p: Profile, store: Option<string>, answer: Answer, now: int, ts: int,
                         id: string)
    requires FromStore(answer) && id in s.subs
    ensures CappedIfWrong(s.subs, PutHandle(cfg, s, p, store, answer, now, ts).1.subs, id)
  {
  }

  /** A step that leaves a row wrong_tier has not moved its expiry later. */
  lemma StepIntoWrongTier(cfg: Config, s: Paid, step: PaidStep, id: string)
    requires FromStore(StoreAnswer(step)) && IdsOk(s.subs) && id in s.subs
    requires step.Turn? ==> EndsAsListed(s.subs, step.item.sub)
    ensures CappedIfWrong(s.subs, NextPaid(cfg, s, step).subs, id)
  {
    match step
    case Put(p, store, answer, now, ts) => PutIntoWrongTier(cfg, s, p, store, answer, now, ts, id);
    case Part(_, _) =>
    case Turn(item, now) => RefreshIntoWrongTier(cfg, s.subs, item.sub, item.answer, item.clock, id);
    case Notice(from, storeID, answer, now) =>
      var named := SubscriptionID(from, storeID);
      if named in s.subs { RefreshIntoWrongTier(cfg, s.subs, s.subs[named], answer, now, id); }
  }

  /** However often a subscription renews into the wrong tier, it never outlasts the last period that fitted. */
  lemma {:induction false} WrongTierNeverExtends(cfg: Config, states: seq<Paid>, steps: seq<PaidStep>, i: nat, j: nat,
                                                 id: string)
    requires IsPaidRun(cfg, states, steps) && TurnsEndAsListed(states, steps)
    requires i <= j < |states| && id in states[i].subs
    requires forall k | i < k <= j :: id in states[k].subs && states[k].subs[id].status.state.SubWrongTier?
    ensures id in states[j].subs && states[j].subs[id].status.expiresAt <= states[i].subs[id].status.expiresAt
  {
    if i < j {
      WrongTierNeverExtends(cfg, states, steps, i, j - 1, id);
      HeldPaidHandlesAreBacked(cfg, states, steps, j - 1);
      StepIntoWrongTier(cfg, states[j - 1], steps[j - 1], id);
      assert states[j - 1 + 1] == NextPaid(cfg, states[j - 1], steps[j - 1]);
    }
  }

  /**
   A turn on a row updated since it was listed can lift its expiry: whatever the store says it cannot,
   exactly when the row that was listed ends no later than the one on file.
   */
  lemma StaleTurnExtendsIff(cfg: Config, s: Paid, sub: Subscription, now: int, clock: int, ts: int)
    requires sub.id in s.subs && sub.store in cfg.verifiers
    ensures (forall a: Answer | FromStore(a) ::
               CappedIfWrong(s.subs, SweepOne(cfg, s, Item(sub, a, clock, ts), now).1.subs, sub.id))
            <==> EndsAsListed(s.subs, sub)
  {
    var misfit := if Handles.Tier(sub.handle) == 1 then 2 else 1;
    var a := Vouched(LongExpired(misfit, sub.status.expiresAt));
    assert FromStore(a);
    var after := SweepOne(cfg, s, Item(sub, a, clock, ts), now).1.subs;
    assert after[sub.id].status == Stored(Fitted(sub.handle, sub.status.expiresAt, a.v.status));
    if EndsAsListed(s.subs, sub) {
      forall b: Answer | FromStore(b)
        ensures CappedIfWrong(s.subs, SweepOne(cfg, s, Item(sub, b, clock, ts), now).1.subs, sub.id)
      {
        RefreshIntoWrongTier(cfg, s.subs, sub, b, clock, sub.id);
      }
    }
  }
}
