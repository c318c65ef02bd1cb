/** Marking subscription rows done never hides a held handle from the lapse sweep. */
module PaidCover {
  import opened Wrappers
  import opened Registry
  import Handles
  import opened Subscriptions
  import opened PaidRuns
  import PaidTiers

  /** Row id is bound to (h, key) and the sweep still looks at it. */
  predicate Covers(subs: Subs, id: string, h: string, key: string) {
    Backs(subs, id, h, key) && subs[id].releasedAt.None?
  }

  ghost predicate Covered(words: Handles.Words, s: Paid) {
    forall h, key | HeldPaid(words, s.table, h, key) :: exists id :: Covers(s.subs, id, h, key)
  }

  /** The listed row is still bound as it was when listed. */
  predicate BoundAsListed(subs: Subs, sub: Subscription) {
    sub.id in subs ==> subs[sub.id].BoundTo(sub.handle, sub.identityKey)
  }

  /** A row the sweep is already done with pays, at now, for the handle of sub's row for the same key. */
  ghost predicate DonePays(subs: Subs, sub: Subscription, now: int) {
    exists id :: id in subs && subs[id].releasedAt.Some? && PaysToo(subs, sub, id, now)
  }

  /** Row id alone keeps a held paid handle in the sweep's sight. */
  ghost predicate SoleCover(words: Handles.Words, s: Paid, id: string) {
    && id in s.subs && s.subs[id].releasedAt.None?
    && HeldPaid(words, s.table, s.subs[id].handle, s.subs[id].identityKey)
    && forall i | i in s.subs && i != id :: !Covers(s.subs, i, s.subs[id].handle, s.subs[id].identityKey)
  }

  /**
   A turn at now on the listed row sub could mark done the only row that keeps its handle in sight, and not release
   the handle: the row was rebound since it was listed, or a row already done pays for the handle again.
   */
  ghost predicate CanHide(words: Handles.Words, s: Paid, sub: Subscription, now: int) {
    SoleCover(words, s, sub.id) && (BoundAsListed(s.subs, sub) ==> DonePays(s.subs, sub, now))
  }

  // --- one step ------------------------------------------------------------------------

  lemma BindKeepsCover(s: Paid, store: string, v: Verified, handle: string, key: string, now: int)
    requires IdsOk(s.subs)
    ensures var (outcome, subs) := Bind(s, store, v, handle, key, now);
            && (forall id, h, k | Covers(s.subs, id, h, k) && StillHeld(s.table, h, k) :: Covers(subs, id, h, k))
            && (outcome.Bound? ==> Covers(subs, SubscriptionID(store, v.storeID), handle, key))
  {
  }

  lemma PutKeepsCover(cfg: Config, s: Paid, p: Profile, store: Option<string>, answer: Answer, now: int, ts: int)
    requires PaidInv(cfg.words, s) && Covered(cfg.words, s)
    ensures Covered(cfg.words, PutClaim(cfg, s, p, store, answer, now, ts).1)
  {
    var s' := PutClaim(cfg, s, p, store, answer, now, ts).1;
    if store.Some? && answer.Vouched? {
      BindKeepsCover(s, store.value, answer.v, p.handle, p.identityKey, now);
    }
    forall h, key | HeldPaid(cfg.words, s'.table, h, key)
      ensures exists id :: Covers(s'.subs, id, h, key)
    {
      if StillHeld(s.table, h, key) {
        assert HeldPaid(cfg.words, s.table, h, key);
        var id :| Covers(s.subs, id, h, key);
        assert Covers(s'.subs, id, h, key);
      } else {
        assert Covers(s'.subs, SubscriptionID(store.value, answer.v.storeID), h, key);
      }
    }
  }

  lemma ReleaseKeepsCover(words: Handles.Words, s: Paid, r: Release, ts: int)
    requires Inv(s.table) && Covered(words, s)
    ensures Covered(words, Paid(TableAfterRelease(s.table, r, ts), s.subs))
  {
    ReleaseTableKeepsInv(s.table, r, ts);
    forall h, key | HeldPaid(words, TableAfterRelease(s.table, r, ts), h, key)
      ensures exists id :: Covers(s.subs, id, h, key)
    {
      assert HeldPaid(words, s.table, h, key);
    }
  }

  /**
   What a turn leaves of a row: marked if it was the turn's own and lapsed, and otherwise as it was but for its
   status.
   */
  lemma TurnOnRows(cfg: Config, s: Paid, item: Item, now: int)
    requires IdsOk(s.subs)
    ensures var subs := SweepOne(cfg, s, item, now).1.subs;
            && subs.Keys == s.subs.Keys
            && (forall id, h, k | Covers(s.subs, id, h, k) && id != item.sub.id :: Covers(subs, id, h, k))
            && (forall id | id in s.subs && id != item.sub.id :: subs[id] == s.subs[id])
  {
  }

  /** Among the turns on a handle's only cover, one that marks it releases the handle unless it can hide it. */
  lemma MarkingTurn(cfg: Config, s: Paid, item: Item, now: int)
    requires PaidInv(cfg.words, s) && SoleCover(cfg.words, s, item.sub.id) && !CanHide(cfg.words, s, item.sub, now)
    ensures var id, s' := item.sub.id, SweepOne(cfg, s, item, now).1;
            var h, key := s.subs[id].handle, s.subs[id].identityKey;
            StillHeld(s'.table, h, key) ==> Covers(s'.subs, id, h, key)
  {
    var id := item.sub.id;
    var (outcome, subs, sub) := Refresh(cfg, s.subs, item.sub, item.answer, item.clock);
    TurnOnRows(cfg, s, item, now);
    if !outcome.RefreshFailed? && HasLapsed(sub.status, now, cfg.grace) {
      forall i | i in subs ensures !PaysToo(subs, sub, i, now) {
        assert i != id ==> subs[i] == s.subs[i] && !Covers(s.subs, i, sub.handle, sub.identityKey);
        assert PaysToo(subs, sub, i, now) ==> PaysToo(s.subs, item.sub, i, now);
      }
      ReleaseTableKeepsInv(s.table, PinRelease(LapseRelease(sub, now)), item.ts);
    }
  }

  lemma TurnKeepsCover(cfg: Config, s: Paid, item: Item, now: int)
    requires PaidInv(cfg.words, s) && Covered(cfg.words, s) && !CanHide(cfg.words, s, item.sub, now)
    ensures Covered(cfg.words, SweepOne(cfg, s, item, now).1)
  {
    var s' := SweepOne(cfg, s, item, now).1;
    TurnOnRows(cfg, s, item, now);
    ReleaseTableKeepsInv(s.table, PinRelease(LapseRelease(item.sub, now)), item.ts);
    assert LapseRelease(Refresh(cfg, s.subs, item.sub, item.answer, item.clock).2, now) == LapseRelease(item.sub, now);
    forall h, key | HeldPaid(cfg.words, s'.table, h, key)
      ensures exists id :: Covers(s'.subs, id, h, key)
    {
      assert HeldPaid(cfg.words, s.table, h, key);
      var id :| Covers(s.subs, id, h, key);
      if id != item.sub.id {
        assert Covers(s'.subs, id, h, key);
      } else if SoleCover(cfg.words, s, id) {
        MarkingTurn(cfg, s, item, now);
      } else {
        var other :| other in s.subs && other != id && Covers(s.subs, other, h, key);
        assert Covers(s'.subs, other, h, key);
      }
    }
  }

  /** If the store says the subscription ended long ago, a turn that can hide the handle does. */
  lemma TurnHides(cfg: Config, s: Paid, sub: Subscription, now: int, clock: int, ts: int)
    requires PaidInv(cfg.words, s) && CanHide(cfg.words, s, sub, now) && sub.store in cfg.verifiers
    ensures var a := Vouched(PaidTiers.LongExpired(Handles.Tier(sub.handle), now - cfg.grace - NANOS_PER_MILLI));
            FromStore(a) && !Covered(cfg.words, SweepOne(cfg, s, Item(sub, a, clock, ts), now).1)
  {
    var h, key := s.subs[sub.id].handle, s.subs[sub.id].identityKey;
    var a := Vouched(PaidTiers.LongExpired(Handles.Tier(sub.handle), now - cfg.grace - NANOS_PER_MILLI));
    var item := Item(sub, a, clock, ts);
    var s' := SweepOne(cfg, s, item, now).1;
    TurnOnRows(cfg, s, item, now);
    if BoundAsListed(s.subs, sub) {
      var (_, subs, sub') := Refresh(cfg, s.subs, sub, a, clock);
      var i :| i in s.subs && s.subs[i].releasedAt.Some? && PaysToo(s.subs, sub, i, now);
      assert PaysToo(subs, sub', i, now);
    }
    assert s'.subs[sub.id].releasedAt.Some?;
    assert HeldPaid(cfg.words, s'.table, h, key);
    assert forall i :: !Covers(s'.subs, i, h, key);
  }

  /** Whatever the store answers, a turn keeps every held paid handle in sight, exactly when it cannot hide one. */
  lemma TurnKeepsCoverIff(cfg: Config, s: Paid, sub: Subscription, now: int, clock: int, ts: int)
    requires PaidInv(cfg.words, s) && Covered(cfg.words, s) && sub.store in cfg.verifiers
    ensures (forall a: Answer | FromStore(a) :: Covered(cfg.words, SweepOne(cfg, s, Item(sub, a, clock, ts), now).1))
            <==> !CanHide(cfg.words, s, sub, now)
  {
    if CanHide(cfg.words, s, sub, now) {
      TurnHides(cfg, s, sub, now, clock, ts);
    } else {
      forall a: Answer | FromStore(a)
        ensures Covered(cfg.words, SweepOne(cfg, s, Item(sub, a, clock, ts), now).1)
      {
        TurnKeepsCover(cfg, s, Item(sub, a, clock, ts), now);
      }
    }
  }

  // --- whole runs ----------------------------------------------------------------------

  /** No turn of the run is one that can hide a handle. */
  ghost predicate NoTurnCanHide(cfg: Config, states: seq<Paid>, steps: seq<PaidStep>)
    requires |states| == |steps| + 1
  {
    forall i | 0 <= i < |steps| && steps[i].Turn? :: !CanHide(cfg.words, states[i], steps[i].item.sub, steps[i].now)
  }

  /** In every such run each held paid handle keeps a bound row that the sweep has not marked done. */
  lemma {:induction false} HeldPaidHandlesStayCovered(cfg: Config, states: seq<Paid>, steps: seq<PaidStep>, n: nat)
    requires IsPaidRun(cfg, states, steps) && NoTurnCanHide(cfg, states, steps) && n < |states|
    ensures Covered(cfg.words, states[n])
  {
    if n > 0 {
      HeldPaidHandlesStayCovered(cfg, states, steps, n - 1);
      HeldPaidHandlesAreBacked(cfg, states, steps, n - 1);
      assert states[n - 1 + 1] == NextPaid(cfg, states[n - 1], steps[n - 1]);
      StepKeepsCover(cfg, states[n - 1], steps[n - 1]);
    }
  }

  lemma StepKeepsCover(cfg: Config, s: Paid, step: PaidStep)
    requires PaidInv(cfg.words, s) && Covered(cfg.words, s)
    requires step.Turn? ==> !CanHide(cfg.words, s, step.item.sub, step.now)
    ensures Covered(cfg.words, NextPaid(cfg, s, step))
  {
    match step
    case Put(p, store, answer, t, ts) =>
      PutKeepsCover(cfg, s, p, store, answer, t, ts);
      ReleaseKeepsCover(cfg.words, s, PinRelease(TombstoneOf(cfg, p, t)), ts);
    case Turn(item, now) => TurnKeepsCover(cfg, s, item, now);
    case Part(release, ts) => ReleaseKeepsCover(cfg.words, s, PinRelease(release), ts);
    case Notice(_, _, _, _) =>
      var s' := NextPaid(cfg, s, step);
      forall h, key | HeldPaid(cfg.words, s'.table, h, key)
        ensures exists id :: Covers(s'.subs, id, h, key)
      {
        assert HeldPaid(cfg.words, s.table, h, key);
        var id :| Covers(s.subs, id, h, key);
        assert Covers(s'.subs, id, h, key);
      }
  }
}
