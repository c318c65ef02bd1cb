/** What paid handles guarantee over whole runs of requests, notifications and sweep turns. */
module PaidRuns {
  import opened Wrappers
  import opened Registry
  import RegistryLaws
  import Handles
  import opened Subscriptions

  /** One request, one notification, or one turn of a sweep that started at now. */
  datatype PaidStep =
    | Put(p: Profile, store: Option<string>, answer: Answer, now: int, ts: int)
    | Part(release: Release, ts: int)
    | Notice(from: string, storeID: string, answer: Answer, now: int)
    | Turn(item: Item, now: int)

  function NextPaid(cfg: Config, s: Paid, step: PaidStep): Paid {
    match step
    case Put(p, store, answer, now, ts) => PutHandle(cfg, s, p, store, answer, now, ts).1
    case Part(release, ts) => Paid(TableAfterRelease(s.table, PinRelease(release), ts), s.subs)
    case Notice(store, storeID, answer, now) => Paid(s.table, Notification(cfg, s.subs, store, storeID, answer, now))
    case Turn(item, now) => SweepOne(cfg, s, item, now).1
  }

  function StoreAnswer(step: PaidStep): Answer {
    match step
    case Put(_, _, answer, _, _) => answer
    case Part(_, _) => Unavailable
    case Notice(_, _, answer, _) => answer
    case Turn(item, _) => item.answer
  }

  /** Any sequence of steps from an empty registry with purchases on. */
  ghost predicate IsPaidRun(cfg: Config, states: seq<Paid>, steps: seq<PaidStep>) {
    && |states| == |steps| + 1
    && states[0] == Paid(map[], map[])
    && (forall i | 0 <= i < |steps| :: states[i + 1] == NextPaid(cfg, states[i], steps[i]))
    && (forall i | 0 <= i < |steps| :: FromStore(StoreAnswer(steps[i])))
  }

  // --- every held paid handle is backed ----------------------------------------------

  /** A handle the app does not give away, held by key. */
  predicate HeldPaid(words: Handles.Words, t: Table, h: string, key: string) {
    StillHeld(t, h, key) && !Handles.IsGenerated(h, words)
  }

  predicate Backs(subs: Subs, id: string, h: string, key: string) {
    id in subs && subs[id].BoundTo(h, key)
  }

  ghost predicate Backed(words: Handles.Words, s: Paid) {
    forall h, key | HeldPaid(words, s.table, h, key) :: exists id :: Backs(s.subs, id, h, key)
  }

  ghost predicate IdsOk(subs: Subs) {
    forall id | id in subs :: subs[id].id == id
  }

  ghost predicate PaidInv(words: Handles.Words, s: Paid) {
    Inv(s.table) && IdsOk(s.subs) && Backed(words, s)
  }

  lemma ReleaseTableKeepsInv(t: Table, r: Release, ts: int)
    requires Inv(t)
    ensures Inv(TableAfterRelease(t, r, ts))
    ensures forall h, key | StillHeld(TableAfterRelease(t, r, ts), h, key) :: StillHeld(t, h, key)
  {
    if DecideRelease(t, r).Applied? {
      RegistryLaws.ReleaseDecided(t, r, ts);
      RegistryLaws.ReleaseKeepsInv(t, r, ts);
    }
  }

  /** A bind never takes a row from a handle that is still held, and leaves one behind for the handle it is for. */
  lemma BindKeepsBacking(s: Paid, store: string, v: Verified, handle: string, key: string, now: int)
    requires IdsOk(s.subs)
    ensures var (outcome, subs) := Bind(s, store, v, handle, key, now);
            && IdsOk(subs)
            && (forall id, h, k | Backs(s.subs, id, h, k) && StillHeld(s.table, h, k) :: Backs(subs, id, h, k))
            && (outcome.Bound? ==> Backs(subs, SubscriptionID(store, v.storeID), handle, key))
  {
  }

  /**
   What a claim leaves in the subscription table: every held handle's rows, and one for whoever newly holds its
   handle.
   */
  lemma PutBinds(cfg: Config, s: Paid, p: Profile, store: Option<string>, answer: Answer, now: int, ts: int,
                 h: string, key: string)
    requires IdsOk(s.subs)
    ensures var s' := PutClaim(cfg, s, p, store, answer, now, ts).1;
            && IdsOk(s'.subs)
            && (StillHeld(s.table, h, key) ==> forall id | Backs(s.subs, id, h, key) :: Backs(s'.subs, id, h, key))
            && (HeldPaid(cfg.words, s'.table, h, key) && !StillHeld(s.table, h, key) ==>
                  exists id :: Backs(s'.subs, id, h, key))
  {
    var s' := PutClaim(cfg, s, p, store, answer, now, ts).1;
    if store.Some? && answer.Vouched? {
      BindKeepsBacking(s, store.value, answer.v, p.handle, p.identityKey, now);
    }
    if HeldPaid(cfg.words, s'.table, h, key) && !StillHeld(s.table, h, key) {
      assert h == p.handle && key == p.identityKey;
      assert Backs(s'.subs, SubscriptionID(store.value, answer.v.storeID), h, key);
    }
  }

  lemma PutKeepsPaidInv(cfg: Config, s: Paid, p: Profile, store: Option<string>, answer: Answer, now: int, ts: int)
    requires PaidInv(cfg.words, s)
    ensures PaidInv(cfg.words, PutClaim(cfg, s, p, store, answer, now, ts).1)
  {
    var s' := PutClaim(cfg, s, p, store, answer, now, ts).1;
    RegistryLaws.ClaimKeepsInv(s.table, Pin(ClaimOf(p, now)), ts);
    PutBinds(cfg, s, p, store, answer, now, ts, "", "");
    forall h, key | HeldPaid(cfg.words, s'.table, h, key)
      ensures exists id :: Backs(s'.subs, id, h, key)
    {
      PutBinds(cfg, s, p, store, answer, now, ts, h, key);
      if StillHeld(s.table, h, key) {
        assert HeldPaid(cfg.words, s.table, h, key);
        var id :| Backs(s.subs, id, h, key);
        assert Backs(s'.subs, id, h, key);
      }
    }
  }

  lemma ReleaseKeepsPaidInv(words: Handles.Words, s: Paid, r: Release, ts: int)
    requires PaidInv(words, s)
    ensures PaidInv(words, Paid(TableAfterRelease(s.table, r, ts), s.subs))
  {
    ReleaseTableKeepsInv(s.table, r, ts);
    forall h, key | HeldPaid(words, TableAfterRelease(s.table, r, ts), h, key)
      ensures exists id :: Backs(s.subs, id, h, key)
    {
      assert HeldPaid(words, s.table, h, key);
    }
  }

  /** Refreshing a row moves no binding, its own included. */
  lemma RefreshKeepsBacking(cfg: Config, subs: Subs, sub: Subscription, answer: Answer, now: int)
    requires IdsOk(subs)
    ensures var (_, after, sub') := Refresh(cfg, subs, sub, answer, now);
            && IdsOk(after)
            && (forall id, h, k | Backs(subs, id, h, k) :: Backs(after, id, h, k))
            && sub'.id == sub.id && sub'.BoundTo(sub.handle, sub.identityKey)
  {
  }

  lemma TurnKeepsPaidInv(cfg: Config, s: Paid, item: Item, now: int)
    requires PaidInv(cfg.words, s)
    ensures PaidInv(cfg.words, SweepOne(cfg, s, item, now).1)
  {
    var s' := SweepOne(cfg, s, item, now).1;
    RefreshKeepsBacking(cfg, s.subs, item.sub, item.answer, item.clock);
    ReleaseTableKeepsInv(s.table, PinRelease(LapseRelease(item.sub, now)), item.ts);
    var sub := Refresh(cfg, s.subs, item.sub, item.answer, item.clock).2;
    assert LapseRelease(sub, now) == LapseRelease(item.sub, now);
    forall h, key | HeldPaid(cfg.words, s'.table, h, key)
      ensures exists id :: Backs(s'.subs, id, h, key)
    {
      assert HeldPaid(cfg.words, s.table, h, key);
      var id :| Backs(s.subs, id, h, key);
      assert Backs(s'.subs, id, h, key);
    }
  }

  lemma StepKeepsPaidInv(cfg: Config, s: Paid, step: PaidStep)
    requires PaidInv(cfg.words, s)
    ensures PaidInv(cfg.words, NextPaid(cfg, s, step))
  {
    match step
    case Put(p, store, answer, now, ts) =>
      PutKeepsPaidInv(cfg, s, p, store, answer, now, ts);
      ReleaseKeepsPaidInv(cfg.words, s, PinRelease(TombstoneOf(cfg, p, now)), ts);
    case Turn(item, now) => TurnKeepsPaidInv(cfg, s, item, now);
    case Part(release, ts) => ReleaseKeepsPaidInv(cfg.words, s, PinRelease(release), ts);
    case Notice(_, _, _, _) =>
      var s' := NextPaid(cfg, s, step);
      assert forall id, h, k | Backs(s.subs, id, h, k) :: Backs(s'.subs, id, h, k);
  }

  /** In every run, every held handle the app does not give away has a row bound to exactly that handle and key. */
  lemma {:induction false} HeldPaidHandlesAreBacked(cfg: Config, states: seq<Paid>, steps: seq<PaidStep>, n: nat)
    requires IsPaidRun(cfg, states, steps) && n < |states|
    ensures PaidInv(cfg.words, states[n])
  {
    if n > 0 {
      HeldPaidHandlesAreBacked(cfg, states, steps, n - 1);
      StepKeepsPaidInv(cfg, states[n - 1], steps[n - 1]);
      assert states[n - 1 + 1] == NextPaid(cfg, states[n - 1], steps[n - 1]);
    }
  }

  // --- what a newly held paid handle rests on ------------------------------------------

  /**
   A paid handle newly created was vouched for by an accepted store: the right tier, entitled now, bound to it and
   live.
   */
  lemma CreatedPaidHandleIsPaidFor(cfg: Config, s: Paid, p: Profile, store: Option<string>, answer: Answer, now: int,
                                   ts: int)
    requires PaidInv(cfg.words, s)
    requires PutHandle(cfg, s, p, store, answer, now, ts).0 == Claimed(Created)
    requires !Handles.IsGenerated(p.handle, cfg.words)
    ensures store.Some? && store.value in cfg.verifiers && answer.Vouched?
    ensures var id, s' := SubscriptionID(store.value, answer.v.storeID), PutHandle(cfg, s, p, store, answer, now, ts).1;
            && Backs(s'.subs, id, p.handle, p.identityKey) && StillHeld(s'.table, p.handle, p.identityKey)
            && s'.subs[id].releasedAt.None? && s'.subs[id].status == Stored(answer.v.status)
            && answer.v.status.tier == Handles.Tier(p.handle) && Entitled(answer.v.status, now)
  {
    assert !StillHeld(s.table, p.handle, p.identityKey);
  }

  /** A step moves a row's binding only off a handle its key no longer holds, and never removes a row. */
  lemma BindingsMoveOnlyWhenGivenUp(cfg: Config, s: Paid, step: PaidStep, id: string)
    requires IdsOk(s.subs) && id in s.subs
    ensures id in NextPaid(cfg, s, step).subs
    ensures NextPaid(cfg, s, step).subs[id].BoundTo(s.subs[id].handle, s.subs[id].identityKey)
            || !StillHeld(s.table, s.subs[id].handle, s.subs[id].identityKey)
  {
    match step
    case Put(p, store, answer, now, ts) =>
      PutBinds(cfg, s, p, store, answer, now, ts, s.subs[id].handle, s.subs[id].identityKey);
      assert Backs(s.subs, id, s.subs[id].handle, s.subs[id].identityKey);
    case Turn(item, now) => RefreshKeepsBacking(cfg, s.subs, item.sub, item.answer, item.clock);
    case Part(_, _) =>
    case Notice(_, _, _, _) =>
  }

  /** Two receipts share a row only if they are the same receipt of the same store. */
  lemma SubscriptionIDsDiffer(a: string, b: string, x: string, y: string)
    requires ':' !in a && ':' !in b && SubscriptionID(a, x) == SubscriptionID(b, y)
    ensures a == b && x == y
  {
    var u, v := a + ":" + x, b + ":" + y;
    assert u[|a|] == ':' && v[|b|] == ':';
    assert forall i :: 0 <= i < |a| ==> u[i] == a[i] && a[i] != ':';
    assert forall i :: 0 <= i < |b| ==> v[i] == b[i] && b[i] != ':';
    assert u[..|a|] == a && v[..|b|] == b && u[|a| + 1..] == x && v[|b| + 1..] == y;
  }

  // --- no row backs two, so there are at least as many rows -------------------------------

  function HeldPaidSet(words: Handles.Words, t: Table): set<string> {
    set h | h in t && t[h].Active() && !Handles.IsGenerated(h, words)
  }

  /** Held paid handles never outnumber subscription rows. */
  lemma HeldPaidNeverOutnumberRows(cfg: Config, states: seq<Paid>, steps: seq<PaidStep>, n: nat)
    requires IsPaidRun(cfg, states, steps) && n < |states|
    ensures |HeldPaidSet(cfg.words, states[n].table)| <= |states[n].subs|
  {
    HeldPaidHandlesAreBacked(cfg, states, steps, n);
    var s := states[n];
    forall h | h in HeldPaidSet(cfg.words, s.table) ensures exists id :: id in s.subs && s.subs[id].handle == h {
      assert HeldPaid(cfg.words, s.table, h, s.table[h].identityKey.value);
      var id :| Backs(s.subs, id, h, s.table[h].identityKey.value);
      assert id in s.subs && s.subs[id].handle == h;
    }
    BackedCount(HeldPaidSet(cfg.words, s.table), s.subs);
    assert |s.subs| == |s.subs.Keys|;
  }

  lemma {:induction false} BackedCount(handles: set<string>, subs: Subs)
    requires forall h | h in handles :: exists id :: id in subs && subs[id].handle == h
    ensures |handles| <= |subs|
  {
    if handles != {} {
      var h :| h in handles;
      var id :| id in subs && subs[id].handle == h;
      var rest := subs - {id};
      forall g | g in handles - {h} ensures exists i :: i in rest && rest[i].handle == g {
        var i :| i in subs && subs[i].handle == g;
        assert i in rest;
      }
      BackedCount(handles - {h}, rest);
      assert rest.Keys == subs.Keys - {id};
      assert |rest| == |rest.Keys| && |subs| == |subs.Keys|;
    }
  }
}
