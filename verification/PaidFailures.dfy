/** Runs from an empty registry that end in each state a stale listing, or a row paid for again, can lead to. */
module PaidFailures {
  import opened Wrappers
  import opened Registry
  import Handles
  import opened Subscriptions
  import opened PaidRuns
  import PaidCover
  import PaidTiers
  import PaidSweep

  const MS := NANOS_PER_MILLI

  /** A valid handle that is not given away. */
  predicate PaidName(cfg: Config, h: string) {
    Handles.Validate(h).None? && !Handles.IsGenerated(h, cfg.words)
  }

  /** Each turn is on a row as it was on file, unmarked and ended before the cutoff, when it was listed. */
  ghost predicate TurnsWereListed(cfg: Config, states: seq<Paid>, steps: seq<PaidStep>)
    requires |states| == |steps| + 1
  {
    forall i | 0 <= i < |steps| && steps[i].Turn? :: exists j :: 0 <= j <= i && Lists(cfg, states[j], steps[i])
  }

  predicate Lists(cfg: Config, s: Paid, turn: PaidStep)
    requires turn.Turn?
  {
    PaidSweep.AsOnFile(s.subs, turn.item) && LapsedBy(turn.item.sub, turn.now - cfg.grace)
  }

  ghost predicate IsListedRun(cfg: Config, states: seq<Paid>, steps: seq<PaidStep>) {
    IsPaidRun(cfg, states, steps) && TurnsWereListed(cfg, states, steps)
  }

  /** A run goes on with one more step. */
  lemma Then(cfg: Config, states: seq<Paid>, steps: seq<PaidStep>, step: PaidStep)
    returns (states': seq<Paid>, steps': seq<PaidStep>, s': Paid)
    requires IsListedRun(cfg, states, steps) && FromStore(StoreAnswer(step))
    requires step.Turn? ==> exists j :: 0 <= j < |states| && Lists(cfg, states[j], step)
    ensures IsListedRun(cfg, states', steps')
    ensures s' == NextPaid(cfg, states[|steps|], step) && states' == states + [s'] && steps' == steps + [step]
  {
    s' := NextPaid(cfg, states[|steps|], step);
    states', steps' := states + [s'], steps + [step];
    forall i | 0 <= i < |steps'| && steps'[i].Turn?
      ensures exists j :: 0 <= j <= i && Lists(cfg, states'[j], steps'[i])
    {
      var j :| 0 <= j <= i && Lists(cfg, states[j], steps'[i]);
      assert states'[j] == states[j];
    }
  }

  lemma Begin(cfg: Config)
    ensures IsListedRun(cfg, [Paid(map[], map[])], [])
  {
  }

  // --- the pieces of a run ---------------------------------------------------------------

  /** When the sweep starts: whatever ended within the first 99 milliseconds is past its grace. */
  function SweepTime(cfg: Config): int {
    100 * MS + if cfg.grace > 0 then cfg.grace else 0
  }

  function Says(h: string, state: SubState, until: int, storeID: string, linked: string): Answer {
    Vouched(Verified(Status("", "", Handles.Tier(h), state, until, ""), storeID, linked))
  }

  function Certificate(h: string, key: string, issuedAt: int, released: bool): Profile {
    Profile(h, key, "serial", issuedAt, released, "certificate")
  }

  /** key claims h on a purchase, with receipt "a", that runs until a moment. */
  function Buy(h: string, key: string, store: string, until: int, now: int): PaidStep {
    Put(Certificate(h, key, 2 * MS, false), Some(store), Says(h, SubActive, until, "a", ""), now, now)
  }

  function GiveUp(h: string, key: string, now: int): PaidStep {
    Put(Certificate(h, key, 3 * MS, true), None, Unavailable, now, now)
  }

  /** The row a first purchase leaves. */
  function Bought(h: string, key: string, store: string, until: int): Subscription {
    Subscription(SubscriptionID(store, "a"), store, "a", h, key,
                 Stored(Says(h, SubActive, until, "a", "").v.status), 0, 0, None)
  }

  lemma FirstPurchase(cfg: Config, h: string, key: string, store: string, until: int)
    requires PaidName(cfg, h) && store in cfg.verifiers && 0 < until
    ensures var s := NextPaid(cfg, Paid(map[], map[]), Buy(h, key, store, until, 0));
            && s.subs == map[SubscriptionID(store, "a") := Bought(h, key, store, until)]
            && s.table.Keys == {h} && StillHeld(s.table, h, key)
            && s.table[h].skeleton == Handles.Skeleton(h) && s.table[h].issuedAt == 2 * MS
  {
  }

  lemma IDsOfReceipts(store: string)
    ensures SubscriptionID(store, "a") != SubscriptionID(store, "b")
  {
    var a, b := SubscriptionID(store, "a"), SubscriptionID(store, "b");
    assert a[|a| - 1] == 'a' && b[|b| - 1] == 'b';
  }

  /** Play reports token "b", which replaces "a". */
  function Upgrade(h: string, until: int): PaidStep {
    Notice(GOOGLE_PLAY, "b", Says(h, SubActive, until, "b", "a"), 5 * MS)
  }

  /** The row the upgrade leaves beside the first. */
  function Upgraded(h: string, key: string, until: int): Subscription {
    Subscription(SubscriptionID(GOOGLE_PLAY, "b"), GOOGLE_PLAY, "b", h, key,
                 Stored(Says(h, SubActive, until, "b", "a").v.status), 5 * MS, 5 * MS, None)
  }

  lemma UpgradeAdopted(cfg: Config, s: Paid, h: string, key: string, until: int)
    requires GOOGLE_PLAY in cfg.verifiers
    requires s.subs == map[SubscriptionID(GOOGLE_PLAY, "a") := Bought(h, key, GOOGLE_PLAY, 10 * MS)]
    ensures var b := Upgraded(h, key, until); NextPaid(cfg, s, Upgrade(h, until)) == Paid(s.table, s.subs[b.id := b])
  {
    IDsOfReceipts(GOOGLE_PLAY);
  }

  /** The turn of a row as it is on file, which the store says ended when it was due to. */
  function TurnEnded(sub: Subscription, now: int): PaidStep {
    Turn(Item(sub, Says(sub.handle, SubExpired, sub.status.expiresAt, sub.storeID, ""), now, now), now)
  }

  /** If another row pays for the handle, the turn marks its row done and does nothing else. */
  lemma TurnHeldUp(cfg: Config, s: Paid, sub: Subscription, now: int, other: string)
    requires sub.id in s.subs && s.subs[sub.id] == sub && sub.store in cfg.verifiers
    requires sub.status.expiresAt < now - cfg.grace && PaysToo(s.subs, sub, other, now)
    ensures var s' := NextPaid(cfg, s, TurnEnded(sub, now));
            && s'.table == s.table && OnlyRow(s.subs, s'.subs, sub.id)
            && var row := s'.subs[sub.id];
               && row.releasedAt.Some?
               && row == sub.(status := row.status, updatedAt := row.updatedAt, releasedAt := row.releasedAt)
  {
    var (outcome, subs, sub') := Refresh(cfg, s.subs, sub, TurnEnded(sub, now).item.answer, now);
    assert PaysToo(subs, sub', other, now);
  }

  // --- how the runs begin ------------------------------------------------------------------------

  /** A run in which key buys h. */
  lemma BoughtRun(cfg: Config, h: string, key: string, store: string, until: int)
    returns (states: seq<Paid>, steps: seq<PaidStep>)
    requires PaidName(cfg, h) && store in cfg.verifiers && 0 < until
    ensures IsListedRun(cfg, states, steps) && |steps| == 1
    ensures var row := Bought(h, key, store, until);
            && states[1].subs == map[row.id := row] && states[1].table.Keys == {h} && StillHeld(states[1].table, h, key)
            && states[1].table[h].skeleton == Handles.Skeleton(h) && states[1].table[h].issuedAt == 2 * MS
  {
    Begin(cfg);
    FirstPurchase(cfg, h, key, store, until);
    var s1;
    states, steps, s1 := Then(cfg, [Paid(map[], map[])], [], Buy(h, key, store, until, 0));
  }

  /** A run in which key buys h, and upgrades to a second receipt that runs until a moment. */
  lemma UpgradedRun(cfg: Config, h: string, key: string, until: int) returns (states: seq<Paid>, steps: seq<PaidStep>)
    requires PaidName(cfg, h) && GOOGLE_PLAY in cfg.verifiers
    ensures IsListedRun(cfg, states, steps) && |steps| == 2
    ensures var rowA, rowB := Bought(h, key, GOOGLE_PLAY, 10 * MS), Upgraded(h, key, until);
            && states[1].subs == map[rowA.id := rowA] && states[2].subs == map[rowA.id := rowA, rowB.id := rowB]
            && states[2].table.Keys == {h} && StillHeld(states[2].table, h, key)
  {
    states, steps := BoughtRun(cfg, h, key, GOOGLE_PLAY, 10 * MS);
    UpgradeAdopted(cfg, states[1], h, key, until);
    var s2;
    states, steps, s2 := Then(cfg, states, steps, Upgrade(h, until));
  }

  // --- runs of three steps -----------------------------------------------------------------------

  /**
   The subscriber renews after being listed, and the store then forgets the receipt: the turn judges by the status it
   listed, and releases the handle, although the row on file is entitled, and marks that row done.
   */
  lemma RenewedRowLosesItsHandle(cfg: Config, h: string, key: string, store: string)
    returns (states: seq<Paid>, steps: seq<PaidStep>)
    requires PaidName(cfg, h) && store in cfg.verifiers
    ensures |steps| == 3 && IsListedRun(cfg, states, steps) && steps[2].Turn?
    ensures var s, after, id := states[2], states[3], SubscriptionID(store, "a");
            && PaidSweep.CanReleaseEntitled(cfg, s, steps[2].item.sub, steps[2].now)
            && StillHeld(s.table, h, key) && !StillHeld(after.table, h, key)
            && id in after.subs && Entitled(after.subs[id].status, steps[2].now) && after.subs[id].releasedAt.Some?
  {
    var now, row := SweepTime(cfg), Bought(h, key, store, 10 * MS);
    states, steps := BoughtRun(cfg, h, key, store, 10 * MS);
    var s2, s3;
    var renewed := Notice(store, "a", Says(h, SubActive, now + 1000 * MS, "a", ""), now);
    states, steps, s2 := Then(cfg, states, steps, renewed);
    var turn := Turn(Item(row, Invalid, now, now), now);
    assert Lists(cfg, states[1], turn);
    states, steps, s3 := Then(cfg, states, steps, turn);
  }

  /** A refund recorded after the row was listed is undone by its turn: the row, a misfit, runs on to its listed end. */
  lemma RefundedRowRunsOn(cfg: Config, h: string, key: string, store: string)
    returns (states: seq<Paid>, steps: seq<PaidStep>)
    requires PaidName(cfg, h) && store in cfg.verifiers
    ensures |steps| == 3 && IsListedRun(cfg, states, steps) && steps[2].Turn?
    ensures !PaidTiers.CappedIfWrong(states[2].subs, states[3].subs, SubscriptionID(store, "a"))
  {
    var now, row := SweepTime(cfg), Bought(h, key, store, 20 * MS);
    var misfit := Says(if Handles.Tier(h) == 1 then "xx" else "x", SubActive, now + 1000 * MS, "a", "");
    states, steps := BoughtRun(cfg, h, key, store, 20 * MS);
    var s2, s3;
    states, steps, s2 := Then(cfg, states, steps, Notice(store, "a", Says(h, SubRevoked, 10 * MS, "a", ""), now));
    var turn := Turn(Item(row, misfit, now, now), now);
    assert Lists(cfg, states[1], turn);
    states, steps, s3 := Then(cfg, states, steps, turn);
  }

  /** One long-lapsed row releases a handle that another, just ended, is still in grace for. */
  lemma GraceCutShort(cfg: Config, h: string, key: string)
    returns (states: seq<Paid>, steps: seq<PaidStep>)
    requires PaidName(cfg, h) && GOOGLE_PLAY in cfg.verifiers && cfg.grace >= MS
    ensures |steps| == 3 && IsListedRun(cfg, states, steps) && steps[2].Turn?
    ensures PaidSweep.AsOnFile(states[2].subs, steps[2].item)
    ensures PaidSweep.KeptByAnother(states[2].subs, steps[2].item.sub, steps[2].now, cfg.grace)
    ensures StillHeld(states[2].table, h, key) && !StillHeld(states[3].table, h, key)
  {
    var now := SweepTime(cfg);
    var rowA, rowB := Bought(h, key, GOOGLE_PLAY, 10 * MS), Upgraded(h, key, now);
    IDsOfReceipts(GOOGLE_PLAY);
    states, steps := UpgradedRun(cfg, h, key, now);
    assert PaidSweep.InGraceToo(states[2].subs, rowA, rowB.id, now, cfg.grace);
    var turn := Turn(Item(rowA, Invalid, now, now), now);
    assert Lists(cfg, states[1], turn);
    var s3;
    states, steps, s3 := Then(cfg, states, steps, turn);
  }

  // --- a row renewed after it was done -----------------------------------------------------------

  /** Then the first receipt's row lapses, and is marked done. */
  lemma FirstRowDone(cfg: Config, h: string, key: string) returns (states: seq<Paid>, steps: seq<PaidStep>)
    requires PaidName(cfg, h) && GOOGLE_PLAY in cfg.verifiers
    ensures IsListedRun(cfg, states, steps) && |steps| == 3
    ensures var rowA, rowB := Bought(h, key, GOOGLE_PLAY, 10 * MS), Upgraded(h, key, SweepTime(cfg) + 1000 * MS);
            && rowB.id in states[2].subs && states[2].subs[rowB.id] == rowB
            && states[3].table.Keys == {h} && StillHeld(states[3].table, h, key)
            && states[3].subs.Keys == {rowA.id, rowB.id} && states[3].subs[rowB.id] == rowB
            && states[3].subs[rowA.id] == rowA.(status := states[3].subs[rowA.id].status,
                                                updatedAt := states[3].subs[rowA.id].updatedAt,
                                                releasedAt := states[3].subs[rowA.id].releasedAt)
            && states[3].subs[rowA.id].releasedAt.Some?
  {
    var now := SweepTime(cfg);
    var rowA, rowB := Bought(h, key, GOOGLE_PLAY, 10 * MS), Upgraded(h, key, now + 1000 * MS);
    IDsOfReceipts(GOOGLE_PLAY);
    states, steps := UpgradedRun(cfg, h, key, now + 1000 * MS);
    assert Lists(cfg, states[1], TurnEnded(rowA, now));
    TurnHeldUp(cfg, states[2], rowA, now, rowB.id);
    var s3;
    states, steps, s3 := Then(cfg, states, steps, TurnEnded(rowA, now));
  }

  /** When the second sweep starts: what ran a second beyond the first is past its grace. */
  function SecondSweep(cfg: Config): int { 2 * SweepTime(cfg) + 2000 * MS }

  lemma DoneRowRenewed(cfg: Config, s: Paid, sub: Subscription, until: int, now: int)
    requires sub.id == SubscriptionID(GOOGLE_PLAY, "a") && sub.id in s.subs && GOOGLE_PLAY in cfg.verifiers
    requires s.subs[sub.id].store == GOOGLE_PLAY && s.subs[sub.id].id == sub.id && s.subs[sub.id].handle == sub.handle
    ensures var s' := NextPaid(cfg, s, Notice(GOOGLE_PLAY, "a", Says(sub.handle, SubActive, until, "a", ""), now));
            && s'.table == s.table && OnlyRow(s.subs, s'.subs, sub.id) && BindingsKept(s.subs, s'.subs)
            && s'.subs[sub.id].status == Stored(Says(sub.handle, SubActive, until, "a", "").v.status)
  {
  }

  /** Then the first receipt is renewed; its row stays marked. */
  lemma FirstRowRenewed(cfg: Config, h: string, key: string) returns (states: seq<Paid>, steps: seq<PaidStep>)
    requires PaidName(cfg, h) && GOOGLE_PLAY in cfg.verifiers
    ensures IsListedRun(cfg, states, steps) && |steps| == 4
    ensures var a, rowB := SubscriptionID(GOOGLE_PLAY, "a"), Upgraded(h, key, SweepTime(cfg) + 1000 * MS);
            && rowB.id in states[2].subs && states[2].subs[rowB.id] == rowB
            && states[4].table.Keys == {h} && StillHeld(states[4].table, h, key)
            && states[4].subs.Keys == {a, rowB.id} && states[4].subs[rowB.id] == rowB
            && states[4].subs[a].releasedAt.Some? && PaysToo(states[4].subs, rowB, a, SecondSweep(cfg))
  {
    var now, until := SweepTime(cfg), SecondSweep(cfg) + 1000 * MS;
    IDsOfReceipts(GOOGLE_PLAY);
    states, steps := FirstRowDone(cfg, h, key);
    DoneRowRenewed(cfg, states[3], Bought(h, key, GOOGLE_PLAY, 10 * MS), until, now);
    var s4;
    states, steps, s4 := Then(cfg, states, steps, Notice(GOOGLE_PLAY, "a", Says(h, SubActive, until, "a", ""), now));
  }

  /** What it means for the held handle that its last row in sight is marked done. */
  lemma AllRowsDone(cfg: Config, s: Paid, after: Paid, done: string, row: Subscription, now: int, h: string,
                    key: string)
    requires PaidName(cfg, h) && s.table.Keys == {h} && StillHeld(s.table, h, key) && after.table == s.table
    requires s.subs.Keys == after.subs.Keys == {done, row.id} && row.BoundTo(h, key) && row.releasedAt.None?
    requires s.subs[row.id] == row && s.subs[done].releasedAt.Some? && PaysToo(s.subs, row, done, now)
    requires after.subs[done].releasedAt.Some? && after.subs[row.id].releasedAt.Some?
    ensures PaidCover.DonePays(s.subs, row, now)
    ensures PaidCover.Covered(cfg.words, s) && !PaidCover.Covered(cfg.words, after)
    ensures HeldPaid(cfg.words, after.table, h, key)
  {
    assert PaidCover.Covers(s.subs, row.id, h, key);
    assert HeldPaid(cfg.words, after.table, h, key);
  }

  /**
   A row already done is renewed, and from then on holds up the release of its handle without keeping it in sight:
   when the handle's other row lapses that one is marked done too, and no later sweep lists a row of the handle.
   */
  lemma RenewedDoneRowHidesHandle(cfg: Config, h: string, key: string)
    returns (states: seq<Paid>, steps: seq<PaidStep>)
    requires PaidName(cfg, h) && GOOGLE_PLAY in cfg.verifiers
    ensures |steps| == 5 && IsListedRun(cfg, states, steps) && steps[4].Turn?
    ensures PaidSweep.AsOnFile(states[4].subs, steps[4].item)
    ensures PaidCover.DonePays(states[4].subs, steps[4].item.sub, steps[4].now)
    ensures PaidCover.Covered(cfg.words, states[4]) && !PaidCover.Covered(cfg.words, states[5])
    ensures HeldPaid(cfg.words, states[5].table, h, key)
    ensures forall id | id in states[5].subs :: states[5].subs[id].releasedAt.Some?
  {
    var now, a := SecondSweep(cfg), SubscriptionID(GOOGLE_PLAY, "a");
    var rowB := Upgraded(h, key, SweepTime(cfg) + 1000 * MS);
    IDsOfReceipts(GOOGLE_PLAY);
    states, steps := FirstRowRenewed(cfg, h, key);
    assert Lists(cfg, states[2], TurnEnded(rowB, now));
    TurnHeldUp(cfg, states[4], rowB, now, a);
    var s5;
    states, steps, s5 := Then(cfg, states, steps, TurnEnded(rowB, now));
    AllRowsDone(cfg, states[4], s5, a, rowB, now, h, key);
  }

  // --- a row rebound since it was listed ---------------------------------------------------------

  /** A run in which key buys h and gives it up. */
  lemma PartedRun(cfg: Config, h: string, key: string, store: string) returns (states: seq<Paid>, steps: seq<PaidStep>)
    requires PaidName(cfg, h) && store in cfg.verifiers
    ensures IsListedRun(cfg, states, steps) && |steps| == 2
    ensures var row := Bought(h, key, store, 10 * MS);
            && states[1].subs == states[2].subs == map[row.id := row]
            && states[2].table.Keys == {h} && !states[2].table[h].Active()
            && states[2].table[h].skeleton == Handles.Skeleton(h)
  {
    states, steps := BoughtRun(cfg, h, key, store, 10 * MS);
    var s2;
    states, steps, s2 := Then(cfg, states, steps, GiveUp(h, key, SweepTime(cfg)));
  }

  /** The receipt of a handle given up, renewed for g's tier, pays for g. */
  lemma MovesToFreeHandle(cfg: Config, s: Paid, row: Subscription, g: string, until: int, now: int)
    requires s.subs == map[row.id := row] && row.id == SubscriptionID(row.store, "a") && row.store in cfg.verifiers
    requires s.table.Keys == {row.handle} && !s.table[row.handle].Active()
    requires s.table[row.handle].skeleton == Handles.Skeleton(row.handle)
    requires PaidName(cfg, g) && Handles.Skeleton(row.handle) != Handles.Skeleton(g) && now < until
    ensures var s' := NextPaid(cfg, s, Buy(g, row.identityKey, row.store, until, now));
            && s'.table.Keys == {row.handle, g} && s'.table[row.handle] == s.table[row.handle]
            && StillHeld(s'.table, g, row.identityKey)
            && s'.subs.Keys == {row.id} && s'.subs[row.id].BoundTo(g, row.identityKey)
            && s'.subs[row.id].releasedAt.None?
            && s'.subs[row.id].status == Stored(Says(g, SubActive, until, "a", "").v.status)
  {
  }

  /** Then the receipt, renewed into another tier, pays for g. */
  lemma MovedRun(cfg: Config, h: string, g: string, key: string, store: string)
    returns (states: seq<Paid>, steps: seq<PaidStep>)
    requires PaidName(cfg, h) && PaidName(cfg, g) && store in cfg.verifiers
    requires Handles.Skeleton(h) != Handles.Skeleton(g)
    ensures IsListedRun(cfg, states, steps) && |steps| == 3
    ensures var row, answer := Bought(h, key, store, 10 * MS), Says(g, SubActive, SweepTime(cfg) + 1000 * MS, "a", "");
            && row.id in states[1].subs && states[1].subs[row.id] == row
            && steps[2].Put? && steps[2].answer == answer
            && states[3].table.Keys == {h, g} && !states[3].table[h].Active() && StillHeld(states[3].table, g, key)
            && states[3].subs.Keys == {row.id} && states[3].subs[row.id].BoundTo(g, key)
            && states[3].subs[row.id].releasedAt.None? && states[3].subs[row.id].status == Stored(answer.v.status)
  {
    var now, row := SweepTime(cfg), Bought(h, key, store, 10 * MS);
    states, steps := PartedRun(cfg, h, key, store);
    MovesToFreeHandle(cfg, states[2], row, g, now + 1000 * MS, now);
    var s3;
    states, steps, s3 := Then(cfg, states, steps, Buy(g, key, store, now + 1000 * MS, now));
  }

  /** A turn on the old copy of a row that has moved to another tier's handle marks it wrong_tier, and done. */
  lemma MisfitTurnMarksRow(cfg: Config, s: Paid, row: Subscription, answer: Answer, now: int)
    requires s.subs.Keys == {row.id} && row.store in cfg.verifiers
    requires row.handle in s.table && !s.table[row.handle].Active()
    requires answer.Vouched? && answer.v.status.tier != Handles.Tier(row.handle)
    requires row.status.expiresAt < now - cfg.grace
    ensures var s' := NextPaid(cfg, s, Turn(Item(row, answer, now, now), now));
            && s'.table == s.table && s'.subs.Keys == {row.id} && s'.subs[row.id].handle == s.subs[row.id].handle
            && s'.subs[row.id].releasedAt.Some? && s'.subs[row.id].status.state.SubWrongTier?
            && s'.subs[row.id].status.tier == answer.v.status.tier
  {
  }

  /** What it means for the held handle that its only row is marked wrong_tier, and done. */
  lemma OnlyRowSpoilt(cfg: Config, s: Paid, after: Paid, id: string, h: string, g: string, key: string)
    requires PaidName(cfg, g) && s.table.Keys == {h, g} && StillHeld(s.table, g, key) && !s.table[h].Active()
    requires after.table == s.table && h != g
    requires s.subs.Keys == after.subs.Keys == {id} && s.subs[id].BoundTo(g, key) && after.subs[id].handle == g
    requires s.subs[id].releasedAt.None? && after.subs[id].releasedAt.Some?
    requires s.subs[id].status.tier == after.subs[id].status.tier == Handles.Tier(g)
    requires s.subs[id].status.state.SubActive? && after.subs[id].status.state.SubWrongTier?
    ensures PaidCover.Covered(cfg.words, s) && !PaidCover.Covered(cfg.words, after)
    ensures PaidTiers.TiersMarked(s.subs) && !PaidTiers.TiersMarked(after.subs)
    ensures HeldPaid(cfg.words, after.table, g, key)
  {
    assert PaidCover.Covers(s.subs, id, g, key);
    assert HeldPaid(cfg.words, after.table, g, key);
    assert !PaidTiers.TierMarked(after.subs[id]);
  }

  /**
   The subscriber gives the handle up after its row was listed, and takes another one on the same receipt, renewed
   into the other handle's tier. The store then repeats its word to the sweep, which takes it for a crossgrade of the
   old handle: the row now paying for the new one is marked wrong_tier, though it fits, and done, though it is active.
   */
  lemma ReboundRowHidesHandle(cfg: Config, h: string, g: string, key: string, store: string)
    returns (states: seq<Paid>, steps: seq<PaidStep>)
    requires PaidName(cfg, h) && PaidName(cfg, g) && store in cfg.verifiers
    requires Handles.Skeleton(h) != Handles.Skeleton(g) && Handles.Tier(h) != Handles.Tier(g)
    ensures |steps| == 4 && IsListedRun(cfg, states, steps) && steps[2].Put? && steps[3].Turn?
    ensures steps[2].answer == steps[3].item.answer
    ensures PaidCover.Covered(cfg.words, states[3]) && !PaidCover.Covered(cfg.words, states[4])
    ensures PaidTiers.TiersMarked(states[3].subs) && !PaidTiers.TiersMarked(states[4].subs)
    ensures HeldPaid(cfg.words, states[4].table, g, key)
  {
    var now, row := SweepTime(cfg), Bought(h, key, store, 10 * MS);
    var answer := Says(g, SubActive, now + 1000 * MS, "a", "");
    states, steps := MovedRun(cfg, h, g, key, store);
    var turn := Turn(Item(row, answer, now, now), now);
    assert Lists(cfg, states[1], turn);
    MisfitTurnMarksRow(cfg, states[3], row, answer, now);
    var s4;
    states, steps, s4 := Then(cfg, states, steps, turn);
    OnlyRowSpoilt(cfg, states[3], s4, row.id, h, g, key);
  }
}
