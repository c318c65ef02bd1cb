/** What a sweep over its own listing comes to: whom it releases, what it leaves, and what can hold it up for ever. */
module SweepOutcome {
  import opened Wrappers
  import opened Registry
  import opened StringOrder
  import opened Subscriptions
  import opened PaidRuns
  import opened PaidCover
  import opened PaidSweep
  import PaidTiers
  import Sizes

  // --- who is released -------------------------------------------------------------------

  /** Handle h was held before the sweep and not after, and a turn released it rightly. */
  ghost predicate ReleasedByTurn(cfg: Config, s: Paid, items: seq<Item>, now: int, h: string, after: Paid) {
    && ActiveIn(s.table, h) && !ActiveIn(after.table, h)
    && exists k :: 0 <= k < |items| && ReleasedRightly(cfg, s, items, now, k, h, after.subs)
  }

  /** Every handle whose row changed was released rightly, and n is how many there are. */
  ghost predicate SweptRightly(cfg: Config, s: Paid, items: seq<Item>, now: int, n: nat, after: Paid) {
    && after.table.Keys == s.table.Keys
    && (forall h | h in s.table && after.table[h] != s.table[h] :: ReleasedByTurn(cfg, s, items, now, h, after))
    && n == |ActiveHandles(s.table) - ActiveHandles(after.table)|
  }

  /** A sweep over its own listing releases only what has lapsed by the row on file, and counts what it releases. */
  lemma ListingIsSweptRightly(cfg: Config, s: Paid, list: seq<Subscription>, replies: nat -> Reply, now: int)
    requires Inv(s.table) && IdsOk(s.subs) && IsListing(s.subs, now - cfg.grace, SWEEP_BATCH, list)
    ensures var (n, after) := Sweep(cfg, s, Items(list, replies), now);
            SweptRightly(cfg, s, Items(list, replies), now, n, after)
  {
    var items := Items(list, replies);
    var after := Sweep(cfg, s, items, now).1;
    ListingIsBatch(s.subs, now - cfg.grace, SWEEP_BATCH, list, replies);
    SweepCountsReleases(cfg, s, items, now);
    SweepKeepsHandles(cfg, s, items, now);
    forall h | h in s.table && after.table[h] != s.table[h] ensures ReleasedByTurn(cfg, s, items, now, h, after) {
      SweepReleasesOnlyLapsed(cfg, s, items, now, h);
      ListedSweepReleasesOnlyLapsed(cfg, s, items, now, h);
    }
  }

  lemma {:induction false} SweepKeepsHandles(cfg: Config, s: Paid, items: seq<Item>, now: int)
    requires Inv(s.table) && IdsOk(s.subs) && ItemsOnFile(s, items)
    ensures Sweep(cfg, s, items, now).1.table.Keys == s.table.Keys
    decreases |items|
  {
    if items != [] {
      var n := |items| - 1;
      SweepKeepsHandles(cfg, s, items[..n], now);
      SweepKeepsInv(cfg, s, items[..n], now);
      TurnReleases(cfg, Sweep(cfg, s, items[..n], now).1, items[n], now);
    }
  }

  lemma TurnMovesNoBinding(cfg: Config, s: Paid, item: Item, now: int)
    ensures var subs := SweepOne(cfg, s, item, now).1.subs;
            && subs.Keys == s.subs.Keys
            && forall id | id in subs :: subs[id].BoundTo(s.subs[id].handle, s.subs[id].identityKey)
  {
  }

  lemma {:induction false} SweepMovesNoBinding(cfg: Config, s: Paid, items: seq<Item>, now: int)
    ensures var subs := Sweep(cfg, s, items, now).1.subs;
            && subs.Keys == s.subs.Keys
            && forall id | id in subs :: subs[id].BoundTo(s.subs[id].handle, s.subs[id].identityKey)
    decreases |items|
  {
    if items != [] {
      var n := |items| - 1;
      SweepMovesNoBinding(cfg, s, items[..n], now);
      TurnMovesNoBinding(cfg, Sweep(cfg, s, items[..n], now).1, items[n], now);
    }
  }

  // --- what is left ------------------------------------------------------------------------

  /** Lapsed by the clock the listing goes by, which is cut to milliseconds. */
  predicate PastGrace(st: Status, now: int, grace: int) {
    !Entitled(st, now) && st.expiresAt < MsUTC(now - grace)
  }

  predicate Answered(cfg: Config, item: Item) {
    item.sub.store in cfg.verifiers && !item.answer.Unavailable?
  }

  /** A turn the store answers leaves its row either done or not past its grace. */
  lemma AnsweredTurnSettlesRow(cfg: Config, s: Paid, item: Item, now: int)
    requires AsOnFile(s.subs, item) && Answered(cfg, item) && cfg.grace >= 0
    ensures var subs := SweepOne(cfg, s, item, now).1.subs;
            item.sub.id in subs
            && (subs[item.sub.id].releasedAt.None? ==> !PastGrace(subs[item.sub.id].status, now, cfg.grace))
  {
    var st := Judged(item);
    PaidTiers.MsUTCMonotone(now - cfg.grace, now);
    if now <= st.expiresAt { PaidTiers.MsUTCMonotone(now, st.expiresAt); }
    if now - cfg.grace <= st.expiresAt { PaidTiers.MsUTCMonotone(now - cfg.grace, st.expiresAt); }
    PaidTiers.MsUTCMonotone(now - cfg.grace, now - cfg.grace);
  }

  predicate ItemsOf(list: seq<Subscription>, items: seq<Item>) {
    |items| == |list| && forall k | 0 <= k < |items| :: items[k].sub == list[k]
  }

  /** All that is unmarked and ended before the cutoff is among the items. */
  ghost predicate AllListed(subs: Subs, before: int, items: seq<Item>) {
    forall id | id in subs && LapsedBy(subs[id], before) :: exists k :: 0 <= k < |items| && items[k].sub.id == id
  }

  /** A row whose turn the store answers ends the sweep settled. */
  lemma ItemSettlesRow(cfg: Config, s: Paid, items: seq<Item>, now: int, k: nat)
    requires ListedBatch(s.subs, items) && k < |items| && Answered(cfg, items[k]) && cfg.grace >= 0
    ensures var subs, id := Sweep(cfg, s, items, now).1.subs, items[k].sub.id;
            id in subs && (subs[id].releasedAt.None? ==> !PastGrace(subs[id].status, now, cfg.grace))
  {
    TurnsFindTheirRows(cfg, s, items, now, k);
    AnsweredTurnSettlesRow(cfg, Sweep(cfg, s, items[..k], now).1, items[k], now);
    assert items[..k + 1][..k] == items[..k] && items[..k + 1][k] == items[k];
    LaterTurnsLeaveRow(cfg, s, items, now, k + 1, items[k].sub.id);
  }

  /** After a sweep that listed all there was and had every answer, no unmarked row is past its grace. */
  lemma SweepSettlesRows(cfg: Config, s: Paid, items: seq<Item>, now: int, id: string)
    requires ListedBatch(s.subs, items) && AllListed(s.subs, now - cfg.grace, items) && id in s.subs
    requires cfg.grace >= 0 && forall k | 0 <= k < |items| :: Answered(cfg, items[k])
    ensures var subs := Sweep(cfg, s, items, now).1.subs;
            id in subs && (subs[id].releasedAt.None? ==> !PastGrace(subs[id].status, now, cfg.grace))
  {
    if k :| 0 <= k < |items| && items[k].sub.id == id {
      ItemSettlesRow(cfg, s, items, now, k);
    } else {
      OthersLeaveRow(cfg, s, items, now, id);
    }
  }

  /** No row already done is entitled at now. */
  ghost predicate DoneRowsEnded(subs: Subs, now: int) {
    forall id | id in subs && subs[id].releasedAt.Some? :: !Entitled(subs[id].status, now)
  }

  /** The turn of an unmarked row as on file marks it only when it has ended. */
  lemma TurnMarksEndedRow(cfg: Config, s: Paid, item: Item, now: int)
    requires AsOnFile(s.subs, item) && item.sub.releasedAt.None? && IdsOk(s.subs) && DoneRowsEnded(s.subs, now)
    ensures DoneRowsEnded(SweepOne(cfg, s, item, now).1.subs, now)
  {
    TurnOnRows(cfg, s, item, now);
    var subs := SweepOne(cfg, s, item, now).1.subs;
    if subs[item.sub.id].releasedAt.Some? {
      assert HasLapsed(Judged(item), now, cfg.grace);
      assert subs[item.sub.id].status == Judged(item) || subs[item.sub.id].status == Stored(Judged(item));
    }
  }

  /** If no row already done has been renewed, a sweep over a listing keeps every held handle in sight. */
  lemma {:induction false} SweepKeepsCover(cfg: Config, s: Paid, items: seq<Item>, now: int)
    requires PaidInv(cfg.words, s) && Covered(cfg.words, s) && DoneRowsEnded(s.subs, now)
    requires ListedBatch(s.subs, items) && forall k | 0 <= k < |items| :: items[k].sub.releasedAt.None?
    ensures var after := Sweep(cfg, s, items, now).1;
            PaidInv(cfg.words, after) && Covered(cfg.words, after) && DoneRowsEnded(after.subs, now)
    decreases |items|
  {
    if items != [] {
      var n := |items| - 1;
      var before := Sweep(cfg, s, items[..n], now).1;
      SweepKeepsCover(cfg, s, items[..n], now);
      TurnsFindTheirRows(cfg, s, items, now, n);
      TurnKeepsPaidInv(cfg, before, items[n], now);
      TurnKeepsCover(cfg, before, items[n], now);
      TurnMarksEndedRow(cfg, before, items[n], now);
    }
  }

  /** Row id keeps the handle in sight, and is not past its grace. */
  predicate PaidUp(subs: Subs, id: string, h: string, key: string, now: int, grace: int) {
    Covers(subs, id, h, key) && !PastGrace(subs[id].status, now, grace)
  }

  lemma ListingListsAll(subs: Subs, before: int, list: seq<Subscription>, items: seq<Item>)
    requires ItemsOf(list, items) && IdsOk(subs)
    requires forall id | id in subs && LapsedBy(subs[id], before) :: subs[id] in list
    ensures AllListed(subs, before, items)
  {
    forall id | id in subs && LapsedBy(subs[id], before) ensures exists k :: 0 <= k < |items| && items[k].sub.id == id {
      var k :| 0 <= k < |list| && list[k] == subs[id];
      assert items[k].sub.id == id;
    }
  }

  /** Every paid handle held is held by an unmarked row that is entitled or within its grace. */
  ghost predicate AllPaidUp(cfg: Config, s: Paid, now: int) {
    forall h, key | HeldPaid(cfg.words, s.table, h, key) :: exists id :: PaidUp(s.subs, id, h, key, now, cfg.grace)
  }

  lemma SettledIsPaidUp(cfg: Config, s: Paid, now: int)
    requires Covered(cfg.words, s)
    requires forall id | id in s.subs && s.subs[id].releasedAt.None? :: !PastGrace(s.subs[id].status, now, cfg.grace)
    ensures AllPaidUp(cfg, s, now)
  {
    forall h, key | HeldPaid(cfg.words, s.table, h, key)
      ensures exists id :: PaidUp(s.subs, id, h, key, now, cfg.grace)
    {
      var id :| Covers(s.subs, id, h, key);
      assert PaidUp(s.subs, id, h, key, now, cfg.grace);
    }
  }

  lemma BatchLeavesOnlyPaidUp(cfg: Config, s: Paid, items: seq<Item>, now: int)
    requires PaidInv(cfg.words, s) && Covered(cfg.words, s) && DoneRowsEnded(s.subs, now) && cfg.grace >= 0
    requires ListedBatch(s.subs, items) && AllListed(s.subs, now - cfg.grace, items)
    requires forall k | 0 <= k < |items| :: items[k].sub.releasedAt.None? && Answered(cfg, items[k])
    ensures AllPaidUp(cfg, Sweep(cfg, s, items, now).1, now)
  {
    var after := Sweep(cfg, s, items, now).1;
    SweepKeepsCover(cfg, s, items, now);
    SweepMovesNoBinding(cfg, s, items, now);
    forall id | id in after.subs && after.subs[id].releasedAt.None?
      ensures !PastGrace(after.subs[id].status, now, cfg.grace)
    {
      SweepSettlesRows(cfg, s, items, now, id);
    }
    SettledIsPaidUp(cfg, after, now);
  }

  /**
   Where no row already done has been renewed, a sweep that lists all there is and has every answer leaves no paid
   handle held but by an unmarked row that is entitled or within its grace: what had lapsed is released.
   */
  lemma SweepLeavesOnlyPaidUp(cfg: Config, s: Paid, list: seq<Subscription>, replies: nat -> Reply, now: int)
    requires PaidInv(cfg.words, s) && Covered(cfg.words, s) && DoneRowsEnded(s.subs, now) && cfg.grace >= 0
    requires IsListing(s.subs, now - cfg.grace, SWEEP_BATCH, list)
    requires forall id | id in s.subs && LapsedBy(s.subs[id], now - cfg.grace) :: s.subs[id] in list
    requires forall k: nat | k < |list| :: list[k].store in cfg.verifiers && !replies(k).answer.Unavailable?
    ensures AllPaidUp(cfg, Sweep(cfg, s, Items(list, replies), now).1, now)
  {
    ListingIsBatch(s.subs, now - cfg.grace, SWEEP_BATCH, list, replies);
    ListingListsAll(s.subs, now - cfg.grace, list, Items(list, replies));
    BatchLeavesOnlyPaidUp(cfg, s, Items(list, replies), now);
  }

  // --- what can keep the sweep from getting on ------------------------------------------------

  /** Row id is due, and at least a batch of other due rows come before it. */
  ghost predicate Starved(subs: Subs, stuck: set<string>, id: string, before: int) {
    && stuck <= subs.Keys && id in subs && id !in stuck && |stuck| >= SWEEP_BATCH
    && LapsedBy(subs[id], before)
    && forall x | x in stuck :: LapsedBy(subs[x], before) && ComesBefore(subs[x], subs[id])
  }

  lemma {:induction false} IDsOfList(list: seq<Subscription>) returns (ids: set<string>)
    ensures |ids| <= |list| && forall k | 0 <= k < |list| :: list[k].id in ids
  {
    if list == [] {
      ids := {};
    } else {
      var n := |list| - 1;
      ids := IDsOfList(list[..n]);
      assert forall k | 0 <= k < n :: list[..n][k] == list[k];
      ids := ids + {list[n].id};
    }
  }

  /** The batch in front fills the listing, so the row is not on it. */
  lemma StarvedRowIsNotListed(subs: Subs, stuck: set<string>, id: string, before: int, list: seq<Subscription>)
    requires IdsOk(subs) && Starved(subs, stuck, id, before) && IsListing(subs, before, SWEEP_BATCH, list)
    ensures forall k | 0 <= k < |list| :: list[k].id != id
  {
    var ids := IDsOfList(list);
    assert |stuck + {id}| == |stuck| + 1;
    if k :| 0 <= k < |list| && list[k].id == id {
      forall x | x in stuck + {id} ensures x in ids {
        if subs[x] !in list {
          assert ComesBefore(list[k], subs[x]) && ComesBefore(subs[x], list[k]);
          LessIsTotal(list[k].id, subs[x].id);
        }
      }
      Sizes.SubsetIsNoLarger(stuck + {id}, ids);
    }
  }

  lemma DueLater(sub: Subscription, before: int, later: int)
    requires LapsedBy(sub, before) && before <= later
    ensures LapsedBy(sub, later)
  {
    PaidTiers.MsUTCMonotone(before, later);
  }

  /** Row id is the only one of the handle h. */
  predicate OnlyRowOf(subs: Subs, id: string, h: string) {
    forall x | x in subs && x != id :: subs[x].handle != h
  }

  /** A handle no item is bound to stays as it is. */
  lemma HandleNotListedStays(cfg: Config, s: Paid, items: seq<Item>, now: int, h: string)
    requires Inv(s.table) && IdsOk(s.subs) && ListedBatch(s.subs, items) && h in s.table
    requires forall k | 0 <= k < |items| :: items[k].sub.handle != h
    ensures var t := Sweep(cfg, s, items, now).1.table; h in t && t[h] == s.table[h]
  {
    SweepReleasesOnlyLapsed(cfg, s, items, now, h);
    assert forall k | 0 <= k < |items| :: !GroundsAt(cfg, s, items, now, k, h);
  }

  /** Handle h is held, and its only row is starved. */
  ghost predicate Stuck(s: Paid, stuck: set<string>, id: string, h: string, before: int) {
    && Inv(s.table) && IdsOk(s.subs) && Starved(s.subs, stuck, id, before)
    && ActiveIn(s.table, h) && OnlyRowOf(s.subs, id, h)
  }

  /** One sweep: when it starts, what it lists, and the items that makes with the stores' replies. */
  datatype Round = Round(list: seq<Subscription>, items: seq<Item>, now: int)

  /** The sweep lists what there is, no row of stuck that it lists is answered, and it leaves after. */
  ghost predicate IsRound(cfg: Config, s: Paid, stuck: set<string>, round: Round, after: Paid) {
    && IsListing(s.subs, round.now - cfg.grace, SWEEP_BATCH, round.list) && ItemsOf(round.list, round.items)
    && (forall k | 0 <= k < |round.items| && round.items[k].sub.id in stuck :: !Answered(cfg, round.items[k]))
    && after == Sweep(cfg, s, round.items, round.now).1
  }

  /** What a round lists is a batch, without the starved row. */
  lemma RoundIsBatch(cfg: Config, s: Paid, stuck: set<string>, id: string, round: Round, after: Paid)
    requires IdsOk(s.subs) && Starved(s.subs, stuck, id, round.now - cfg.grace) && IsRound(cfg, s, stuck, round, after)
    ensures ListedBatch(s.subs, round.items) && forall k | 0 <= k < |round.items| :: round.items[k].sub.id != id
  {
    ListingIsDistinct(s.subs, round.now - cfg.grace, SWEEP_BATCH, round.list);
    StarvedRowIsNotListed(s.subs, stuck, id, round.now - cfg.grace, round.list);
  }

  /** Rows that stay as they are go on starving the row behind them. */
  lemma StillStarved(subs: Subs, after: Subs, stuck: set<string>, id: string, before: int, later: int)
    requires Starved(subs, stuck, id, before) && before <= later && after.Keys == subs.Keys
    requires after[id] == subs[id] && forall x | x in stuck :: after[x] == subs[x]
    ensures Starved(after, stuck, id, later)
  {
    DueLater(subs[id], before, later);
    forall x | x in stuck ensures LapsedBy(after[x], later) {
      DueLater(subs[x], before, later);
    }
  }

  /** Rows in front that are not answered stay where they are, and so does the row behind them. */
  lemma StarvationLasts(cfg: Config, s: Paid, stuck: set<string>, id: string, round: Round, after: Paid, later: int)
    requires Inv(s.table) && IdsOk(s.subs) && Starved(s.subs, stuck, id, round.now - cfg.grace)
    requires IsRound(cfg, s, stuck, round, after) && round.now <= later
    ensures Inv(after.table) && IdsOk(after.subs) && Starved(after.subs, stuck, id, later - cfg.grace)
    ensures after.subs[id] == s.subs[id]
  {
    var items, now := round.items, round.now;
    RoundIsBatch(cfg, s, stuck, id, round, after);
    SweepKeepsInv(cfg, s, items, now);
    OthersLeaveRow(cfg, s, items, now, id);
    forall x | x in stuck ensures after.subs[x] == s.subs[x] {
      UnavailableRowsUntouched(cfg, s, items, now, x);
    }
    StillStarved(s.subs, after.subs, stuck, id, now - cfg.grace, later - cfg.grace);
  }

  /** And so does a handle whose only row that is. */
  lemma StarvedHandleStays(cfg: Config, s: Paid, stuck: set<string>, id: string, h: string, round: Round, after: Paid)
    requires Stuck(s, stuck, id, h, round.now - cfg.grace) && IsRound(cfg, s, stuck, round, after)
    ensures ActiveIn(after.table, h) && after.table[h] == s.table[h] && OnlyRowOf(after.subs, id, h)
  {
    RoundIsBatch(cfg, s, stuck, id, round, after);
    SweepMovesNoBinding(cfg, s, round.items, round.now);
    HandleNotListedStays(cfg, s, round.items, round.now, h);
  }

  lemma SweepPassesBy(cfg: Config, s: Paid, stuck: set<string>, id: string, h: string, round: Round, after: Paid,
                      later: int)
    requires Stuck(s, stuck, id, h, round.now - cfg.grace) && IsRound(cfg, s, stuck, round, after)
    requires round.now <= later
    ensures Stuck(after, stuck, id, h, later - cfg.grace)
    ensures after.subs[id] == s.subs[id] && after.table[h] == s.table[h]
  {
    StarvationLasts(cfg, s, stuck, id, round, after, later);
    StarvedHandleStays(cfg, s, stuck, id, h, round, after);
  }

  ghost predicate AreRounds(cfg: Config, states: seq<Paid>, rounds: seq<Round>, stuck: set<string>) {
    && |states| == |rounds| + 1
    && (forall i | 0 <= i < |rounds| :: IsRound(cfg, states[i], stuck, rounds[i], states[i + 1]))
    && (forall i | 0 < i < |rounds| :: rounds[i - 1].now <= rounds[i].now)
  }

  lemma RoundPassesBy(cfg: Config, states: seq<Paid>, rounds: seq<Round>, stuck: set<string>, id: string, h: string,
                      m: nat, n: nat)
    requires AreRounds(cfg, states, rounds, stuck) && n == m + 1 < |rounds|
    requires Stuck(states[m], stuck, id, h, rounds[m].now - cfg.grace)
    ensures Stuck(states[n], stuck, id, h, rounds[n].now - cfg.grace)
    ensures states[n].subs[id] == states[m].subs[id] && states[n].table[h] == states[m].table[h]
  {
    assert rounds[n - 1].now <= rounds[n].now && IsRound(cfg, states[m], stuck, rounds[m], states[m + 1]);
    SweepPassesBy(cfg, states[m], stuck, id, h, rounds[m], states[n], rounds[n].now);
  }

  /**
   A hundred due rows that are never answered keep every row due after them, and the handle it pays for, from ever
   being looked at, sweep after sweep.
   */
  lemma {:induction false} StarvedForever(cfg: Config, states: seq<Paid>, rounds: seq<Round>, stuck: set<string>,
                                          id: string, h: string, n: nat)
    requires AreRounds(cfg, states, rounds, stuck) && n < |rounds|
    requires Stuck(states[0], stuck, id, h, rounds[0].now - cfg.grace)
    ensures Stuck(states[n], stuck, id, h, rounds[n].now - cfg.grace)
    ensures states[n].subs[id] == states[0].subs[id] && states[n].table[h] == states[0].table[h]
  {
    if n > 0 {
      StarvedForever(cfg, states, rounds, stuck, id, h, n - 1);
      RoundPassesBy(cfg, states, rounds, stuck, id, h, n - 1, n);
    }
  }

  // --- a table in which that is so ---------------------------------------------------------------

  function Named(n: nat): string { seq(n, _ => 'x') }

  /** A due row of a store, its receipt n characters long. */
  function DueRow(store: string, n: nat, expiresAt: int): Subscription {
    Subscription(Named(n), store, Named(n), Named(n), "key", Status("", "", 1, SubExpired, expiresAt, ""), 0, 0, None)
  }

  /** n such rows. */
  function Crowd(store: string, n: nat): (subs: Subs)
    ensures |subs| == n && forall id | id in subs :: |id| < n && subs[id] == DueRow(store, |id|, 0) && subs[id].id == id
  {
    if n == 0 then map[]
    else
      var rest := Crowd(store, n - 1);
      var id := Named(n - 1);
      assert id !in rest;
      CrowdGrows(rest, id, DueRow(store, n - 1, 0));
      rest[id := DueRow(store, n - 1, 0)]
  }

  lemma CrowdGrows(rest: Subs, id: string, row: Subscription)
    requires id !in rest
    ensures |rest[id := row]| == |rest| + 1
  {
    assert rest[id := row].Keys == rest.Keys + {id};
    assert |rest[id := row]| == |rest[id := row].Keys| && |rest| == |rest.Keys|;
  }

  /** A hundred rows that ended earlier starve one that ended a millisecond after them. */
  lemma CrowdStarves(store: string, other: string, before: int)
    requires 2 * NANOS_PER_MILLI <= before
    ensures var row := DueRow(other, SWEEP_BATCH, NANOS_PER_MILLI);
            var subs := Crowd(store, SWEEP_BATCH)[row.id := row];
            IdsOk(subs) && Starved(subs, Crowd(store, SWEEP_BATCH).Keys, row.id, before)
  {
    var crowd := Crowd(store, SWEEP_BATCH);
    assert |crowd| == |crowd.Keys|;
    assert Named(SWEEP_BATCH) !in crowd;
    PaidTiers.MsUTCMonotone(2 * NANOS_PER_MILLI, before);
  }
}
