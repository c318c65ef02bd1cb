/** What a whole sweep may release, what it must leave alone, and what its count means. */
module PaidSweep {
  import opened Wrappers
  import opened Registry
  import Handles
  import opened StringOrder
  import opened Subscriptions
  import opened PaidRuns
  import PaidTiers

  predicate ActiveIn(t: Table, h: string) { h in t && t[h].Active() }

  /** The row's status as its turn judges it: what the store now says, or what was listed if the store forgot it. */
  function Judged(item: Item): Status {
    if item.answer.Vouched? then Fitted(item.sub.handle, item.sub.status.expiresAt, item.answer.v.status)
    else item.sub.status
  }

  /** The grounds on which a turn may release handle h out of state s. */
  ghost predicate Grounds(cfg: Config, s: Paid, item: Item, now: int, h: string) {
    && item.sub.handle == h && item.sub.store in cfg.verifiers && !item.answer.Unavailable?
    && HasLapsed(Judged(item), now, cfg.grace)
    && StillHeld(s.table, h, item.sub.identityKey)
    && forall id | id in s.subs :: !PaysToo(s.subs, item.sub, id, now)
  }

  lemma RefreshLeavesOthers(cfg: Config, subs: Subs, sub: Subscription, answer: Answer, clock: int, now: int)
    requires IdsOk(subs) && sub.id in subs
    ensures var (outcome, after, sub') := Refresh(cfg, subs, sub, answer, clock);
            && after.Keys == subs.Keys && IdsOk(after) && sub'.id == sub.id && sub'.BoundTo(sub.handle, sub.identityKey)
            && (outcome.RefreshFailed? <==> sub.store !in cfg.verifiers || answer.Unavailable?)
            && (forall id :: PaysToo(after, sub', id, now) <==> PaysToo(subs, sub, id, now))
  {
  }

  /** A turn releases its handle exactly when it has grounds to, and touches no other handle. */
  lemma TurnReleases(cfg: Config, s: Paid, item: Item, now: int)
    requires Inv(s.table) && IdsOk(s.subs) && item.sub.id in s.subs
    ensures var (released, s') := SweepOne(cfg, s, item, now);
            && (released <==> Grounds(cfg, s, item, now, item.sub.handle))
            && (released ==> ActiveIn(s.table, item.sub.handle) && !ActiveIn(s'.table, item.sub.handle))
            && (forall h | h in s.table && !(released && h == item.sub.handle) ::
                  h in s'.table && s'.table[h] == s.table[h])
            && s'.table.Keys == s.table.Keys && s'.subs.Keys == s.subs.Keys && Inv(s'.table) && IdsOk(s'.subs)
  {
    RefreshLeavesOthers(cfg, s.subs, item.sub, item.answer, item.clock, now);
    var sub := Refresh(cfg, s.subs, item.sub, item.answer, item.clock).2;
    ReleaseTableKeepsInv(s.table, PinRelease(LapseRelease(sub, now)), item.ts);
  }

  /** A turn is done with its row exactly when the row has lapsed; until then the next sweep comes back to it. */
  lemma TurnMarksLapsedRows(cfg: Config, s: Paid, item: Item, now: int)
    requires item.sub.id in s.subs
    ensures var subs := SweepOne(cfg, s, item, now).1.subs;
            item.sub.id in subs
            && (subs[item.sub.id].releasedAt.Some? <==>
                  || s.subs[item.sub.id].releasedAt.Some?
                  || (item.sub.store in cfg.verifiers && !item.answer.Unavailable?
                        && HasLapsed(Judged(item), now, cfg.grace)))
  {
  }

  // --- which handles -------------------------------------------------------------------

  /** Turn k had grounds to release h. */
  ghost predicate GroundsAt(cfg: Config, s: Paid, items: seq<Item>, now: int, k: nat, h: string)
    requires k < |items|
  {
    Grounds(cfg, Sweep(cfg, s, items[..k], now).1, items[k], now, h)
  }

  ghost predicate ItemsOnFile(s: Paid, items: seq<Item>) {
    forall k | 0 <= k < |items| :: items[k].sub.id in s.subs
  }

  lemma {:induction false} SweepKeepsInv(cfg: Config, s: Paid, items: seq<Item>, now: int)
    requires Inv(s.table) && IdsOk(s.subs) && ItemsOnFile(s, items)
    ensures var s' := Sweep(cfg, s, items, now).1; Inv(s'.table) && IdsOk(s'.subs) && s'.subs.Keys == s.subs.Keys
    decreases |items|
  {
    if items != [] {
      SweepKeepsInv(cfg, s, items[..|items| - 1], now);
      TurnReleases(cfg, Sweep(cfg, s, items[..|items| - 1], now).1, items[|items| - 1], now);
    }
  }

  /**
   A handle a sweep releases had lapsed, was still its subscriber's, and was paid for by no other row; all else stays.
   */
  lemma {:induction false} SweepReleasesOnlyLapsed(cfg: Config, s: Paid, items: seq<Item>, now: int, h: string)
    requires Inv(s.table) && IdsOk(s.subs) && ItemsOnFile(s, items) && h in s.table
    ensures var s' := Sweep(cfg, s, items, now).1;
            && h in s'.table
            && (s'.table[h] == s.table[h] || (ActiveIn(s.table, h) && !ActiveIn(s'.table, h)))
            && (s'.table[h] != s.table[h] ==> exists k :: 0 <= k < |items| && GroundsAt(cfg, s, items, now, k, h))
    decreases |items|
  {
    if items != [] {
      var n := |items| - 1;
      SweepReleasesOnlyLapsed(cfg, s, items[..n], now, h);
      SweepKeepsInv(cfg, s, items[..n], now);
      var before := Sweep(cfg, s, items[..n], now).1;
      TurnReleases(cfg, before, items[n], now);
      if before.table[h] != s.table[h] {
        var k :| 0 <= k < n && GroundsAt(cfg, s, items[..n], now, k, h);
        assert items[..n][..k] == items[..k];
        assert GroundsAt(cfg, s, items, now, k, h);
      } else if Sweep(cfg, s, items, now).1.table[h] != s.table[h] {
        assert GroundsAt(cfg, s, items, now, n, h);
      }
    }
  }

  // --- a batch as the sweep lists it -----------------------------------------------------

  /** The item is the row as it is on file. */
  predicate AsOnFile(subs: Subs, item: Item) { item.sub.id in subs && subs[item.sub.id] == item.sub }

  /** Every item is a row as it is on file, and no two are the same row. */
  ghost predicate ListedBatch(subs: Subs, items: seq<Item>) {
    && (forall k | 0 <= k < |items| :: AsOnFile(subs, items[k]))
    && (forall i, j | 0 <= i < j < |items| :: items[i].sub.id != items[j].sub.id)
  }

  lemma ListingIsDistinct(subs: Subs, before: int, limit: nat, list: seq<Subscription>)
    requires IsListing(subs, before, limit, list)
    ensures forall i, j | 0 <= i < j < |list| :: list[i].id != list[j].id
  {
    forall i, j | 0 <= i < j < |list| ensures list[i].id != list[j].id {
      assert ComesBefore(list[i], list[j]);
      LessIsTotal(list[i].id, list[j].id);
    }
  }

  lemma ListingIsBatch(subs: Subs, before: int, limit: nat, list: seq<Subscription>, replies: nat -> Reply)
    requires IsListing(subs, before, limit, list)
    ensures ListedBatch(subs, Items(list, replies))
  {
    ListingIsDistinct(subs, before, limit, list);
  }

  lemma TurnLeavesOtherRows(cfg: Config, s: Paid, item: Item, now: int, id: string)
    requires id in s.subs && id != item.sub.id
    ensures var subs := SweepOne(cfg, s, item, now).1.subs; id in subs && subs[id] == s.subs[id]
  {
  }

  /** Turns on other rows leave a row as it is. */
  lemma {:induction false} OthersLeaveRow(cfg: Config, s: Paid, items: seq<Item>, now: int, id: string)
    requires id in s.subs && forall k | 0 <= k < |items| :: items[k].sub.id != id
    ensures var subs := Sweep(cfg, s, items, now).1.subs; id in subs && subs[id] == s.subs[id]
    decreases |items|
  {
    if items != [] {
      var n := |items| - 1;
      OthersLeaveRow(cfg, s, items[..n], now, id);
      TurnLeavesOtherRows(cfg, Sweep(cfg, s, items[..n], now).1, items[n], now, id);
    }
  }

  /** So in a batch listed from the table each turn finds its row as it was listed. */
  lemma TurnsFindTheirRows(cfg: Config, s: Paid, items: seq<Item>, now: int, k: nat)
    requires ListedBatch(s.subs, items) && k < |items|
    ensures AsOnFile(Sweep(cfg, s, items[..k], now).1.subs, items[k])
  {
    OthersLeaveRow(cfg, s, items[..k], now, items[k].sub.id);
  }

  /** Turn k released h, on the strength of its row as it was on file then; and the row is lapsed and done. */
  ghost predicate ReleasedRightly(cfg: Config, s: Paid, items: seq<Item>, now: int, k: nat, h: string, after: Subs)
    requires k < |items|
  {
    var before, id := Sweep(cfg, s, items[..k], now).1, items[k].sub.id;
    && AsOnFile(before.subs, items[k])
    && Grounds(cfg, before, items[k], now, h)
    && id in after && HasLapsed(after[id].status, now, cfg.grace) && after[id].releasedAt.Some?
  }

  /** After a turn on grounds its row is on file as lapsed and done. */
  lemma GroundsMarkRow(cfg: Config, s: Paid, item: Item, now: int, h: string)
    requires AsOnFile(s.subs, item) && Grounds(cfg, s, item, now, h)
    ensures var subs, id := SweepOne(cfg, s, item, now).1.subs, item.sub.id;
            id in subs && HasLapsed(subs[id].status, now, cfg.grace) && subs[id].releasedAt.Some?
  {
  }

  lemma {:induction false} LaterTurnsLeaveRow(cfg: Config, s: Paid, items: seq<Item>, now: int, k: nat, id: string)
    requires k <= |items| && id in Sweep(cfg, s, items[..k], now).1.subs
    requires forall i | k <= i < |items| :: items[i].sub.id != id
    ensures var subs := Sweep(cfg, s, items, now).1.subs;
            id in subs && subs[id] == Sweep(cfg, s, items[..k], now).1.subs[id]
    decreases |items|
  {
    if k == |items| {
      assert items[..k] == items;
    } else {
      var n := |items| - 1;
      assert items[..n][..k] == items[..k];
      LaterTurnsLeaveRow(cfg, s, items[..n], now, k, id);
      TurnLeavesOtherRows(cfg, Sweep(cfg, s, items[..n], now).1, items[n], now, id);
    }
  }

  /** A turn of a listed batch that had grounds released its handle rightly. */
  lemma GroundsAreRight(cfg: Config, s: Paid, items: seq<Item>, now: int, k: nat, h: string)
    requires ListedBatch(s.subs, items) && k < |items| && GroundsAt(cfg, s, items, now, k, h)
    ensures ReleasedRightly(cfg, s, items, now, k, h, Sweep(cfg, s, items, now).1.subs)
  {
    TurnsFindTheirRows(cfg, s, items, now, k);
    GroundsMarkRow(cfg, Sweep(cfg, s, items[..k], now).1, items[k], now, h);
    assert items[..k + 1][..k] == items[..k] && items[..k + 1][k] == items[k];
    LaterTurnsLeaveRow(cfg, s, items, now, k + 1, items[k].sub.id);
  }

  /**
   A handle released by a sweep over a batch as listed had lapsed by the row on file: by the status the store now
   gave that row, or, where the store had forgotten it, by the status on file.
   */
  lemma ListedSweepReleasesOnlyLapsed(cfg: Config, s: Paid, items: seq<Item>, now: int, h: string)
    requires Inv(s.table) && IdsOk(s.subs) && ListedBatch(s.subs, items) && h in s.table
    ensures var s' := Sweep(cfg, s, items, now).1;
            && h in s'.table
            && (s'.table[h] != s.table[h] ==>
                  exists k :: 0 <= k < |items| && ReleasedRightly(cfg, s, items, now, k, h, s'.subs))
  {
    SweepReleasesOnlyLapsed(cfg, s, items, now, h);
    var s' := Sweep(cfg, s, items, now).1;
    if s'.table[h] != s.table[h] {
      var k :| 0 <= k < |items| && GroundsAt(cfg, s, items, now, k, h);
      GroundsAreRight(cfg, s, items, now, k, h);
    }
  }

  // --- a turn on a row that moved since it was listed ----------------------------------------

  /** Where the store has forgotten the row, the turn takes the listed status for the one on file. */
  ghost predicate CanReleaseEntitled(cfg: Config, s: Paid, sub: Subscription, now: int) {
    && sub.store in cfg.verifiers && HasLapsed(sub.status, now, cfg.grace)
    && StillHeld(s.table, sub.handle, sub.identityKey) && !PaidByAnother(s.subs, sub, now)
    && sub.id in s.subs && Entitled(s.subs[sub.id].status, now)
  }

  /**
   Whatever the store answers, a turn releases only for a row that is not entitled on file, exactly when it cannot.
   */
  lemma TurnSparesEntitledIff(cfg: Config, s: Paid, sub: Subscription, now: int, clock: int, ts: int)
    requires Inv(s.table) && IdsOk(s.subs) && sub.id in s.subs
    ensures (forall a: Answer | FromStore(a) ::
               var (released, after) := SweepOne(cfg, s, Item(sub, a, clock, ts), now);
               released ==> !Entitled(after.subs[sub.id].status, now))
            <==> !CanReleaseEntitled(cfg, s, sub, now)
  {
    if CanReleaseEntitled(cfg, s, sub, now) {
      TurnReleases(cfg, s, Item(sub, Invalid, clock, ts), now);
      assert FromStore(Invalid);
      assert SweepOne(cfg, s, Item(sub, Invalid, clock, ts), now).0;
    } else {
      forall a: Answer | FromStore(a)
        ensures var (released, after) := SweepOne(cfg, s, Item(sub, a, clock, ts), now);
                released ==> !Entitled(after.subs[sub.id].status, now)
      {
        TurnReleases(cfg, s, Item(sub, a, clock, ts), now);
      }
    }
  }

  // --- the grace period of the other rows ------------------------------------------------------

  /** Row id, other than sub's, is of sub's key and handle, fits it, and is entitled or still within its grace. */
  predicate InGraceToo(subs: Subs, sub: Subscription, id: string, now: int, grace: int) {
    && id in subs && id != sub.id
    && subs[id].BoundTo(sub.handle, sub.identityKey)
    && subs[id].status.tier == Handles.Tier(sub.handle)
    && !HasLapsed(subs[id].status, now, grace)
  }

  ghost predicate KeptByAnother(subs: Subs, sub: Subscription, now: int, grace: int) {
    exists id :: id in subs && InGraceToo(subs, sub, id, now, grace)
  }

  /** Only an entitled row holds up a release: one that has ended but is within its grace does not. */
  ghost predicate CanCutGrace(cfg: Config, s: Paid, sub: Subscription, now: int) {
    && sub.store in cfg.verifiers && StillHeld(s.table, sub.handle, sub.identityKey)
    && KeptByAnother(s.subs, sub, now, cfg.grace) && !PaidByAnother(s.subs, sub, now)
  }

  /**
   Whatever the store answers, a turn releases no handle another row of its key is in grace for, exactly when it
   cannot.
   */
  lemma TurnRespectsGraceIff(cfg: Config, s: Paid, sub: Subscription, now: int, clock: int, ts: int)
    requires Inv(s.table) && IdsOk(s.subs) && sub.id in s.subs
    ensures (forall a: Answer | FromStore(a) ::
               SweepOne(cfg, s, Item(sub, a, clock, ts), now).0 ==> !KeptByAnother(s.subs, sub, now, cfg.grace))
            <==> !CanCutGrace(cfg, s, sub, now)
  {
    if CanCutGrace(cfg, s, sub, now) {
      var at := now - cfg.grace - NANOS_PER_MILLI;
      var a := Vouched(PaidTiers.LongExpired(Handles.Tier(sub.handle), at));
      TurnReleases(cfg, s, Item(sub, a, clock, ts), now);
      assert FromStore(a) && HasLapsed(Judged(Item(sub, a, clock, ts)), now, cfg.grace);
      assert SweepOne(cfg, s, Item(sub, a, clock, ts), now).0;
    } else {
      forall a: Answer | FromStore(a)
        ensures SweepOne(cfg, s, Item(sub, a, clock, ts), now).0 ==> !KeptByAnother(s.subs, sub, now, cfg.grace)
      {
        TurnReleases(cfg, s, Item(sub, a, clock, ts), now);
      }
    }
  }

  /**
   Where wrong_tier marks exactly the misfits, the grounds mean that no other row of the key on the handle is
   entitled.
   */
  lemma GroundsRuleOutEntitledRows(cfg: Config, s: Paid, item: Item, now: int, h: string, id: string)
    requires Grounds(cfg, s, item, now, h) && PaidTiers.TiersMarked(s.subs)
    requires id in s.subs && id != item.sub.id && s.subs[id].BoundTo(h, item.sub.identityKey)
    ensures !Entitled(s.subs[id].status, now)
  {
    assert PaidTiers.TierMarked(s.subs[id]) && !PaysToo(s.subs, item.sub, id, now);
  }

  /** A row nobody could be asked about, or that was not listed, is left exactly as it was. */
  lemma {:induction false} UnavailableRowsUntouched(cfg: Config, s: Paid, items: seq<Item>, now: int, id: string)
    requires id in s.subs
    requires forall k | 0 <= k < |items| && items[k].sub.id == id ::
               items[k].answer.Unavailable? || items[k].sub.store !in cfg.verifiers
    ensures var subs := Sweep(cfg, s, items, now).1.subs; id in subs && subs[id] == s.subs[id]
    decreases |items|
  {
    if items != [] {
      UnavailableRowsUntouched(cfg, s, items[..|items| - 1], now, id);
    }
  }

  // --- how many ------------------------------------------------------------------------

  function ActiveHandles(t: Table): set<string> {
    set h | h in t && t[h].Active()
  }

  lemma TurnOnActive(cfg: Config, s: Paid, item: Item, now: int)
    requires Inv(s.table) && IdsOk(s.subs) && item.sub.id in s.subs
    ensures var (released, s') := SweepOne(cfg, s, item, now);
            && (released ==> item.sub.handle in ActiveHandles(s.table))
            && ActiveHandles(s'.table) == ActiveHandles(s.table) - if released then {item.sub.handle} else {}
  {
    TurnReleases(cfg, s, item, now);
  }

  lemma CountOneMore(a: set<string>, b: set<string>, h: string)
    requires b <= a
    ensures h in b ==> |a - (b - {h})| == |a - b| + 1
  {
    if h in b { assert a - (b - {h}) == (a - b) + {h}; }
  }

  /** The count is the number of handles that were held before the sweep and released after it. */
  lemma {:induction false} SweepCountsReleases(cfg: Config, s: Paid, items: seq<Item>, now: int)
    requires Inv(s.table) && IdsOk(s.subs) && ItemsOnFile(s, items)
    ensures var (n, s') := Sweep(cfg, s, items, now);
            && ActiveHandles(s'.table) <= ActiveHandles(s.table)
            && n == |ActiveHandles(s.table) - ActiveHandles(s'.table)|
    decreases |items|
  {
    if items != [] {
      var k := |items| - 1;
      SweepCountsReleases(cfg, s, items[..k], now);
      SweepKeepsInv(cfg, s, items[..k], now);
      var (n, before) := Sweep(cfg, s, items[..k], now);
      TurnOnActive(cfg, before, items[k], now);
      var (released, after) := SweepOne(cfg, before, items[k], now);
      CountOneMore(ActiveHandles(s.table), ActiveHandles(before.table), items[k].sub.handle);
    }
  }
}
