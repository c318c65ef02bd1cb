/** The paid-handle server: the handle registry and the subscription table, updated in place. */
module PaidServers {
  import opened Wrappers
  import opened Registry
  import Handles
  import opened HandleStores
  import opened StringOrder
  import opened Subscriptions
  import opened SweepOutcome

  class SubscriptionStore {
    var rows: Subs

    constructor ()
      ensures rows == map[]
    {
      rows := map[];
    }

    /** False is a race: the row was not there, or not bound, as the caller read it. */
    method BindSubscription(sub: Subscription, prev: Option<Subscription>) returns (ok: bool)
      modifies this
      ensures ok <==> if prev.None? then sub.id !in old(rows)
                      else sub.id in old(rows) && old(rows)[sub.id].BoundTo(prev.value.handle, prev.value.identityKey)
      ensures !ok ==> rows == old(rows)
      ensures ok ==>
                && OnlyRow(old(rows), rows, sub.id) && sub.id in rows
                && rows[sub.id].BoundTo(sub.handle, sub.identityKey) && rows[sub.id].releasedAt.None?
                && rows[sub.id].status == Stored(sub.status) && rows[sub.id].updatedAt == MsUTC(sub.updatedAt)
                && rows[sub.id].createdAt == (if prev.Some? then old(rows)[sub.id].createdAt else MsUTC(sub.createdAt))
      ensures rows == if ok then BindRow(old(rows), sub, prev).value else old(rows)
    {
      if prev.None? {
        if sub.id in rows { return false; }
        var row := sub.(status := Stored(sub.status), releasedAt := None);
        rows := rows[sub.id := row.(createdAt := MsUTC(sub.createdAt), updatedAt := MsUTC(sub.updatedAt))];
        return true;
      }
      if sub.id !in rows || !rows[sub.id].BoundTo(prev.value.handle, prev.value.identityKey) { return false; }
      var row := rows[sub.id].(status := Stored(sub.status), handle := sub.handle, identityKey := sub.identityKey);
      rows := rows[sub.id := row.(updatedAt := MsUTC(sub.updatedAt), releasedAt := None)];
      return true;
    }

    method UpdateSubscriptionStatus(id: string, st: Status, now: int) returns (ok: bool)
      modifies this
      ensures ok <==> id in old(rows)
      ensures rows == if ok then UpdateStatus(old(rows), id, st, now).value else old(rows)
    {
      if id !in rows { return false; }
      rows := rows[id := rows[id].(status := Stored(st), updatedAt := MsUTC(now))];
      return true;
    }

    method MarkSubscriptionReleased(id: string, at: int) returns (ok: bool)
      modifies this
      ensures ok <==> id in old(rows)
      ensures rows == if ok then MarkReleased(old(rows), id, at).value else old(rows)
    {
      if id !in rows { return false; }
      rows := rows[id := rows[id].(releasedAt := Some(MsUTC(at)), updatedAt := MsUTC(at))];
      return true;
    }

    /** The rows bound to handle, each once, in no particular order. */
    method ListSubscriptionsByHandle(handle: string) returns (list: seq<Subscription>)
      requires forall id | id in rows :: rows[id].id == id
      ensures forall sub | sub in list :: sub.handle == handle && sub.id in rows && rows[sub.id] == sub
      ensures forall id | id in rows && rows[id].handle == handle :: rows[id] in list
      ensures forall i, j | 0 <= i < j < |list| :: list[i].id != list[j].id
    {
      list := [];
      var ids := rows.Keys;
      while ids != {}
        invariant ids <= rows.Keys
        invariant forall sub | sub in list :: sub.handle == handle && sub.id in rows && rows[sub.id] == sub
        invariant forall k | 0 <= k < |list| :: list[k].id !in ids
        invariant forall i, j | 0 <= i < j < |list| :: list[i].id != list[j].id
        invariant forall id | id in rows && id !in ids && rows[id].handle == handle :: rows[id] in list
      {
        var id :| id in ids;
        ids := ids - {id};
        if rows[id].handle == handle { list := list + [rows[id]]; }
      }
    }

    /** The rows the sweep is to look at: asked for none, it gets none. */
    method ListLapsedSubscriptions(before: int, limit: int) returns (list: seq<Subscription>)
      requires forall id | id in rows :: rows[id].id == id
      ensures IsListing(rows, before, if limit > 0 then limit else 0, list)
    {
      list := [];
      if limit <= 0 { return; }
      var left := set id | id in rows && LapsedBy(rows[id], before);
      while left != {} && |list| < limit
        invariant |list| <= limit && left <= rows.Keys && forall id | id in left :: LapsedBy(rows[id], before)
        invariant forall k | 0 <= k < |list| :: OnList(rows, before, left, list[k])
        invariant forall i, j | 0 <= i < j < |list| :: ComesBefore(list[i], list[j])
        invariant forall id | id in rows && LapsedBy(rows[id], before) :: id in left || rows[id] in list
        decreases limit - |list|
      {
        FirstExists(rows, left);
        var first :| first in left && IsFirst(rows, left, first);
        list, left := list + [rows[first]], left - {first};
      }
    }
  }

  /** row is live and pays for what its predecessor, which v names, pays for; a misfit as long as that and no longer. */
  ghost predicate Succeeds(before: Subs, v: Verified, row: Subscription) {
    var id := SubscriptionID(GOOGLE_PLAY, v.linkedStoreID);
    && id in before && row.BoundTo(before[id].handle, before[id].identityKey) && row.releasedAt.None?
    && (if v.status.tier == Handles.Tier(row.handle) then row.status == Stored(v.status)
        else row.status.state.SubWrongTier? && row.status.expiresAt == MsUTC(before[id].status.expiresAt))
  }

  // --- picking the row that comes first ----------------------------------------------------

  /** sub is a lapsed row on file that comes before all that are left. */
  ghost predicate OnList(rows: Subs, before: int, left: set<string>, sub: Subscription)
    requires left <= rows.Keys
  {
    && sub.id in rows && rows[sub.id] == sub && LapsedBy(sub, before) && sub.id !in left
    && forall id | id in left :: ComesBefore(sub, rows[id])
  }

  predicate IsFirst(rows: Subs, ids: set<string>, first: string)
    requires ids <= rows.Keys
  {
    first in ids && forall id | id in ids && id != first :: ComesBefore(rows[first], rows[id])
  }

  lemma {:induction false} FirstExists(rows: Subs, ids: set<string>)
    requires ids <= rows.Keys && ids != {} && forall id | id in rows :: rows[id].id == id
    ensures exists first :: IsFirst(rows, ids, first)
  {
    var id :| id in ids;
    if ids == {id} {
      assert IsFirst(rows, ids, id);
    } else {
      var rest := ids - {id};
      FirstExists(rows, rest);
      var first :| IsFirst(rows, rest, first);
      LessIsTotal(first, id);
      if ComesBefore(rows[first], rows[id]) {
        assert IsFirst(rows, ids, first);
      } else {
        forall other | other in ids && other != id ensures ComesBefore(rows[id], rows[other]) {
          if other != first && Less(id, first) && Less(first, other) { LessIsTransitive(id, first, other); }
        }
        assert IsFirst(rows, ids, id);
      }
    }
  }

  class PaidServer {
    const cfg: Config
    const handles: HandleStore
    const subs: SubscriptionStore

    ghost predicate Valid() reads this, handles, subs {
      handles.Valid() && forall id | id in subs.rows :: subs.rows[id].id == id
    }

    ghost function State(): Paid reads this, handles, subs { Paid(handles.rows, subs.rows) }

    constructor (cfg: Config, handles: HandleStore, subs: SubscriptionStore)
      ensures this.cfg == cfg && this.handles == handles && this.subs == subs
    {
      this.cfg, this.handles, this.subs := cfg, handles, subs;
    }

    /** Reads, checks that the old handle is given up, and binds; a lost race reads again, three times in all. */
    method BindSubscription(store: string, v: Verified, handle: string, key: string, now: int)
      returns (outcome: BindOutcome)
      requires Valid()
      modifies subs
      ensures Valid()
      ensures (outcome, subs.rows) == Bind(old(State()), store, v, handle, key, now)
    {
      var sub := NewBinding(store, v, handle, key, now);
      outcome := BindRaced;
      var attempt := 0;
      while attempt < 3 && outcome.BindRaced?
        invariant attempt == 0 ==> outcome.BindRaced? && subs.rows == old(subs.rows)
        invariant attempt > 0 ==> (outcome, subs.rows) == Bind(old(State()), store, v, handle, key, now)
      {
        var cur := GetSubscription(subs.rows, sub.id);
        if cur.Some? && !cur.value.BoundTo(handle, key)
           && StillHeld(handles.rows, cur.value.handle, cur.value.identityKey)
        {
          outcome := PurchaseUsed;
        } else {
          var ok := subs.BindSubscription(sub, cur);
          if ok { outcome := Bound; }
        }
        attempt := attempt + 1;
      }
    }

    method RequirePurchase(handle: string, key: string, store: Option<string>, answer: Answer, now: int)
      returns (gate: Gate)
      requires Valid()
      modifies subs
      ensures Valid()
      ensures GateLaw(cfg, old(State()), handle, key, store, answer, now, gate, subs.rows)
      ensures (gate, subs.rows) == Subscriptions.RequirePurchase(cfg, old(State()), handle, key, store, answer, now)
    {
      GateKeepsLaw(cfg, State(), handle, key, store, answer, now);
      var free := Handles.ComputeIsGenerated(handle, cfg.words);
      if free { return Pass; }
      var rec := GetHandle(handles.rows, handle);
      if rec.Some? && rec.value.identityKey == Some(key) { return Pass; }
      if store.None? { return PurchaseRequired; }
      if store.value !in cfg.verifiers { return PurchaseInvalid; }
      match answer {
        case Invalid => return PurchaseInvalid;
        case Unavailable => return StoreUnavailable;
        case Vouched(v) =>
          if v.status.tier != Handles.Tier(handle) { return TierMismatch; }
          if !Entitled(v.status, now) { return PurchaseInactive; }
          var bound := BindSubscription(store.value, v, handle, key, now);
          return if bound.Bound? then Pass else UsedElsewhere;
      }
    }

    method PutHandle(p: Profile, store: Option<string>, answer: Answer, now: int, ts: int) returns (outcome: PutOutcome)
      requires Valid()
      modifies handles, subs
      ensures Valid()
      ensures outcome.Refused? || outcome.Unpaid? ==> State() == old(State())
      ensures outcome.Unpaid? ==>
                && !NeedsNoPurchase(cfg, old(State()), p.handle, p.identityKey)
                && (PurchaseFits(cfg, p.handle, store, answer, now) ==>
                      PaysElsewhere(old(State()), SubscriptionID(store.value, answer.v.storeID),
                                    p.handle, p.identityKey))
      ensures outcome.Claimed? && !Accepted(outcome.outcome) ==> handles.rows == old(handles.rows)
      ensures outcome.Claimed? && Accepted(outcome.outcome) ==>
                && StillHeld(handles.rows, p.handle, p.identityKey)
                && forall h | h != p.handle :: GetHandle(handles.rows, h) == GetHandle(old(handles.rows), h)
      ensures outcome.GivenUp? ==> subs.rows == old(subs.rows)
      ensures outcome.GivenUp? && !outcome.release.Applied? ==> handles.rows == old(handles.rows)
      ensures outcome == GivenUp(Applied) ==>
                && StillHeld(old(handles.rows), p.handle, p.identityKey)
                && !StillHeld(handles.rows, p.handle, p.identityKey)
                && forall h | h != p.handle :: GetHandle(handles.rows, h) == GetHandle(old(handles.rows), h)
      ensures BindingsOfHeldKept(old(handles.rows), old(subs.rows), subs.rows)
      ensures (outcome, State()) == Subscriptions.PutHandle(cfg, old(State()), p, store, answer, now, ts)
    {
      if p.released {
        var given := handles.ReleaseHandle(TombstoneOf(cfg, p, now), ts);
        return GivenUp(given);
      }
      var refused := Handles.Validate(p.handle);
      if refused.Some? { return Refused(refused.value); }
      var gate := RequirePurchase(p.handle, p.identityKey, store, answer, now);
      if !gate.Pass? { return Unpaid(gate); }
      var claimed := handles.ClaimHandle(ClaimOf(p, now), ts);
      return Claimed(claimed);
    }

    /** Records what the store says, in the table and in the caller's copy, which is returned. */
    method ApplyStatus(sub: Subscription, v: Verified, now: int) returns (ok: bool, sub': Subscription)
      modifies subs
      ensures ok <==> sub.id in old(subs.rows)
      ensures var st := Fitted(sub.handle, sub.status.expiresAt, v.status);
              && sub' == (if ok then sub.(status := st, updatedAt := now) else sub)
              && subs.rows == (if ok then UpdateStatus(old(subs.rows), sub.id, st, now).value else old(subs.rows))
    {
      var st := v.status;
      if st.tier != Handles.Tier(sub.handle) {
        st := st.(state := SubWrongTier);
        if sub.status.expiresAt < st.expiresAt {
          st := st.(expiresAt := sub.status.expiresAt);
        }
      }
      ok := subs.UpdateSubscriptionStatus(sub.id, st, now);
      sub' := if ok then sub.(status := st, updatedAt := now) else sub;
    }

    method Refresh(sub: Subscription, answer: Answer, now: int) returns (outcome: RefreshOutcome, sub': Subscription)
      modifies subs
      ensures outcome.Refreshed? <==> sub.store in cfg.verifiers && answer.Vouched? && sub.id in old(subs.rows)
      ensures outcome.StoreForgot? <==> sub.store in cfg.verifiers && answer.Invalid?
      ensures !outcome.Refreshed? ==> subs.rows == old(subs.rows) && sub' == sub
      ensures OnlyRow(old(subs.rows), subs.rows, sub.id) && BindingsKept(old(subs.rows), subs.rows)
      ensures outcome.Refreshed? ==>
                && subs.rows[sub.id].status == Stored(sub'.status)
                && sub' == sub.(status := sub'.status, updatedAt := now)
                && (answer.v.status.tier == Handles.Tier(sub.handle) ==> sub'.status == answer.v.status)
                && (answer.v.status.tier != Handles.Tier(sub.handle) ==>
                      sub'.status.state.SubWrongTier? && sub'.status.expiresAt <= sub.status.expiresAt)
      ensures (outcome, subs.rows, sub') == Subscriptions.Refresh(cfg, old(subs.rows), sub, answer, now)
    {
      if sub.store !in cfg.verifiers { return RefreshFailed, sub; }
      match answer {
        case Unavailable => return RefreshFailed, sub;
        case Invalid => return StoreForgot, sub;
        case Vouched(v) =>
          var ok;
          ok, sub' := ApplyStatus(sub, v, now);
          outcome := if ok then Refreshed else RefreshFailed;
      }
    }

    method Notify(store: string, storeID: string, answer: Answer, now: int)
      requires Valid()
      modifies subs
      ensures Valid()
      ensures OnlyRow(old(subs.rows), subs.rows, SubscriptionID(store, storeID))
      ensures BindingsKept(old(subs.rows), subs.rows)
      ensures SubscriptionID(store, storeID) in subs.rows && SubscriptionID(store, storeID) !in old(subs.rows) ==>
                && store == GOOGLE_PLAY && store in cfg.verifiers && answer.Vouched?
                && Succeeds(old(subs.rows), answer.v, subs.rows[SubscriptionID(store, storeID)])
      ensures subs.rows == Notification(cfg, old(subs.rows), store, storeID, answer, now)
    {
      var id := SubscriptionID(store, storeID);
      if id in subs.rows {
        var _, _ := Refresh(subs.rows[id], answer, now);
      } else if store == GOOGLE_PLAY {
        AdoptLinkedToken(storeID, answer, now);
      }
    }

    method AdoptLinkedToken(token: string, answer: Answer, now: int)
      requires Valid()
      modifies subs
      ensures Valid()
      ensures OnlyRow(old(subs.rows), subs.rows, SubscriptionID(GOOGLE_PLAY, token))
      ensures BindingsKept(old(subs.rows), subs.rows)
      ensures subs.rows != old(subs.rows) <==>
                && GOOGLE_PLAY in cfg.verifiers && answer.Vouched? && answer.v.linkedStoreID != ""
                && SubscriptionID(GOOGLE_PLAY, answer.v.linkedStoreID) in old(subs.rows)
                && SubscriptionID(GOOGLE_PLAY, token) !in old(subs.rows)
      ensures subs.rows != old(subs.rows) ==>
                && SubscriptionID(GOOGLE_PLAY, token) in subs.rows
                && Succeeds(old(subs.rows), answer.v, subs.rows[SubscriptionID(GOOGLE_PLAY, token)])
      ensures subs.rows == AdoptLinked(cfg, old(subs.rows), token, answer, now)
    {
      if GOOGLE_PLAY !in cfg.verifiers || !answer.Vouched? || answer.v.linkedStoreID == "" { return; }
      var predecessor := GetSubscription(subs.rows, SubscriptionID(GOOGLE_PLAY, answer.v.linkedStoreID));
      if predecessor.None? { return; }
      var sub := Adopted(predecessor.value, token, answer.v.status, now);
      var _ := subs.BindSubscription(sub, None);
    }

    method ReleaseLapsed(sub: Subscription, now: int, ts: int) returns (done: bool)
      requires Valid()
      modifies handles, subs
      ensures Valid()
      ensures (done, State()) == Subscriptions.ReleaseLapsed(old(State()), sub, now, ts)
    {
      var others := subs.ListSubscriptionsByHandle(sub.handle);
      var paid := false;
      for i := 0 to |others|
        invariant paid <==> exists k :: 0 <= k < i && PaysToo(subs.rows, sub, others[k].id, now)
      {
        var o := others[i];
        if o.id != sub.id && o.identityKey == sub.identityKey && o.status.tier == Handles.Tier(o.handle)
           && Entitled(o.status, now)
        {
          paid := true;
        }
      }
      assert paid <==> PaidByAnother(subs.rows, sub, now) by {
        if id :| id in subs.rows && PaysToo(subs.rows, sub, id, now) {
          assert subs.rows[id] in others;
          var k :| 0 <= k < |others| && others[k] == subs.rows[id];
          assert PaysToo(subs.rows, sub, others[k].id, now);
        }
      }
      var released := false;
      if !paid && StillHeld(handles.rows, sub.handle, sub.identityKey) {
        var outcome := handles.ReleaseHandle(LapseRelease(sub, now), ts);
        released := outcome.Applied?;
      }
      var marked := subs.MarkSubscriptionReleased(sub.id, now);
      return released && marked;
    }

    /** One listed row's turn: ask again, and release what has really lapsed. True if it released a handle. */
    method TakeTurn(item: Item, now: int) returns (done: bool)
      requires Valid()
      modifies handles, subs
      ensures Valid()
      ensures (done, State()) == SweepOne(cfg, old(State()), item, now)
    {
      var outcome, sub := Refresh(item.sub, item.answer, item.clock);
      if outcome.RefreshFailed? || !HasLapsed(sub.status, now, cfg.grace) { return false; }
      done := ReleaseLapsed(sub, now, item.ts);
    }

    /** Takes each listed row's turn, and counts the handles released. */
    method TakeTurns(items: seq<Item>, now: int) returns (released: nat)
      requires Valid()
      modifies handles, subs
      ensures Valid()
      ensures (released, State()) == Sweep(cfg, old(State()), items, now)
    {
      released := 0;
      for i := 0 to |items|
        invariant Valid()
        invariant (released, State()) == Sweep(cfg, old(State()), items[..i], now)
      {
        assert items[..i + 1][..i] == items[..i] && items[..i + 1][i] == items[i];
        var done := TakeTurn(items[i], now);
        if done { released := released + 1; }
      }
      assert items[..|items|] == items;
    }

    /** Lists what has lapsed, and takes each listed row's turn. */
    method SweepLapsedSubscriptions(replies: nat -> Reply, now: int) returns (released: nat)
      requires Valid()
      modifies handles, subs
      ensures Valid()
      ensures exists list :: IsListing(old(subs.rows), now - cfg.grace, SWEEP_BATCH, list)
                             && (released, State()) == Sweep(cfg, old(State()), Items(list, replies), now)
                             && SweptRightly(cfg, old(State()), Items(list, replies), now, released, State())
    {
      var list := subs.ListLapsedSubscriptions(now - cfg.grace, SWEEP_BATCH);
      ListingIsSweptRightly(cfg, State(), list, replies, now);
      released := TakeTurns(Items(list, replies), now);
    }
  }
}
