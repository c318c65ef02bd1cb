/**
 Paid handles: the subscription table beside the handle registry, and what each request,
 store notification and sweep item does to the two of them. A store's word is an input.
 */
module Subscriptions {
  import opened Wrappers
  import opened Registry
  import Handles
  import opened StringOrder

  datatype SubState =
    | SubActive | SubCanceled | SubGrace | SubOnHold | SubExpired | SubRevoked | SubPending | SubWrongTier

  datatype Status = Status(
    productID: string,
    basePlan: string,
    tier: int,
    state: SubState,
    expiresAt: int,
    environment: string)

  /** One store subscription and the handle it pays for. */
  datatype Subscription = Subscription(
    id: string,
    store: string,
    storeID: string,
    handle: string,
    identityKey: string,
    status: Status,
    createdAt: int,
    updatedAt: int,
    releasedAt: Option<int>)
  {
    predicate BoundTo(h: string, key: string) { handle == h && identityKey == key }
  }

  type Subs = map<string, Subscription>

  datatype Paid = Paid(table: Table, subs: Subs)

  datatype Verified = Verified(status: Status, storeID: string, linkedStoreID: string)

  /** What a store's verifier answers. */
  datatype Answer = Vouched(v: Verified) | Invalid | Unavailable

  /** The stores never report wrong_tier, and their products are of tiers 1 to 7. */
  predicate FromStore(a: Answer) {
    a.Vouched? ==> !a.v.status.state.SubWrongTier? && 1 <= a.v.status.tier <= Handles.TOP_TIER
  }

  /** verifiers names the stores that can be asked. */
  datatype Config = Config(words: Handles.Words, verifiers: set<string>, grace: int, cooldown: int)

  const GOOGLE_PLAY := "google-play"
  const RELEASED_BY_SUBSCRIPTION := "subscription-lapsed"

  function SubscriptionID(store: string, storeID: string): string { store + ":" + storeID }

  predicate Entitled(st: Status, now: int) {
    match st.state
    case SubActive | SubCanceled => now < st.expiresAt
    case SubGrace => true
    case _ => false
  }

  /** A status as the table stores it. */
  function Stored(st: Status): Status { st.(expiresAt := MsUTC(st.expiresAt)) }

  predicate StillHeld(t: Table, handle: string, key: string) {
    handle in t && t[handle].identityKey == Some(key)
  }

  // --- the subscription table's writes -------------------------------------------------

  datatype BindOutcome = Bound | PurchaseUsed | BindRaced

  /** Insert when there was no row; otherwise replace the row only while it is bound as prev was. */
  function BindRow(subs: Subs, sub: Subscription, prev: Option<Subscription>): Option<Subs> {
    if prev.None? then
      if sub.id in subs then None
      else Some(subs[sub.id := sub.(status := Stored(sub.status), createdAt := MsUTC(sub.createdAt),
                                    updatedAt := MsUTC(sub.updatedAt), releasedAt := None)])
    else if sub.id in subs && subs[sub.id].BoundTo(prev.value.handle, prev.value.identityKey) then
      Some(subs[sub.id := subs[sub.id].(status := Stored(sub.status), handle := sub.handle,
                                        identityKey := sub.identityKey,
                                        updatedAt := MsUTC(sub.updatedAt), releasedAt := None)])
    else None
  }

  function UpdateStatus(subs: Subs, id: string, st: Status, now: int): Option<Subs> {
    if id in subs then Some(subs[id := subs[id].(status := Stored(st), updatedAt := MsUTC(now))]) else None
  }

  function MarkReleased(subs: Subs, id: string, at: int): Option<Subs> {
    if id in subs then Some(subs[id := subs[id].(releasedAt := Some(MsUTC(at)), updatedAt := MsUTC(at))]) else None
  }

  function GetSubscription(subs: Subs, id: string): Option<Subscription> {
    if id in subs then Some(subs[id]) else None
  }

  // --- what changes in the table ----------------------------------------------------------

  /** No row goes, and none but row id changes or is new. */
  ghost predicate OnlyRow(before: Subs, after: Subs, id: string) {
    && before.Keys <= after.Keys <= before.Keys + {id}
    && forall i | i in before && i != id :: after[i] == before[i]
  }

  /** Every row keeps its handle, its key, its marker and its birth time. */
  ghost predicate BindingsKept(before: Subs, after: Subs) {
    forall id | id in before ::
      && id in after && after[id].BoundTo(before[id].handle, before[id].identityKey)
      && after[id].releasedAt == before[id].releasedAt && after[id].createdAt == before[id].createdAt
  }

  /** A row moves only off a handle its key no longer holds. */
  ghost predicate BindingsOfHeldKept(t: Table, before: Subs, after: Subs) {
    forall id | id in before && StillHeld(t, before[id].handle, before[id].identityKey) ::
      id in after && after[id].BoundTo(before[id].handle, before[id].identityKey)
  }

  // --- the sweep's listing ------------------------------------------------------------------

  const SWEEP_BATCH := 100

  predicate LapsedBy(sub: Subscription, before: int) {
    sub.status.expiresAt < MsUTC(before) && sub.releasedAt.None?
  }

  /** Earliest expiry first, and by id among equals. */
  predicate ComesBefore(a: Subscription, b: Subscription) {
    a.status.expiresAt < b.status.expiresAt || (a.status.expiresAt == b.status.expiresAt && Less(a.id, b.id))
  }

  /** list holds the first limit unmarked rows that ended before a moment, as they are on file, in order. */
  ghost predicate IsListing(subs: Subs, before: int, limit: nat, list: seq<Subscription>) {
    && |list| <= limit
    && (forall k | 0 <= k < |list| :: list[k].id in subs && subs[list[k].id] == list[k] && LapsedBy(list[k], before))
    && (forall i, j | 0 <= i < j < |list| :: ComesBefore(list[i], list[j]))
    && (forall id | id in subs && LapsedBy(subs[id], before) && subs[id] !in list ::
          |list| == limit && forall k | 0 <= k < |list| :: ComesBefore(list[k], subs[id]))
  }

  // --- binding a purchase to a claim ---------------------------------------------------

  /** The row already pays for another (handle, key), and that key still holds that handle. */
  predicate PaysElsewhere(s: Paid, id: string, handle: string, key: string) {
    && id in s.subs
    && !s.subs[id].BoundTo(handle, key)
    && StillHeld(s.table, s.subs[id].handle, s.subs[id].identityKey)
  }

  function NewBinding(store: string, v: Verified, handle: string, key: string, now: int): Subscription {
    Subscription(SubscriptionID(store, v.storeID), store, v.storeID, handle, key, v.status, now, now, None)
  }

  /** A subscription moves to another handle only once its key no longer holds the one it paid for. */
  function Bind(s: Paid, store: string, v: Verified, handle: string, key: string, now: int): (BindOutcome, Subs) {
    var sub := NewBinding(store, v, handle, key, now);
    if PaysElsewhere(s, sub.id, handle, key) then (PurchaseUsed, s.subs)
    else (Bound, BindRow(s.subs, sub, GetSubscription(s.subs, sub.id)).value)
  }

  /** An accepted store vouches for the purchase: the handle's tier, and entitled now. */
  predicate PurchaseFits(cfg: Config, handle: string, store: Option<string>, answer: Answer, now: int) {
    && store.Some? && store.value in cfg.verifiers && answer.Vouched?
    && answer.v.status.tier == Handles.Tier(handle) && Entitled(answer.v.status, now)
  }

  /** The claim needs no purchase: the app gives the handle away, or the key has it already. */
  predicate NeedsNoPurchase(cfg: Config, s: Paid, handle: string, key: string) {
    Handles.IsGenerated(handle, cfg.words) || StillHeld(s.table, handle, key)
  }

  datatype Gate =
    | Pass
    | PurchaseRequired | PurchaseInvalid | StoreUnavailable | TierMismatch | PurchaseInactive | UsedElsewhere

  /** Whether a claim of handle by key may go ahead, binding the purchase that pays for it. */
  function RequirePurchase(cfg: Config, s: Paid, handle: string, key: string,
                           store: Option<string>, answer: Answer, now: int): (Gate, Subs)
  {
    if Handles.IsGenerated(handle, cfg.words) || StillHeld(s.table, handle, key) then (Pass, s.subs)
    else if store.None? then (PurchaseRequired, s.subs)
    else if store.value !in cfg.verifiers || answer.Invalid? then (PurchaseInvalid, s.subs)
    else if answer.Unavailable? then (StoreUnavailable, s.subs)
    else if answer.v.status.tier != Handles.Tier(handle) then (TierMismatch, s.subs)
    else if !Entitled(answer.v.status, now) then (PurchaseInactive, s.subs)
    else
      var (outcome, subs) := Bind(s, store.value, answer.v, handle, key, now);
      (if outcome.Bound? then Pass else UsedElsewhere, subs)
  }

  /**
   The gate passes exactly for who needs no purchase or shows a fitting one that pays for no other handle still held.
   Then, and only then, and only for the latter, a live row of that purchase is bound to the handle and its key.
   */
  ghost predicate GateLaw(cfg: Config, s: Paid, handle: string, key: string,
                          store: Option<string>, answer: Answer, now: int, gate: Gate, subs: Subs)
  {
    && (gate.Pass? <==>
          || NeedsNoPurchase(cfg, s, handle, key)
          || (PurchaseFits(cfg, handle, store, answer, now)
              && !PaysElsewhere(s, SubscriptionID(store.value, answer.v.storeID), handle, key)))
    && (!gate.Pass? || NeedsNoPurchase(cfg, s, handle, key) ==> subs == s.subs)
    && (gate.Pass? && !NeedsNoPurchase(cfg, s, handle, key) ==>
          var id := SubscriptionID(store.value, answer.v.storeID);
          && OnlyRow(s.subs, subs, id) && id in subs
          && subs[id].BoundTo(handle, key) && subs[id].releasedAt.None? && subs[id].status == Stored(answer.v.status))
    && BindingsOfHeldKept(s.table, s.subs, subs)
  }

  lemma GateKeepsLaw(cfg: Config, s: Paid, handle: string, key: string, store: Option<string>, answer: Answer, now: int)
    ensures var (gate, subs) := RequirePurchase(cfg, s, handle, key, store, answer, now);
            GateLaw(cfg, s, handle, key, store, answer, now, gate, subs)
  {
  }

  /** A verified profile certificate; a released one is its owner's tombstone. */
  datatype Profile = Profile(
    handle: string,
    identityKey: string,
    serialNumber: string,
    issuedAt: int,
    released: bool,
    json: string)

  function ClaimOf(p: Profile, now: int): Claim {
    Claim(p.handle, Handles.Skeleton(p.handle), p.identityKey, p.json, p.serialNumber, p.issuedAt, now)
  }

  function TombstoneOf(cfg: Config, p: Profile, now: int): Release {
    Release(p.handle, Some(p.identityKey), Some(p.issuedAt), RELEASED_BY_OWNER, Some(now + cfg.cooldown), now)
  }

  datatype PutOutcome =
    | GivenUp(release: ReleaseOutcome)
    | Refused(error: Handles.HandleError) | Unpaid(gate: Gate) | Claimed(outcome: ClaimOutcome)

  /** Registering or updating a handle with paid handles on: validate, pay, claim. */
  function PutClaim(cfg: Config, s: Paid, p: Profile, store: Option<string>, answer: Answer, now: int, ts: int)
    : (PutOutcome, Paid)
  {
    if Handles.Validate(p.handle).Some? then (Refused(Handles.Validate(p.handle).value), s)
    else
      var (gate, subs) := RequirePurchase(cfg, s, p.handle, p.identityKey, store, answer, now);
      if !gate.Pass? then (Unpaid(gate), Paid(s.table, subs))
      else
        var c := Pin(ClaimOf(p, now));
        (Claimed(Decide(s.table, c)), Paid(TableAfterClaim(s.table, c, ts), subs))
  }

  /** A claim must be valid and paid for; a tombstone need be neither. */
  function PutHandle(cfg: Config, s: Paid, p: Profile, store: Option<string>, answer: Answer, now: int, ts: int)
    : (PutOutcome, Paid)
  {
    if p.released then
      var r := PinRelease(TombstoneOf(cfg, p, now));
      (GivenUp(DecideRelease(s.table, r)), Paid(TableAfterRelease(s.table, r, ts), s.subs))
    else PutClaim(cfg, s, p, store, answer, now, ts)
  }

  // --- what a store says later ---------------------------------------------------------

  /** A renewal into a tier that does not fit the handle does not extend it. */
  function Fitted(handle: string, onFile: int, st: Status): Status {
    if st.tier == Handles.Tier(handle) then st
    else st.(state := SubWrongTier, expiresAt := if onFile < st.expiresAt then onFile else st.expiresAt)
  }

  datatype RefreshOutcome = Refreshed | StoreForgot | RefreshFailed

  /** Asks the store about sub again and records the answer in the table and in the caller's copy. */
  function Refresh(cfg: Config, subs: Subs, sub: Subscription, answer: Answer, now: int)
    : (RefreshOutcome, Subs, Subscription)
  {
    if sub.store !in cfg.verifiers || answer.Unavailable? then (RefreshFailed, subs, sub)
    else if answer.Invalid? then (StoreForgot, subs, sub)
    else
      var st := Fitted(sub.handle, sub.status.expiresAt, answer.v.status);
      match UpdateStatus(subs, sub.id, st, now)
      case None => (RefreshFailed, subs, sub)
      case Some(subs') => (Refreshed, subs', sub.(status := st, updatedAt := now))
  }

  /** A new Play token takes over the handle its predecessor pays for. */
  function AdoptLinked(cfg: Config, subs: Subs, token: string, answer: Answer, now: int): Subs {
    if GOOGLE_PLAY !in cfg.verifiers || !answer.Vouched? || answer.v.linkedStoreID == "" then subs
    else
      var oldID := SubscriptionID(GOOGLE_PLAY, answer.v.linkedStoreID);
      if oldID !in subs then subs
      else
        var old' := subs[oldID];
        var sub := Adopted(old', token, answer.v.status, now);
        var bound := BindRow(subs, sub, None);
        if bound.Some? then bound.value else subs
  }

  function Adopted(old': Subscription, token: string, st: Status, now: int): Subscription {
    Subscription(SubscriptionID(GOOGLE_PLAY, token), GOOGLE_PLAY, token, old'.handle, old'.identityKey,
                 if st.tier == Handles.Tier(old'.handle) then st
                 else st.(state := SubWrongTier, expiresAt := old'.status.expiresAt),
                 now, now, None)
  }

  /**
   A store notification for one of its subscriptions: refreshed if on file, else adopted if it replaces one that is.
   */
  function Notification(cfg: Config, subs: Subs, store: string, storeID: string, answer: Answer, now: int): Subs {
    var id := SubscriptionID(store, storeID);
    if id in subs then Refresh(cfg, subs, subs[id], answer, now).1
    else if store == GOOGLE_PLAY then AdoptLinked(cfg, subs, storeID, answer, now)
    else subs
  }

  // --- the lapse sweep -----------------------------------------------------------------

  /** The answer and the clock readings that a listed row's turn gets. */
  datatype Reply = Reply(answer: Answer, clock: int, ts: int)

  /** One row of a sweep's listing, with its reply. */
  datatype Item = Item(sub: Subscription, answer: Answer, clock: int, ts: int)

  function Items(list: seq<Subscription>, replies: nat -> Reply): seq<Item> {
    seq(|list|, k requires 0 <= k < |list| => Item(list[k], replies(k).answer, replies(k).clock, replies(k).ts))
  }

  /** Row id, other than sub's, pays for the handle of sub's row for the same key at now. */
  predicate PaysToo(subs: Subs, sub: Subscription, id: string, now: int) {
    && id in subs && id != sub.id
    && subs[id].BoundTo(sub.handle, sub.identityKey)
    && subs[id].status.tier == Handles.Tier(sub.handle)
    && Entitled(subs[id].status, now)
  }

  predicate PaidByAnother(subs: Subs, sub: Subscription, now: int) {
    exists id :: id in subs && PaysToo(subs, sub, id, now)
  }

  predicate HasLapsed(st: Status, now: int, grace: int) {
    !Entitled(st, now) && st.expiresAt < now - grace
  }

  function LapseRelease(sub: Subscription, now: int): Release {
    Release(sub.handle, None, None, RELEASED_BY_SUBSCRIPTION, None, now)
  }

  /** Releases sub's handle unless its key lost it or another row pays for it; either way sub is done. */
  function ReleaseLapsed(s: Paid, sub: Subscription, now: int, ts: int): (bool, Paid) {
    var release := StillHeld(s.table, sub.handle, sub.identityKey) && !PaidByAnother(s.subs, sub, now);
    var table := if release then TableAfterRelease(s.table, PinRelease(LapseRelease(sub, now)), ts) else s.table;
    var marked := MarkReleased(s.subs, sub.id, now);
    (release && marked.Some?, Paid(table, if marked.Some? then marked.value else s.subs))
  }

  /** One listed row's turn: ask again, and release what has really lapsed. True if it released a handle. */
  function SweepOne(cfg: Config, s: Paid, item: Item, now: int): (bool, Paid) {
    var (outcome, subs, sub) := Refresh(cfg, s.subs, item.sub, item.answer, item.clock);
    if outcome.RefreshFailed? || !HasLapsed(sub.status, now, cfg.grace) then (false, Paid(s.table, subs))
    else ReleaseLapsed(Paid(s.table, subs), sub, now, item.ts)
  }

  /** A whole sweep with one reading of the clock: how many handles it released, and what it left. */
  function Sweep(cfg: Config, s: Paid, items: seq<Item>, now: int): (nat, Paid) {
    if items == [] then (0, s)
    else
      var (n, before) := Sweep(cfg, s, items[..|items| - 1], now);
      var (released, after) := SweepOne(cfg, before, items[|items| - 1], now);
      (n + if released then 1 else 0, after)
  }
}
