/**
 The handle registry as a value: one row per handle, the conditional writes the
 database runs atomically under its unique indexes, the reads, and the decision
 logic that explains a refused write.
 */
module Registry {
  import opened Wrappers

  // Times are nanoseconds; a stored time is cut to whole milliseconds.
  const NANOS_PER_MILLI := 1_000_000

  function MsUTC(t: int): (r: int)
    ensures r <= t < r + 1_000_000 && r % 1_000_000 == 0
    ensures t % 1_000_000 == 0 ==> r == t
  {
    t - t % NANOS_PER_MILLI
  }

  function MsOption(t: Option<int>): Option<int> {
    if t.Some? then Some(MsUTC(t.value)) else None
  }

  /** The releasedBy value of an owner's own tombstone. */
  const RELEASED_BY_OWNER := "owner"

  /** One registry row. Rows are never deleted. */
  datatype Row = Row(
    handle: string,
    skeleton: string,
    identityKey: Option<string>,
    lastIdentityKey: string,
    certificate: Option<string>,
    serialNumber: string,
    issuedAt: int,
    createdAt: int,
    updatedAt: int,
    releasedAt: Option<int>,
    cooldownUntil: Option<int>,
    releasedBy: Option<string>)
  {
    predicate Active() { identityKey.Some? }
  }

  /** The collection, keyed by _id, which is the handle. */
  type Table = map<string, Row>

  datatype Claim = Claim(
    handle: string,
    skeleton: string,
    identityKey: string,
    certificate: string,
    serialNumber: string,
    issuedAt: int,
    now: int)

  datatype Release = Release(
    handle: string,
    owner: Option<string>,
    issuedAt: Option<int>,
    releasedBy: string,
    cooldownUntil: Option<int>,
    now: int)

  datatype ClaimOutcome =
    | Created | Updated | Unchanged
    | HandleTaken | TooSimilar | KeyHasHandle | Cooldown | StaleCertificate
    | ClaimRaced

  /** Applied and AlreadyApplied are both a nil error to the caller. */
  datatype ReleaseOutcome =
    | Applied | AlreadyApplied
    | NotFound | NotOwner | StaleTombstone | InvalidRelease
    | AppliedNowhere

  /** What the database answers to one conditional write. */
  datatype Write = Matched(table: Table) | NoMatch | Duplicate

  // --- normalisation and validation ------------------------------------------

  function Pin(c: Claim): Claim {
    c.(issuedAt := MsUTC(c.issuedAt), now := MsUTC(c.now))
  }

  function PinRelease(r: Release): Release {
    r.(issuedAt := MsOption(r.issuedAt), cooldownUntil := MsOption(r.cooldownUntil), now := MsUTC(r.now))
  }

  predicate ValidRelease(r: Release) {
    r.owner.Some? ==> r.issuedAt.Some? && r.releasedBy == RELEASED_BY_OWNER
  }

  // --- the unique indexes ------------------------------------------------------

  /** No row but the one at handle holds row's skeleton, nor (if it has one) its identity key. */
  predicate IndexesAdmit(t: Table, handle: string, row: Row) {
    forall h | h in t && h != handle ::
      && t[h].skeleton != row.skeleton
      && (row.identityKey.Some? ==> t[h].identityKey != row.identityKey)
  }

  function PutRow(t: Table, handle: string, row: Row): Write {
    if IndexesAdmit(t, handle, row) then Matched(t[handle := row]) else Duplicate
  }

  // --- the conditional writes of a claim ---------------------------------------

  predicate OwnerGuard(t: Table, c: Claim) {
    && c.handle in t
    && t[c.handle].identityKey == Some(c.identityKey)
    && t[c.handle].issuedAt < c.issuedAt
    && t[c.handle].serialNumber != c.serialNumber
  }

  function OwnerUpdate(t: Table, c: Claim, ts: int): Write {
    if OwnerGuard(t, c) then
      PutRow(t, c.handle, t[c.handle].(skeleton := c.skeleton, certificate := Some(c.certificate),
                             serialNumber := c.serialNumber, issuedAt := c.issuedAt, updatedAt := ts))
    else NoMatch
  }

  /** Only the key whose own tombstone released the row skips its cooldown. */
  predicate CooldownExempt(row: Row, key: string) {
    key != "" && row.lastIdentityKey == key && row.releasedBy == Some(RELEASED_BY_OWNER)
  }

  predicate ReclaimGuard(t: Table, c: Claim) {
    && c.handle in t
    && !t[c.handle].Active()
    && t[c.handle].issuedAt < c.issuedAt
    && (|| CooldownExempt(t[c.handle], c.identityKey)
        || t[c.handle].cooldownUntil.None?
        || t[c.handle].cooldownUntil.value <= c.now)
  }

  function Reclaim(t: Table, c: Claim, ts: int): Write {
    if ReclaimGuard(t, c) then
      PutRow(t, c.handle, t[c.handle].(skeleton := c.skeleton, identityKey := Some(c.identityKey),
                             lastIdentityKey := c.identityKey, certificate := Some(c.certificate),
                             serialNumber := c.serialNumber, issuedAt := c.issuedAt, updatedAt := ts,
                             releasedAt := None, cooldownUntil := None, releasedBy := None))
    else NoMatch
  }

  /** The row an accepted claim leaves behind. */
  function Held(c: Claim, createdAt: int, ts: int): Row {
    Row(c.handle, c.skeleton, Some(c.identityKey), c.identityKey, Some(c.certificate), c.serialNumber,
        c.issuedAt, createdAt, ts, None, None, None)
  }

  function Insert(t: Table, c: Claim, ts: int): Write {
    if c.handle in t then Duplicate else PutRow(t, c.handle, Held(c, ts, ts))
  }

  // --- the conditional write of a release --------------------------------------

  predicate ReleaseGuard(t: Table, r: Release) {
    && r.handle in t
    && t[r.handle].Active()
    && (r.owner.Some? ==> t[r.handle].identityKey == r.owner)
    && (r.owner.Some? && r.issuedAt.Some? ==> t[r.handle].issuedAt < r.issuedAt.value)
  }

  function Parted(row: Row, r: Release, ts: int): Row {
    row.(identityKey := None, certificate := None, updatedAt := ts,
         releasedAt := Some(r.now), releasedBy := Some(r.releasedBy), cooldownUntil := r.cooldownUntil,
         issuedAt := if r.owner.Some? && r.issuedAt.Some? then r.issuedAt.value else row.issuedAt)
  }

  function ReleaseWrite(t: Table, r: Release, ts: int): Write {
    if ReleaseGuard(t, r) then Matched(t[r.handle := Parted(t[r.handle], r, ts)]) else NoMatch
  }

  // --- the reads ---------------------------------------------------------------

  function GetHandle(t: Table, handle: string): Option<Row> {
    if handle in t then Some(t[handle]) else None
  }

  ghost predicate HoldsSkeleton(t: Table, h: string, skeleton: string) {
    h in t && t[h].skeleton == skeleton
  }

  ghost predicate HoldsKey(t: Table, h: string, key: string) {
    h in t && t[h].identityKey == Some(key)
  }

  ghost function GetHandleBySkeleton(t: Table, skeleton: string): (r: Option<Row>)
    ensures r.Some? <==> exists h :: HoldsSkeleton(t, h, skeleton)
    ensures r.Some? ==> exists h :: HoldsSkeleton(t, h, skeleton) && r.value == t[h]
  {
    if h :| HoldsSkeleton(t, h, skeleton) then Some(t[h]) else None
  }

  ghost function GetHandleByIdentityKey(t: Table, key: string): (r: Option<Row>)
    ensures r.Some? <==> exists h :: HoldsKey(t, h, key)
    ensures r.Some? ==> exists h :: HoldsKey(t, h, key) && r.value == t[h]
  {
    if h :| HoldsKey(t, h, key) then Some(t[h]) else None
  }

  // --- the diagnoses -----------------------------------------------------------

  /** Where the diagnosis of a claim goes once it has read the handle's row. */
  datatype Verdict = Answer(outcome: ClaimOutcome) | ReadOwnedSkeleton | ReadKey

  predicate SameCertificate(row: Row, c: Claim) {
    row.serialNumber == c.serialNumber && row.issuedAt == c.issuedAt && row.certificate == Some(c.certificate)
  }

  function AfterHandle(rec: Option<Row>, c: Claim): Verdict {
    if rec.None? then ReadKey
    else if rec.value.Active() then
      if rec.value.identityKey != Some(c.identityKey) then Answer(HandleTaken)
      else if SameCertificate(rec.value, c) then Answer(Unchanged)
      else if rec.value.issuedAt < c.issuedAt && rec.value.serialNumber != c.serialNumber then ReadOwnedSkeleton
      else Answer(StaleCertificate)
    else if rec.value.issuedAt < c.issuedAt then ReadKey
    else Answer(StaleCertificate)
  }

  predicate CoolingDown(rec: Option<Row>, c: Claim) {
    && rec.Some?
    && rec.value.cooldownUntil.Some?
    && c.now < rec.value.cooldownUntil.value
    && !CooldownExempt(rec.value, c.identityKey)
  }

  function AfterSkeleton(sim: Option<Row>, c: Claim): ClaimOutcome {
    if sim.Some? && sim.value.handle != c.handle then TooSimilar else ClaimRaced
  }

  predicate ReleaseAlreadyApplied(row: Row, r: Release) {
    && r.owner.Some? && r.issuedAt.Some?
    && r.releasedBy == RELEASED_BY_OWNER
    && row.releasedBy == Some(RELEASED_BY_OWNER)
    && row.lastIdentityKey == r.owner.value
    && MsUTC(row.issuedAt) == MsUTC(r.issuedAt.value)
  }

  /** The whole diagnosis over one snapshot of the registry. */
  ghost function DiagnoseClaim(t: Table, c: Claim): ClaimOutcome {
    match AfterHandle(GetHandle(t, c.handle), c)
    case Answer(outcome) => outcome
    case ReadOwnedSkeleton => AfterSkeleton(GetHandleBySkeleton(t, c.skeleton), c)
    case ReadKey =>
      if GetHandleByIdentityKey(t, c.identityKey).Some? then KeyHasHandle
      else if CoolingDown(GetHandle(t, c.handle), c) then Cooldown
      else AfterSkeleton(GetHandleBySkeleton(t, c.skeleton), c)
  }

  function DiagnoseRelease(rec: Option<Row>, r: Release): ReleaseOutcome {
    if rec.None? then NotFound
    else if !rec.value.Active() then
      if ReleaseAlreadyApplied(rec.value, r) then AlreadyApplied else NotFound
    else if r.owner.Some? && rec.value.identityKey != r.owner then NotOwner
    else if r.owner.Some? then StaleTombstone
    else AppliedNowhere
  }

  // --- the registry invariant --------------------------------------------------

  predicate RowOk(h: string, row: Row) {
    && row.handle == h
    && (row.Active() <==> row.certificate.Some?)
    && (row.Active() ==>
          && row.identityKey == Some(row.lastIdentityKey)
          && row.releasedAt.None? && row.cooldownUntil.None? && row.releasedBy.None?)
    && (!row.Active() ==> row.releasedAt.Some? && row.releasedBy.Some?)
  }

  ghost predicate RowsOk(t: Table) {
    forall h | h in t :: RowOk(h, t[h])
  }

  ghost predicate SkeletonsUnique(t: Table) {
    forall h, g | h in t && g in t && t[h].skeleton == t[g].skeleton :: h == g
  }

  ghost predicate KeysUnique(t: Table) {
    forall h, g | h in t && g in t && t[h].Active() && t[h].identityKey == t[g].identityKey :: h == g
  }

  ghost predicate Inv(t: Table) {
    RowsOk(t) && SkeletonsUnique(t) && KeysUnique(t)
  }

  // --- what a call decides when nothing interferes -----------------------------

  /** Another handle's row reserves the claim's skeleton. */
  predicate LooksLikeAnother(t: Table, c: Claim) {
    exists h :: h in t && h != c.handle && t[h].skeleton == c.skeleton
  }

  predicate KeyHolds(t: Table, key: string) {
    exists h :: h in t && t[h].identityKey == Some(key)
  }

  /** The answer to a claim, read off the table in one look: the first rule that refuses it, or acceptance. */
  function Decide(t: Table, c: Claim): ClaimOutcome {
    var held := c.handle in t && t[c.handle].Active();
    if held && t[c.handle].identityKey != Some(c.identityKey) then HandleTaken
    else if held && SameCertificate(t[c.handle], c) then Unchanged
    else if c.handle in t && c.issuedAt <= t[c.handle].issuedAt then StaleCertificate
    else if held && t[c.handle].serialNumber == c.serialNumber then StaleCertificate
    else if !held && KeyHolds(t, c.identityKey) then KeyHasHandle
    else if !held && CoolingDown(GetHandle(t, c.handle), c) then Cooldown
    else if LooksLikeAnother(t, c) then TooSimilar
    else if held then Updated
    else Created
  }

  predicate Accepted(o: ClaimOutcome) { o.Created? || o.Updated? }

  function TableAfterClaim(t: Table, c: Claim, ts: int): Table {
    if Accepted(Decide(t, c)) then
      t[c.handle := Held(c, if c.handle in t then t[c.handle].createdAt else ts, ts)]
    else t
  }

  function DecideRelease(t: Table, r: Release): ReleaseOutcome {
    if !ValidRelease(r) then InvalidRelease
    else if r.handle !in t then NotFound
    else if !t[r.handle].Active() then
      if ReleaseAlreadyApplied(t[r.handle], r) then AlreadyApplied else NotFound
    else if r.owner.None? then Applied
    else if t[r.handle].identityKey != r.owner then NotOwner
    else if r.issuedAt.value <= t[r.handle].issuedAt then StaleTombstone
    else Applied
  }

  function TableAfterRelease(t: Table, r: Release, ts: int): Table {
    if DecideRelease(t, r).Applied? then t[r.handle := Parted(t[r.handle], r, ts)] else t
  }
}
