/** The device-token backfill: a migration that must not change what is listed. */
module Devices {
  import opened Wrappers

  /** A document of the previous release is keyed by its token; one written since, by an object id. */
  datatype DocID = Key(token: string) | ObjectID(n: nat)

  datatype Doc = Doc(
    docID: DocID,
    fcmToken: Option<string>,
    identityKey: string,
    deviceID: Option<string>,
    platform: Option<string>,
    active: bool,
    createdAt: int,
    updatedAt: int,
    lastUsed: Option<int>,
    registrationID: int)
  {
    predicate Lacking() { fcmToken.None? }

    function Token(): string {
      if fcmToken.Some? && fcmToken.value != "" then fcmToken.value
      else if docID.Key? then docID.token
      else ""
    }
  }

  datatype Device = Device(
    id: int, identityKey: string, fcmToken: string, deviceID: Option<string>, platform: Option<string>,
    active: bool, createdAt: int, updatedAt: int, lastUsed: Option<int>)

  function ToDevice(d: Doc): Device {
    Device(d.registrationID, d.identityKey, d.Token(), d.deviceID, d.platform, d.active, d.createdAt, d.updatedAt,
           d.lastUsed)
  }

  /** Ids are unique, tokens are not empty, only old documents lack the field, and the pair index is in force. */
  ghost predicate Valid(docs: seq<Doc>) {
    && (forall i, j | 0 <= i < j < |docs| :: docs[i].docID != docs[j].docID)
    && (forall i | 0 <= i < |docs| :: docs[i].Token() != "" && docs[i].fcmToken != Some(""))
    && PairsUnique(docs)
  }

  ghost predicate PairsUnique(docs: seq<Doc>) {
    forall i, j | 0 <= i < j < |docs| && docs[i].fcmToken.Some? && docs[i].identityKey == docs[j].identityKey ::
      docs[i].fcmToken != docs[j].fcmToken
  }

  // --- listing ---------------------------------------------------------------------------

  predicate Listable(d: Doc, identityKey: string, activeOnly: bool) {
    d.identityKey == identityKey && (activeOnly ==> d.active)
  }

  /** Some listable document holds the token in its own field. */
  predicate Registered(docs: seq<Doc>, identityKey: string, activeOnly: bool, token: string) {
    exists i :: 0 <= i < |docs| && Listable(docs[i], identityKey, activeOnly) && docs[i].fcmToken == Some(token)
  }

  /** What one document adds to a list; an old duplicate of a registration adds nothing. */
  function Entry(d: Doc, all: seq<Doc>, identityKey: string, activeOnly: bool): seq<Device> {
    if !Listable(d, identityKey, activeOnly) then []
    else if d.Lacking() && Registered(all, identityKey, activeOnly, d.Token()) then []
    else [ToDevice(d)]
  }

  /** The devices of ds, in the order the cursor yields the documents. */
  function ListFrom(ds: seq<Doc>, all: seq<Doc>, identityKey: string, activeOnly: bool): seq<Device> {
    if ds == [] then []
    else ListFrom(ds[..|ds| - 1], all, identityKey, activeOnly) + Entry(ds[|ds| - 1], all, identityKey, activeOnly)
  }

  function ListDevices(docs: seq<Doc>, identityKey: string): seq<Device> {
    ListFrom(docs, docs, identityKey, false)
  }

  function ListActiveDevices(docs: seq<Doc>, identityKey: string): seq<Device> {
    ListFrom(docs, docs, identityKey, true)
  }

  /** What a device listed for document d says. */
  predicate Describes(dev: Device, d: Doc) {
    && dev.id == d.registrationID && dev.identityKey == d.identityKey
    && (match d.fcmToken case Some(token) => dev.fcmToken == token case None => d.docID == Key(dev.fcmToken))
    && dev.deviceID == d.deviceID && dev.platform == d.platform && dev.active == d.active
    && dev.createdAt == d.createdAt && dev.updatedAt == d.updatedAt && dev.lastUsed == d.lastUsed
  }

  /** Document d is the old copy of a registration that this release holds (and that is active, if only those count). */
  ghost predicate IsOldCopy(docs: seq<Doc>, d: Doc, activeOnly: bool) {
    && d.fcmToken.None?
    && exists e :: e in docs && e.identityKey == d.identityKey && (activeOnly ==> e.active)
                   && e.fcmToken.Some? && d.docID == Key(e.fcmToken.value)
  }

  lemma OldCopyIff(docs: seq<Doc>, d: Doc, activeOnly: bool)
    requires Valid(docs) && d in docs
    ensures IsOldCopy(docs, d, activeOnly) <==> d.Lacking() && Registered(docs, d.identityKey, activeOnly, d.Token())
  {
    if d.Lacking() && Registered(docs, d.identityKey, activeOnly, d.Token()) {
      var i :| 0 <= i < |docs| && Listable(docs[i], d.identityKey, activeOnly) && docs[i].fcmToken == Some(d.Token());
      assert docs[i] in docs;
    }
    if IsOldCopy(docs, d, activeOnly) {
      var e :| e in docs && e.identityKey == d.identityKey && (activeOnly ==> e.active)
               && e.fcmToken.Some? && d.docID == Key(e.fcmToken.value);
      var i :| 0 <= i < |docs| && docs[i] == e;
      assert Listable(docs[i], d.identityKey, activeOnly);
    }
  }

  /** One document after another adds a device that describes it, if it is of the identity and no old copy. */
  lemma DocIsListed(docs: seq<Doc>, i: nat, identityKey: string, activeOnly: bool)
    requires Valid(docs) && i < |docs|
    ensures var d, list := docs[i], ListFrom(docs[..i], docs, identityKey, activeOnly);
            var more := ListFrom(docs[..i + 1], docs, identityKey, activeOnly);
            if d.identityKey == identityKey && (activeOnly ==> d.active) && !IsOldCopy(docs, d, activeOnly)
            then |more| == |list| + 1 && more[..|list|] == list && Describes(more[|list|], d)
            else more == list
  {
    OldCopyIff(docs, docs[i], activeOnly);
    assert docs[..i + 1][..i] == docs[..i] && docs[i].Token() != "";
  }

  // --- what the backfill leaves ------------------------------------------------------------

  /** Giving d its token would collide with the registration of the same pair. */
  predicate Collides(docs: seq<Doc>, d: Doc) {
    Registered(docs, d.identityKey, false, d.Token())
  }

  function Settled(d: Doc): Doc { d.(fcmToken := Some(d.Token())) }

  /** What one document leaves behind. */
  function MigrateDoc(d: Doc, all: seq<Doc>): seq<Doc> {
    if !d.Lacking() then [d] else if Collides(all, d) then [] else [Settled(d)]
  }

  /** Old documents get their token, unless the pair is registered already, and then they go. */
  function MigrateFrom(ds: seq<Doc>, all: seq<Doc>): seq<Doc> {
    if ds == [] then []
    else
      var d := ds[|ds| - 1];
      MigrateFrom(ds[..|ds| - 1], all) + MigrateDoc(d, all)
  }

  function Migrated(docs: seq<Doc>): seq<Doc> { MigrateFrom(docs, docs) }

  // --- one document at a time ------------------------------------------------------------------

  ghost predicate SameCollisions(ds: seq<Doc>, all: seq<Doc>, all': seq<Doc>) {
    forall i | 0 <= i < |ds| && ds[i].Lacking() :: Collides(all, ds[i]) <==> Collides(all', ds[i])
  }

  lemma {:induction false} MigrateAgrees(ds: seq<Doc>, all: seq<Doc>, all': seq<Doc>)
    requires SameCollisions(ds, all, all')
    ensures MigrateFrom(ds, all) == MigrateFrom(ds, all')
  {
    if ds != [] {
      assert forall i | 0 <= i < |ds| - 1 :: ds[..|ds| - 1][i] == ds[i];
      MigrateAgrees(ds[..|ds| - 1], all, all');
    }
  }

  lemma MigrateLast(ds: seq<Doc>, d: Doc, all: seq<Doc>)
    ensures MigrateFrom(ds + [d], all) == MigrateFrom(ds, all) + MigrateDoc(d, all)
  {
    assert (ds + [d])[..|ds + [d]| - 1] == ds;
  }

  lemma {:induction false} MigrateAppends(a: seq<Doc>, b: seq<Doc>, all: seq<Doc>)
    ensures MigrateFrom(a + b, all) == MigrateFrom(a, all) + MigrateFrom(b, all)
  {
    if b == [] {
      assert a + b == a;
    } else {
      var front, d := b[..|b| - 1], b[|b| - 1];
      assert b == front + [d] && a + b == (a + front) + [d];
      MigrateAppends(a, front, all);
      MigrateLast(a + front, d, all);
      MigrateLast(front, d, all);
    }
  }

  function Set(docs: seq<Doc>, i: nat): seq<Doc>
    requires i < |docs|
  {
    docs[..i] + [Settled(docs[i])] + docs[i + 1..]
  }

  function Drop(docs: seq<Doc>, i: nat): seq<Doc>
    requires i < |docs|
  {
    docs[..i] + docs[i + 1..]
  }

  lemma {:induction false} MigrateOne(d: Doc, all: seq<Doc>)
    ensures MigrateFrom([d], all) == MigrateDoc(d, all)
  {
    assert [d][..0] == [];
  }

  /** Replacing document i by mid changes nothing in the end if the other collisions and i's own outcome stay. */
  lemma SpliceMigrates(docs: seq<Doc>, i: nat, mid: seq<Doc>, after: seq<Doc>)
    requires i < |docs| && after == docs[..i] + mid + docs[i + 1..]
    requires SameCollisions(docs[..i], docs, after) && SameCollisions(docs[i + 1..], docs, after)
    requires MigrateFrom(mid, after) == MigrateFrom([docs[i]], docs)
    ensures Migrated(after) == Migrated(docs)
  {
    assert docs == docs[..i] + [docs[i]] + docs[i + 1..];
    MigrateAppends(docs[..i] + [docs[i]], docs[i + 1..], docs);
    MigrateAppends(docs[..i], [docs[i]], docs);
    MigrateAppends(docs[..i] + mid, docs[i + 1..], after);
    MigrateAppends(docs[..i], mid, after);
    MigrateAgrees(docs[..i], docs, after);
    MigrateAgrees(docs[i + 1..], docs, after);
  }

  lemma SetAt(docs: seq<Doc>, i: nat, j: nat)
    requires i < |docs| && j < |docs|
    ensures |Set(docs, i)| == |docs| && Set(docs, i)[j] == if j == i then Settled(docs[i]) else docs[j]
  {
  }

  lemma LackingTokensDiffer(docs: seq<Doc>, i: nat, k: nat)
    requires Valid(docs) && i < |docs| && k < |docs| && k != i && docs[i].Lacking() && docs[k].Lacking()
    ensures docs[i].Token() != docs[k].Token()
  {
    assert docs[if i < k then i else k].docID != docs[if i < k then k else i].docID;
  }

  /** Settling document i registers its own token and no other. */
  lemma SetRegisters(docs: seq<Doc>, i: nat, identityKey: string, token: string)
    requires i < |docs| && docs[i].Lacking() && docs[i].Token() != token
    ensures Registered(docs, identityKey, false, token) <==> Registered(Set(docs, i), identityKey, false, token)
  {
    var after := Set(docs, i);
    if Registered(docs, identityKey, false, token) {
      var j: nat :| j < |docs| && Listable(docs[j], identityKey, false) && docs[j].fcmToken == Some(token);
      SetAt(docs, i, j);
      assert after[j] == docs[j];
    }
    if Registered(after, identityKey, false, token) {
      var j: nat :| j < |after| && Listable(after[j], identityKey, false) && after[j].fcmToken == Some(token);
      SetAt(docs, i, j);
      assert after[j] == docs[j];
    }
  }

  lemma SetKeepsCollision(docs: seq<Doc>, i: nat, k: nat)
    requires Valid(docs) && i < |docs| && k < |docs| && k != i && docs[i].Lacking() && docs[k].Lacking()
    ensures Collides(docs, docs[k]) <==> Collides(Set(docs, i), docs[k])
  {
    LackingTokensDiffer(docs, i, k);
    SetRegisters(docs, i, docs[k].identityKey, docs[k].Token());
  }

  lemma SetStaysValid(docs: seq<Doc>, i: nat)
    requires Valid(docs) && i < |docs| && docs[i].Lacking() && !Collides(docs, docs[i])
    ensures Valid(Set(docs, i))
  {
    var after := Set(docs, i);
    assert forall k | 0 <= k < |docs| && k != i :: after[k] == docs[k];
    assert after[i] == Settled(docs[i]);
  }

  /** Setting one old document's token, where no pair collides, is on the way to the same end. */
  lemma SetMigrates(docs: seq<Doc>, i: nat)
    requires Valid(docs) && i < |docs| && docs[i].Lacking() && !Collides(docs, docs[i])
    ensures Valid(Set(docs, i)) && Migrated(Set(docs, i)) == Migrated(docs)
  {
    SetStaysValid(docs, i);
    forall k: nat | k < |docs| && k != i && docs[k].Lacking()
      ensures Collides(docs, docs[k]) <==> Collides(Set(docs, i), docs[k])
    {
      SetKeepsCollision(docs, i, k);
    }
    MigrateOne(docs[i], docs);
    MigrateOne(Settled(docs[i]), Set(docs, i));
    SpliceMigrates(docs, i, [Settled(docs[i])], Set(docs, i));
  }

  lemma DropKeepsCollisions(docs: seq<Doc>, i: nat, d: Doc)
    requires i < |docs| && docs[i].Lacking()
    ensures Collides(docs, d) <==> Collides(Drop(docs, i), d)
  {
    var after := Drop(docs, i);
    if Collides(docs, d) {
      var j :| 0 <= j < |docs| && Listable(docs[j], d.identityKey, false) && docs[j].fcmToken == Some(d.Token());
      assert after[if j < i then j else j - 1] == docs[j];
    }
    if Collides(after, d) {
      var j :| 0 <= j < |after| && Listable(after[j], d.identityKey, false) && after[j].fcmToken == Some(d.Token());
      assert docs[if j < i then j else j + 1] == after[j];
    }
  }

  lemma DropStaysValid(docs: seq<Doc>, i: nat)
    requires Valid(docs) && i < |docs|
    ensures Valid(Drop(docs, i))
  {
    var after := Drop(docs, i);
    assert forall k | 0 <= k < |after| :: after[k] == docs[if k < i then k else k + 1];
  }

  /** Dropping an old document whose pair is registered is, too. */
  lemma DropMigrates(docs: seq<Doc>, i: nat)
    requires Valid(docs) && i < |docs| && docs[i].Lacking() && Collides(docs, docs[i])
    ensures Valid(Drop(docs, i)) && Migrated(Drop(docs, i)) == Migrated(docs)
  {
    DropStaysValid(docs, i);
    forall d: Doc ensures Collides(docs, d) <==> Collides(Drop(docs, i), d) {
      DropKeepsCollisions(docs, i, d);
    }
    MigrateOne(docs[i], docs);
    assert Drop(docs, i) == docs[..i] + [] + docs[i + 1..];
    SpliceMigrates(docs, i, [], Drop(docs, i));
  }

  lemma {:induction false} NothingLeft(ds: seq<Doc>, all: seq<Doc>)
    requires forall i | 0 <= i < |ds| :: !ds[i].Lacking()
    ensures MigrateFrom(ds, all) == ds
  {
    if ds != [] { NothingLeft(ds[..|ds| - 1], all); }
  }

  // --- the migrated collection ---------------------------------------------------------------

  lemma {:induction false} MigratedHaveTokens(ds: seq<Doc>, all: seq<Doc>)
    ensures forall d | d in MigrateFrom(ds, all) :: !d.Lacking()
  {
    if ds != [] { MigratedHaveTokens(ds[..|ds| - 1], all); }
  }

  lemma ListLast(ds: seq<Doc>, d: Doc, all: seq<Doc>, identityKey: string, activeOnly: bool)
    ensures ListFrom(ds + [d], all, identityKey, activeOnly)
            == ListFrom(ds, all, identityKey, activeOnly) + Entry(d, all, identityKey, activeOnly)
  {
    assert (ds + [d])[..|ds + [d]| - 1] == ds;
  }

  /** What one document adds to a list once the collection is migrated. */
  lemma ListMigratedLast(ds: seq<Doc>, d: Doc, all: seq<Doc>, all': seq<Doc>, identityKey: string, activeOnly: bool)
    ensures ListFrom(MigrateFrom(ds + [d], all), all', identityKey, activeOnly)
            == ListFrom(MigrateFrom(ds, all), all', identityKey, activeOnly)
               + if d.Lacking() then (if Collides(all, d) then [] else Entry(Settled(d), all', identityKey, activeOnly))
                 else Entry(d, all', identityKey, activeOnly)
  {
    var rest := MigrateFrom(ds, all);
    assert (ds + [d])[..|ds + [d]| - 1] == ds;
    assert rest + [] == rest;
    ListLast(rest, d, all', identityKey, activeOnly);
    ListLast(rest, Settled(d), all', identityKey, activeOnly);
  }

  lemma EntryKept(d: Doc, all: seq<Doc>, all': seq<Doc>, identityKey: string)
    ensures Entry(d, all, identityKey, false)
            == if d.Lacking() then (if Collides(all, d) then [] else Entry(Settled(d), all', identityKey, false))
               else Entry(d, all', identityKey, false)
  {
    assert d.Lacking() ==> ToDevice(Settled(d)) == ToDevice(d);
  }

  /** Every list of devices is what it was. */
  lemma {:induction false} MigrationKeepsLists(ds: seq<Doc>, all: seq<Doc>, all': seq<Doc>, identityKey: string)
    ensures ListFrom(MigrateFrom(ds, all), all', identityKey, false) == ListFrom(ds, all, identityKey, false)
  {
    if ds != [] {
      var d, init := ds[|ds| - 1], ds[..|ds| - 1];
      assert ds == init + [d];
      MigrationKeepsLists(init, all, all', identityKey);
      ListMigratedLast(init, d, all, all', identityKey, false);
      EntryKept(d, all, all', identityKey);
      ListLast(init, d, all, identityKey, false);
    }
  }

  /** An old document still active, whose registration in this release is not. */
  predicate Shadowed(docs: seq<Doc>, d: Doc) {
    d.Lacking() && d.active && Collides(docs, d) && !Registered(docs, d.identityKey, true, d.Token())
  }

  lemma ActiveIsRegistered(docs: seq<Doc>, identityKey: string, token: string)
    requires Registered(docs, identityKey, true, token)
    ensures Registered(docs, identityKey, false, token)
  {
    var i :| 0 <= i < |docs| && Listable(docs[i], identityKey, true) && docs[i].fcmToken == Some(token);
    assert Listable(docs[i], identityKey, false);
  }

  /** What d adds to the list of active devices once the collection is migrated to all'. */
  function MigratedEntry(d: Doc, all: seq<Doc>, all': seq<Doc>, identityKey: string): seq<Device> {
    if !d.Lacking() then Entry(d, all', identityKey, true)
    else if Collides(all, d) then []
    else Entry(Settled(d), all', identityKey, true)
  }

  /** One document adds what it added before, unless it is shadowed, and then it adds nothing. */
  lemma ActiveEntryLost(d: Doc, all: seq<Doc>, all': seq<Doc>, identityKey: string)
    ensures var before, after := Entry(d, all, identityKey, true), MigratedEntry(d, all, all', identityKey);
            if d.identityKey == identityKey && Shadowed(all, d) then |before| == 1 && after == [] else after == before
  {
    if Registered(all, d.identityKey, true, d.Token()) { ActiveIsRegistered(all, d.identityKey, d.Token()); }
    assert d.Lacking() ==> ToDevice(Settled(d)) == ToDevice(d);
  }

  ghost predicate NoneShadowed(ds: seq<Doc>, all: seq<Doc>, identityKey: string) {
    forall d | d in ds && d.identityKey == identityKey :: !Shadowed(all, d)
  }

  lemma NoneShadowedLast(init: seq<Doc>, d: Doc, all: seq<Doc>, identityKey: string)
    ensures NoneShadowed(init + [d], all, identityKey)
            <==> NoneShadowed(init, all, identityKey) && !(d.identityKey == identityKey && Shadowed(all, d))
  {
    assert forall x :: x in init + [d] <==> x in init || x == d;
  }

  /** A list of active devices loses exactly the shadowed ones. */
  lemma {:induction false} ActiveListsDiffer(ds: seq<Doc>, all: seq<Doc>, all': seq<Doc>, identityKey: string)
    ensures var before := ListFrom(ds, all, identityKey, true);
            var after := ListFrom(MigrateFrom(ds, all), all', identityKey, true);
            && |after| <= |before|
            && (|after| == |before| ==> after == before)
            && (|after| == |before| <==> NoneShadowed(ds, all, identityKey))
  {
    if ds != [] {
      var d, init := ds[|ds| - 1], ds[..|ds| - 1];
      assert ds == init + [d];
      ActiveListsDiffer(init, all, all', identityKey);
      ListMigratedLast(init, d, all, all', identityKey, true);
      ListLast(init, d, all, identityKey, true);
      ActiveEntryLost(d, all, all', identityKey);
      NoneShadowedLast(init, d, all, identityKey);
    }
  }

  /** The list of active devices is kept exactly when no active old document is shadowed by an inactive registration. */
  lemma ActiveListKeptIff(docs: seq<Doc>, identityKey: string)
    ensures ListActiveDevices(Migrated(docs), identityKey) == ListActiveDevices(docs, identityKey)
            <==> NoneShadowed(docs, docs, identityKey)
  {
    ActiveListsDiffer(docs, docs, Migrated(docs), identityKey);
  }

  /** An active old document, and an inactive registration of the same pair made since. */
  function Overlap(token: string, identityKey: string): seq<Doc> {
    [Doc(ObjectID(0), Some(token), identityKey, None, None, false, 0, 0, None, 1),
     Doc(Key(token), None, identityKey, None, None, true, 0, 0, None, 0)]
  }

  /** Of the two, the old one was listed as active, and the backfill leaves nothing active to list. */
  lemma ActiveDeviceIsLost(token: string, identityKey: string)
    requires token != ""
    ensures var docs := Overlap(token, identityKey);
            && Valid(docs) && Shadowed(docs, docs[1])
            && ListActiveDevices(docs, identityKey) == [ToDevice(docs[1])]
            && Migrated(docs) == [docs[0]] && ListActiveDevices(Migrated(docs), identityKey) == []
  {
    var docs := Overlap(token, identityKey);
    var registered, old' := docs[0], docs[1];
    assert docs == [registered] + [old'];
    assert Listable(registered, identityKey, false) && Collides(docs, old');
    ListLast([], registered, docs, identityKey, true);
    ListLast([registered], old', docs, identityKey, true);
    MigrateOne(registered, docs);
    MigrateOne(old', docs);
    MigrateAppends([registered], [old'], docs);
    ListLast([], registered, [registered], identityKey, true);
  }

  // --- the backfill as it runs -----------------------------------------------------------------

  function LackingIDs(docs: seq<Doc>): set<DocID> {
    set i | 0 <= i < |docs| && docs[i].Lacking() :: docs[i].docID
  }

  lemma LackingHaveIDs(docs: seq<Doc>)
    ensures forall i | 0 <= i < |docs| && docs[i].Lacking() :: docs[i].docID in LackingIDs(docs)
  {
  }

  lemma SameEndSameLists(docs: seq<Doc>, after: seq<Doc>, identityKey: string)
    requires Migrated(after) == Migrated(docs)
    ensures ListDevices(after, identityKey) == ListDevices(docs, identityKey)
  {
    MigrationKeepsLists(docs, docs, Migrated(docs), identityKey);
    MigrationKeepsLists(after, after, Migrated(after), identityKey);
  }

  lemma NothingLacksIsEnd(docs: seq<Doc>)
    requires LackingIDs(docs) == {}
    ensures docs == Migrated(docs)
  {
    LackingHaveIDs(docs);
    NothingLeft(docs, docs);
  }

  class DeviceStore {
    var docs: seq<Doc>

    /** The bulk update: one old document after another, in whatever order, until one collides. */
    method UpdateMany() returns (duplicate: bool)
      requires Valid(docs)
      modifies this
      ensures Valid(docs) && Migrated(docs) == Migrated(old(docs))
      ensures !duplicate ==> LackingIDs(docs) == {}
      ensures LackingIDs(old(docs)) == {} ==> docs == old(docs)
    {
      duplicate := false;
      while !duplicate && exists i :: 0 <= i < |docs| && docs[i].Lacking()
        invariant Valid(docs) && Migrated(docs) == Migrated(old(docs))
        invariant LackingIDs(old(docs)) == {} ==> docs == old(docs)
        decreases |LackingIDs(docs)|, !duplicate
      {
        var i: nat :| i < |docs| && docs[i].Lacking();
        assert docs[i].docID in LackingIDs(docs);
        if Collides(docs, docs[i]) {
          duplicate := true;
        } else {
          SetMigrates(docs, i);
          SetLeavesFewer(docs, i);
          docs := Set(docs, i);
        }
      }
    }

    /** One document that still lacks its token: updated, or deleted if the pair collides. */
    method BackfillOne(id: DocID)
      requires Valid(docs)
      modifies this
      ensures Valid(docs) && Migrated(docs) == Migrated(old(docs))
      ensures LackingIDs(docs) == LackingIDs(old(docs)) - {id}
    {
      if i: nat :| i < |docs| && docs[i].docID == id && docs[i].Lacking() {
        if Collides(docs, docs[i]) {
          DropMigrates(docs, i);
          DropLeavesFewer(docs, i);
          docs := Drop(docs, i);
        } else {
          SetMigrates(docs, i);
          SetLeavesFewer(docs, i);
          docs := Set(docs, i);
        }
      }
    }

    method BackfillDeviceTokens()
      requires Valid(docs)
      modifies this
      ensures docs == Migrated(old(docs))
      ensures Valid(docs) && forall d | d in docs :: !d.Lacking()
      ensures forall identityKey :: ListDevices(docs, identityKey) == ListDevices(old(docs), identityKey)
      ensures (forall d | d in old(docs) :: !d.Lacking()) ==> docs == old(docs)
    {
      var duplicate := UpdateMany();
      if duplicate {
        var left := LackingIDs(docs);
        while left != {}
          invariant Valid(docs) && Migrated(docs) == Migrated(old(docs)) && LackingIDs(docs) <= left
          decreases left
        {
          var id :| id in left;
          BackfillOne(id);
          left := left - {id};
        }
      }
      LackingHaveIDs(docs);
      NothingLacksIsEnd(docs);
      forall identityKey ensures ListDevices(docs, identityKey) == ListDevices(old(docs), identityKey) {
        SameEndSameLists(old(docs), docs, identityKey);
      }
      if forall d | d in old(docs) :: !d.Lacking() {
        NothingLeft(old(docs), old(docs));
      }
    }
  }

  lemma SetLeavesFewer(docs: seq<Doc>, i: nat)
    requires Valid(docs) && i < |docs| && docs[i].Lacking()
    ensures LackingIDs(Set(docs, i)) == LackingIDs(docs) - {docs[i].docID}
    ensures docs[i].docID in LackingIDs(docs) && |LackingIDs(Set(docs, i))| < |LackingIDs(docs)|
  {
    var after := Set(docs, i);
    assert forall k | 0 <= k < |docs| && k != i :: after[k] == docs[k];
    assert docs[i].docID in LackingIDs(docs);
    forall x | x in LackingIDs(docs) - {docs[i].docID} ensures x in LackingIDs(after) {
      var k :| 0 <= k < |docs| && docs[k].Lacking() && docs[k].docID == x;
      assert after[k] == docs[k];
    }
    assert LackingIDs(after) == LackingIDs(docs) - {docs[i].docID};
  }

  lemma DropLeavesFewer(docs: seq<Doc>, i: nat)
    requires Valid(docs) && i < |docs| && docs[i].Lacking()
    ensures LackingIDs(Drop(docs, i)) == LackingIDs(docs) - {docs[i].docID}
  {
    var after := Drop(docs, i);
    assert forall k | 0 <= k < |after| :: after[k] == docs[if k < i then k else k + 1];
    forall x | x in LackingIDs(docs) - {docs[i].docID} ensures x in LackingIDs(after) {
      var k :| 0 <= k < |docs| && docs[k].Lacking() && docs[k].docID == x;
      assert after[if k < i then k else k - 1] == docs[k];
    }
  }
}
