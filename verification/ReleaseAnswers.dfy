/** What a release's answer says about the registry its write met, and exactly when the answer can be false. */
module ReleaseAnswers {
  import opened Wrappers
  import opened Registry
  import RegistryLaws
  import opened ClaimProtocol
  import opened ClaimSteps
  import opened ClaimRuns
  import opened ClaimAnswers
  import opened ClaimAlone

  ghost predicate HeldByOwner(t: Table, r: Release) {
    r.handle in t && t[r.handle].Active() && t[r.handle].identityKey == r.owner
  }

  /** The owner holds the handle under a certificate the tombstone does not beat. */
  ghost predicate TombstoneStale(t: Table, r: Release) {
    HeldByOwner(t, r) && r.issuedAt.Some? && r.issuedAt.value <= t[r.handle].issuedAt
  }

  ghost predicate ReleaseTrue(t: Table, r: Release, o: ReleaseOutcome) {
    match o
    case NotFound => r.handle !in t || (!t[r.handle].Active() && !ReleaseAlreadyApplied(t[r.handle], r))
    case AlreadyApplied => r.handle in t && !t[r.handle].Active() && ReleaseAlreadyApplied(t[r.handle], r)
    case NotOwner => r.handle in t && t[r.handle].Active() && t[r.handle].identityKey != r.owner
    case StaleTombstone => TombstoneStale(t, r)
    case AppliedNowhere => false
    case _ => true
  }

  ghost predicate ReleaseWasTrue(states: seq<System>, n: nat, id: nat, r: Release, o: ReleaseOutcome)
    requires n <= |states|
  {
    exists j :: 0 <= j < n && Running(states[j], id) && ReleaseTrue(states[j].table, r, o)
  }

  // --- the write and the read of one release -------------------------------------

  /** Step k is the one write of release r by call id. */
  ghost predicate WritesAt(states: seq<System>, steps: seq<Step>, k: nat, id: nat, r: Release)
    requires k < |steps| && |states| == |steps| + 1
  {
    steps[k].Advance? && steps[k].id == id && id in states[k].calls && states[k].calls[id] == Parting(r, Releasing)
  }

  /** At states[m] call id reads release r's row, and answers o. */
  ghost predicate ReadsAt(states: seq<System>, m: nat, id: nat, r: Release, o: ReleaseOutcome)
    requires m < |states|
  {
    && id in states[m].calls && states[m].calls[id] == Parting(r, ReadingRow)
    && o == DiagnoseRelease(GetHandle(states[m].table, r.handle), r)
  }

  /** A release that is not applied had its write refused, and then, maybe much later, read the row it answers from. */
  lemma {:induction false} WroteThenRead(states: seq<System>, steps: seq<Step>, n: nat, id: nat)
    returns (k: nat, m: nat)
    requires IsRun(states, steps) && n < |states| && id in states[n].calls && states[n].calls[id].Parting?
    requires var stage := states[n].calls[id].stage;
             stage.ReadingRow? || (stage.Ended? && !stage.outcome.Applied? && !stage.outcome.InvalidRelease?)
    ensures var r, stage := states[n].calls[id].release, states[n].calls[id].stage;
            && k < m <= n && WritesAt(states, steps, k, id, r) && !ReleaseGuard(states[k].table, r)
            && (stage.Ended? ==> m < n && ReadsAt(states, m, id, r, stage.outcome))
  {
    var before, call := states[n - 1], states[n].calls[id];
    ReachableInv(states, steps, n - 1);
    assert states[n - 1 + 1] == Next(before, steps[n - 1]);
    assert id in before.calls;
    NextKeepsCall(before, steps[n - 1], id);
    if before.calls[id] == call {
      k, m := WroteThenRead(states, steps, n - 1, id);
      m := if call.stage.Ended? then m else n;
    } else if call.stage.ReadingRow? {
      k, m := n - 1, n;
    } else {
      k, m := WroteThenRead(states, steps, n - 1, id);
      m := n - 1;
    }
  }

  /** A handle nobody held is held only once a claim has landed on it. */
  lemma {:induction false} HeldOnceClaimed(states: seq<System>, steps: seq<Step>, k: nat, m: nat, h: string)
    requires IsRun(states, steps) && k <= m < |states| && h in states[m].table && states[m].table[h].Active()
    ensures (&& h in states[k].table && states[k].table[h].Active()
             && states[k].table[h].identityKey == states[m].table[h].identityKey)
            || exists j :: k <= j < m && ClaimLands(states, steps, j, h)
  {
    if k < m {
      StepMovesRow(states, steps, m - 1, h);
      if !ClaimLands(states, steps, m - 1, h) {
        HeldOnceClaimed(states, steps, k, m - 1, h);
      }
    }
  }

  /**
   What an answer says of the two moments of its call, the write at k and the read at m. Refusals are true of the
   row that was read. "Stale" is true of the write or of the read, or else the owner did not hold the handle at the
   write and a claim landed in between. "Applied nowhere" is never true: the handle was free at the write, where
   "not found" would have been true, and a claim landed in between.
   */
  lemma ReleaseAnswersWereTrue(states: seq<System>, steps: seq<Step>, n: nat, id: nat) returns (k: nat, m: nat)
    requires IsRun(states, steps) && n < |states| && id in states[n].calls && states[n].calls[id].Parting?
    requires var stage := states[n].calls[id].stage;
             stage.Ended? && !stage.outcome.Applied? && !stage.outcome.InvalidRelease?
    ensures k < m < n && m < |states|
    ensures var r, o := states[n].calls[id].release, states[n].calls[id].stage.outcome;
            && WritesAt(states, steps, k, id, r) && ReadsAt(states, m, id, r, o)
            && (o.NotFound? || o.AlreadyApplied? || o.NotOwner? ==> ReleaseTrue(states[m].table, r, o))
            && (o.StaleTombstone? ==>
                  || ReleaseTrue(states[k].table, r, o) || ReleaseTrue(states[m].table, r, o)
                  || (!HeldByOwner(states[k].table, r)
                      && exists j :: k <= j < m && ClaimLands(states, steps, j, r.handle)))
            && (o.AppliedNowhere? ==>
                  && r.owner.None? && ReleaseTrue(states[k].table, r, NotFound)
                  && exists j :: k <= j < m && ClaimLands(states, steps, j, r.handle))
  {
    k, m := WroteThenRead(states, steps, n, id);
    CallsAreCut(states, steps, n, id);
    var r, o := states[n].calls[id].release, states[n].calls[id].stage.outcome;
    if o.StaleTombstone? || o.AppliedNowhere? { HeldOnceClaimed(states, steps, k, m, r.handle); }
  }

  // --- exactly when "stale" and "applied nowhere" are right ------------------------

  /** A run in which release r's write met registry t and which then answers it with o. */
  ghost predicate Answers(states: seq<System>, steps: seq<Step>, k: nat, n: nat, id: nat, t: Table, r: Release,
                          o: ReleaseOutcome)
  {
    && IsRun(states, steps) && k < n < |states|
    && WritesAt(states, steps, k, id, r) && states[k].table == t
    && id in states[n].calls && states[n].calls[id] == Parting(r, Ended(o))
  }

  /** However the run goes on, an answer o to a release whose write met t is true at some moment of the call. */
  ghost predicate AlwaysRight(t: Table, r: Release, o: ReleaseOutcome) {
    forall states, steps, k: nat, n: nat, id: nat | Answers(states, steps, k, n, id, t, r, o) ::
      ReleaseWasTrue(states, n, id, r, o)
  }

  lemma {:induction false} OneWrite(states: seq<System>, steps: seq<Step>, i: nat, k: nat, id: nat, r: Release)
    requires IsRun(states, steps) && i < k < |steps| && WritesAt(states, steps, i, id, r)
    ensures id in states[k].calls && !WritesAt(states, steps, k, id, r)
    ensures states[k].calls[id].Parting? && !states[k].calls[id].stage.Releasing?
  {
    ReachableInv(states, steps, k - 1);
    assert states[k - 1 + 1] == Next(states[k - 1], steps[k - 1]);
    if i < k - 1 {
      OneWrite(states, steps, i, k - 1, id, r);
    }
    NextKeepsCall(states[k - 1], steps[k - 1], id);
  }

  /** The write found in a run is the one the answer is about. */
  lemma WriteIsUnique(states: seq<System>, steps: seq<Step>, i: nat, k: nat, id: nat, r: Release)
    requires IsRun(states, steps) && i < |steps| && k < |steps|
    requires WritesAt(states, steps, i, id, r) && WritesAt(states, steps, k, id, r)
    ensures i == k
  {
    if i < k { OneWrite(states, steps, i, k, id, r); }
    if k < i { OneWrite(states, steps, k, i, id, r); }
  }

  /** A certificate that lands less than two milliseconds below the tombstone does not fall below it. */
  lemma LandedSince(states: seq<System>, steps: seq<Step>, k: nat, m: nat, h: string, at: int)
    requires IsRun(states, steps) && k <= m < |states| && h in states[k].table
    requires at % NANOS_PER_MILLI == 0 && at <= states[k].table[h].issuedAt + NANOS_PER_MILLI
    requires exists j :: k <= j < m && ClaimLands(states, steps, j, h)
    ensures h in states[m].table && at <= states[m].table[h].issuedAt
  {
    var j :| k <= j < m && ClaimLands(states, steps, j, h);
    RowsPersist(states, steps, k, j, h);
    StepMovesRow(states, steps, j, h);
    CallsAreCut(states, steps, j, steps[j].id);
    RowsPersist(states, steps, j + 1, m, h);
    NextMilli(states[j].table[h].issuedAt, states[j + 1].table[h].issuedAt, at);
  }

  lemma NextMilli(was: int, next: int, at: int)
    requires MsUTC(next) == next && at % NANOS_PER_MILLI == 0 && was < next && at <= was + NANOS_PER_MILLI
    ensures at <= next
  {
    assert next % NANOS_PER_MILLI == 0;
    assert (next - at) % NANOS_PER_MILLI == 0;
  }

  /**
   An owner's tombstone told "stale" is told so rightly if the row its write met was no more than a millisecond behind
   it.
   */
  lemma StaleIsRight(states: seq<System>, steps: seq<Step>, k: nat, n: nat, id: nat, t: Table, r: Release)
    requires Answers(states, steps, k, n, id, t, r, StaleTombstone)
    requires r.handle in t && r.issuedAt.Some? && r.issuedAt.value <= t[r.handle].issuedAt + NANOS_PER_MILLI
    ensures ReleaseWasTrue(states, n, id, r, StaleTombstone)
  {
    var i, m := ReleaseAnswersWereTrue(states, steps, n, id);
    WriteIsUnique(states, steps, i, k, id, r);
    assert Running(states[k], id) && Running(states[m], id);
    if !ReleaseTrue(t, r, StaleTombstone) && !ReleaseTrue(states[m].table, r, StaleTombstone) {
      CallsAreCut(states, steps, n, id);
      LandedSince(states, steps, k, m, r.handle, r.issuedAt.value);
    }
  }

  // --- runs put together call by call ------------------------------------------------

  ghost function After(s: System, steps: seq<Step>): System {
    if steps == [] then s else Next(After(s, steps[..|steps| - 1]), steps[|steps| - 1])
  }

  ghost function States(s: System, steps: seq<Step>): seq<System> {
    seq(|steps| + 1, i requires 0 <= i <= |steps| => After(s, steps[..i]))
  }

  lemma StatesAreRun(s: System, steps: seq<Step>)
    requires Inv(s.table) && s.calls == map[]
    ensures IsRun(States(s, steps), steps) && States(s, steps)[|steps|] == After(s, steps)
  {
    assert steps[..|steps|] == steps;
    forall i | 0 <= i < |steps| ensures States(s, steps)[i + 1] == Next(States(s, steps)[i], steps[i]) {
      assert steps[..i + 1][..i] == steps[..i];
    }
  }

  lemma {:induction false} AfterBoth(s: System, a: seq<Step>, b: seq<Step>)
    ensures After(s, a + b) == After(After(s, a), b)
  {
    if b == [] {
      assert a + b == a;
    } else {
      var front := b[..|b| - 1];
      AfterBoth(s, a, front);
      assert (a + b)[..|a + b| - 1] == a + front;
    }
  }

  function Advances(id: nat, n: nat): seq<Step> { seq(n, _ => Advance(id, 0)) }

  /** Nothing but operations of one call take it where it gets to alone. */
  lemma {:induction false} AdvancesAlone(s: System, id: nat, n: nat)
    requires id in s.calls
    ensures var (call, t) := Alone(s.calls[id], s.table, 0, n);
            After(s, Advances(id, n)) == System(t, s.calls[id := call])
    decreases n
  {
    if n == 0 {
      assert s.calls[id := s.calls[id]] == s.calls;
    } else {
      var one := Next(s, Advance(id, 0));
      AdvancesAlone(one, id, n - 1);
      AfterBoth(s, [Advance(id, 0)], Advances(id, n - 1));
      assert Advances(id, n) == [Advance(id, 0)] + Advances(id, n - 1);
      assert After(s, [Advance(id, 0)]) == one;
      var call := Alone(s.calls[id], s.table, 0, n).0;
      assert one.calls[id := call] == s.calls[id := call];
    }
  }

  function ReleaseSteps(id: nat, r: Release): seq<Step> { [StartRelease(id, r)] + Advances(id, 2) }

  function ClaimStepsOf(id: nat, c: Claim): seq<Step> { [StartClaim(id, c)] + Advances(id, 6) }

  /** A whole release with nothing in between leaves the registry it decides on. */
  lemma ReleaseInRun(s: System, id: nat, r: Release)
    requires id !in s.calls && ValidRelease(r) && PinRelease(r) == r
    ensures var s' := After(s, ReleaseSteps(id, r));
            && s'.table == TableAfterRelease(s.table, r, 0) && s'.calls.Keys == s.calls.Keys + {id}
            && forall i | i in s.calls :: s'.calls[i] == s.calls[i]
  {
    AfterBoth(s, [StartRelease(id, r)], Advances(id, 2));
    AdvancesAlone(Next(s, StartRelease(id, r)), id, 2);
    assert After(s, [StartRelease(id, r)]) == Next(s, StartRelease(id, r));
    ReleaseAloneDecides(r, s.table, 0);
  }

  lemma ClaimInRun(s: System, id: nat, c: Claim)
    requires id !in s.calls && Inv(s.table) && Pin(c) == c
    ensures var s' := After(s, ClaimStepsOf(id, c));
            && s'.table == TableAfterClaim(s.table, c, 0) && s'.calls.Keys == s.calls.Keys + {id}
            && forall i | i in s.calls :: s'.calls[i] == s.calls[i]
  {
    AfterBoth(s, [StartClaim(id, c)], Advances(id, 6));
    AdvancesAlone(Next(s, StartClaim(id, c)), id, 6);
    assert After(s, [StartClaim(id, c)]) == Next(s, StartClaim(id, c));
    ClaimAloneDecides(c, s.table, 0, 6);
  }

  // --- the claim that comes between the write and the read ----------------------------

  /** An operator's release, with no cooldown. */
  function ByOperator(h: string): Release { Release(h, None, None, "operator", None, 0) }

  lemma {:induction false} LongerThanAll(ss: set<string>) returns (s: string)
    ensures forall x | x in ss :: |x| < |s|
  {
    if ss == {} {
      s := "";
    } else {
      var x :| x in ss;
      s := LongerThanAll(ss - {x});
      s := s + x + "x";
      forall y | y in ss ensures |y| < |s| { assert y == x || y in ss - {x}; }
    }
  }

  /** The registry once operators have released h and then whatever else key holds. */
  ghost function Cleared(t: Table, h: string, key: string): Table {
    var t1 := TableAfterRelease(t, ByOperator(h), 0);
    TableAfterRelease(t1, ByOperator(OtherHandle(t1, h, key)), 0)
  }

  ghost function OtherHandle(t: Table, h: string, key: string): string {
    if g :| HoldsKey(t, g, key) then g else h
  }

  lemma OperatorReleases(t: Table, h: string)
    requires Inv(t)
    ensures var t' := TableAfterRelease(t, ByOperator(h), 0);
            && Inv(t') && t'.Keys == t.Keys
            && (forall g | g in t :: t'[g].skeleton == t[g].skeleton && t'[g].issuedAt == t[g].issuedAt)
            && (forall g | g in t && g != h :: t'[g] == t[g])
            && (h in t ==> !t'[h].Active() && (t'[h] == t[h] || t'[h].cooldownUntil.None?))
  {
    if DecideRelease(t, ByOperator(h)).Applied? { RegistryLaws.ReleaseKeepsInv(t, ByOperator(h), 0); }
  }

  lemma ClearedFrees(t: Table, h: string, key: string)
    requires Inv(t)
    ensures var t' := Cleared(t, h, key);
            && Inv(t') && t'.Keys == t.Keys && !KeyHolds(t', key)
            && (forall g | g in t :: t'[g].skeleton == t[g].skeleton && t'[g].issuedAt == t[g].issuedAt)
            && (h in t ==> !t'[h].Active() && (t'[h].cooldownUntil == t[h].cooldownUntil || t'[h].cooldownUntil.None?))
  {
    OperatorReleases(t, h);
    var t1, t2 := TableAfterRelease(t, ByOperator(h), 0), Cleared(t, h, key);
    var other := OtherHandle(t1, h, key);
    OperatorReleases(t1, other);
    forall g | g in t2 ensures t2[g].identityKey != Some(key) {
      if HoldsKey(t1, g, key) { assert HoldsKey(t1, other, key) && g == other; }
    }
  }

  lemma FreeHandleIsCreated(t: Table, c: Claim)
    requires c.handle in t ==> !t[c.handle].Active() && t[c.handle].issuedAt < c.issuedAt
    requires !KeyHolds(t, c.identityKey) && !CoolingDown(GetHandle(t, c.handle), c) && !LooksLikeAnother(t, c)
    ensures Decide(t, c) == Created
  {
  }

  /** Then key is free to claim h, under any certificate newer than the row's. */
  lemma ClearedIsFree(t: Table, h: string, key: string, at: int) returns (c: Claim)
    requires Inv(t) && MsUTC(at) == at && (h in t ==> t[h].issuedAt < at)
    ensures Pin(c) == c && c.handle == h && c.identityKey == key && c.issuedAt == at
    ensures Inv(Cleared(t, h, key)) && Decide(Cleared(t, h, key), c) == Created
  {
    ClearedFrees(t, h, key);
    var t' := Cleared(t, h, key);
    var skeletons := set g | g in t :: t[g].skeleton;
    var longer := LongerThanAll(skeletons);
    var now := if h in t && t[h].cooldownUntil.Some? then MsUTC(t[h].cooldownUntil.value) + NANOS_PER_MILLI else 0;
    c := Claim(h, if h in t then t[h].skeleton else longer, key, "", "", at, now);
    forall g | g in t' && g != h ensures t'[g].skeleton != c.skeleton {
      assert t[g].skeleton in skeletons;
    }
    FreeHandleIsCreated(t', c);
  }

  function Waiting(t: Table, r: Release): System { System(t, map[0 := Parting(r, ReadingRow)]) }

  lemma WriteRefused(t: Table, r: Release)
    requires ValidRelease(r) && PinRelease(r) == r && !ReleaseGuard(t, r)
    ensures After(System(t, map[]), [StartRelease(0, r)]) == System(t, map[0 := Parting(r, Releasing)])
    ensures After(System(t, map[]), [StartRelease(0, r), Advance(0, 0)]) == Waiting(t, r)
  {
    var s0, start := System(t, map[]), [StartRelease(0, r)];
    assert After(s0, start) == Next(s0, StartRelease(0, r));
    assert [StartRelease(0, r), Advance(0, 0)][..1] == start;
  }

  /** While release r waits to read, its handle is cleared, and claimed by key under a certificate issued at at. */
  lemma ClaimedMeanwhile(t: Table, r: Release, key: string, at: int) returns (late: seq<Step>)
    requires Inv(t) && MsUTC(at) == at && (r.handle in t ==> t[r.handle].issuedAt < at)
    ensures var s := After(Waiting(t, r), late);
            && 0 in s.calls && s.calls[0] == Parting(r, ReadingRow)
            && r.handle in s.table && s.table[r.handle].identityKey == Some(key) && s.table[r.handle].issuedAt == at
  {
    var h := r.handle;
    var g := OtherHandle(TableAfterRelease(t, ByOperator(h), 0), h, key);
    var c := ClearedIsFree(t, h, key, at);
    var first, second, third := ReleaseSteps(1, ByOperator(h)), ReleaseSteps(2, ByOperator(g)), ClaimStepsOf(3, c);
    var s1 := Waiting(t, r);
    ReleaseInRun(s1, 1, ByOperator(h));
    var s2 := After(s1, first);
    ReleaseInRun(s2, 2, ByOperator(g));
    var s3 := After(s2, second);
    ClaimInRun(s3, 3, c);
    AfterBoth(s1, first, second);
    AfterBoth(s1, first + second, third);
    late := first + second + third;
  }

  /** Release r's write meets t, and its read meets the row key has claimed in the meantime. */
  lemma Overtaken(t: Table, r: Release, key: string, at: int)
    returns (states: seq<System>, steps: seq<Step>, o: ReleaseOutcome)
    requires Inv(t) && ValidRelease(r) && PinRelease(r) == r && !ReleaseGuard(t, r)
    requires MsUTC(at) == at && (r.handle in t ==> t[r.handle].issuedAt < at)
    ensures |steps| > 1 && Answers(states, steps, 1, |steps|, 0, t, r, o)
    ensures var last := states[|steps|].table;
            && r.handle in last && last[r.handle].identityKey == Some(key) && last[r.handle].issuedAt == at
            && o == DiagnoseRelease(Some(last[r.handle]), r)
  {
    var s0, refused, read := System(t, map[]), [StartRelease(0, r), Advance(0, 0)], [Advance(0, 0)];
    WriteRefused(t, r);
    var late := ClaimedMeanwhile(t, r, key, at);
    AfterBoth(s0, refused, late);
    AfterBoth(s0, refused + late, read);
    var s := After(Waiting(t, r), late);
    assert After(s, read) == Next(s, Advance(0, 0));
    steps := refused + late + read;
    states := States(s0, steps);
    StatesAreRun(s0, steps);
    assert steps[..1] == [StartRelease(0, r)];
    assert states[1] == After(s0, steps[..1]);
    o := DiagnoseRelease(Some(s.table[r.handle]), r);
  }

  /** A release whose write met a row it could release is applied. */
  lemma GuardMeansApplied(states: seq<System>, steps: seq<Step>, k: nat, n: nat, id: nat, t: Table, r: Release,
                          o: ReleaseOutcome)
    requires ReleaseGuard(t, r) && !o.Applied? && !o.InvalidRelease?
    ensures !Answers(states, steps, k, n, id, t, r, o)
  {
    if Answers(states, steps, k, n, id, t, r, o) {
      var i, m := WroteThenRead(states, steps, n, id);
      WriteIsUnique(states, steps, i, k, id, r);
    }
  }

  /**
   However the run goes on, an owner's tombstone told "stale" is told so rightly exactly when its write released the
   handle, or met a row of it issued at most a millisecond before the tombstone. Behind any other row there is room
   for one more certificate older than the tombstone, and the answer can be false.
   */
  lemma StaleIsRightIff(t: Table, r: Release)
    requires Inv(t) && ValidRelease(r) && PinRelease(r) == r && r.owner.Some?
    ensures AlwaysRight(t, r, StaleTombstone)
            <==> ReleaseGuard(t, r) || (r.handle in t && r.issuedAt.value <= t[r.handle].issuedAt + NANOS_PER_MILLI)
  {
    if ReleaseGuard(t, r) {
      forall states, steps, k: nat, n: nat, id: nat ensures !Answers(states, steps, k, n, id, t, r, StaleTombstone) {
        GuardMeansApplied(states, steps, k, n, id, t, r, StaleTombstone);
      }
    } else if r.handle in t && r.issuedAt.value <= t[r.handle].issuedAt + NANOS_PER_MILLI {
      forall states, steps, k: nat, n: nat, id: nat | Answers(states, steps, k, n, id, t, r, StaleTombstone)
        ensures ReleaseWasTrue(states, n, id, r, StaleTombstone)
      {
        StaleIsRight(states, steps, k, n, id, t, r);
      }
    } else {
      var states, steps, o := Overtaken(t, r, r.owner.value, r.issuedAt.value - NANOS_PER_MILLI);
      assert Answers(states, steps, 1, |steps|, 0, t, r, StaleTombstone);
      forall j | 0 <= j < |steps| ensures !TombstoneStale(states[j].table, r) {
        if r.handle in states[j].table { RowsPersist(states, steps, j, |steps|, r.handle); }
      }
    }
  }

  /**
   "Applied nowhere" is never right, so it is always right only where it is never given: exactly where the operator's
   write released the handle. Wherever it found nobody holding the handle, a claim can still come in before the read.
   */
  lemma AppliedNowhereIsRightIff(t: Table, r: Release)
    requires Inv(t) && ValidRelease(r) && PinRelease(r) == r && r.owner.None?
    ensures AlwaysRight(t, r, AppliedNowhere) <==> ReleaseGuard(t, r)
    ensures ReleaseGuard(t, r) <==> r.handle in t && t[r.handle].Active()
  {
    if ReleaseGuard(t, r) {
      forall states, steps, k: nat, n: nat, id: nat ensures !Answers(states, steps, k, n, id, t, r, AppliedNowhere) {
        GuardMeansApplied(states, steps, k, n, id, t, r, AppliedNowhere);
      }
    } else {
      var at := if r.handle in t then MsUTC(t[r.handle].issuedAt) + NANOS_PER_MILLI else 0;
      var states, steps, o := Overtaken(t, r, "key", at);
      assert Answers(states, steps, 1, |steps|, 0, t, r, AppliedNowhere);
    }
  }
}
