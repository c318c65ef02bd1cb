/** Tiered search: the exact handle, then prefix, look-alike prefix and substring matches, ten in all. */
module Search {
  import opened Wrappers
  import opened Registry
  import Handles
  import Sizes
  import opened HandleStores
  import opened StringOrder

  const SEARCH_LIMIT := 10
  const SEARCH_MIN_LENGTH := 2
  const SUBSTRING_MINIMUM := 3

  datatype Field = HandleField | SkeletonField
  datatype Mode = Prefix | Contains
  datatype Match = Match(field: Field, mode: Mode, value: string)

  predicate IsPrefix(v: string, s: string) { |v| <= |s| && s[..|v|] == v }

  predicate IsSubstring(v: string, s: string) {
    exists i :: 0 <= i <= |s| && IsPrefix(v, s[i..])
  }

  predicate Matches(row: Row, m: Match) {
    var text := if m.field.SkeletonField? then row.skeleton else row.handle;
    row.Active() && if m.mode.Contains? then IsSubstring(m.value, text) else IsPrefix(m.value, text)
  }

  function MatchSet(t: Table, m: Match): set<string> {
    set h | h in t && Matches(t[h], m)
  }

  // --- handles in ascending order ----------------------------------------------------

  predicate IsLeast(h: string, hs: set<string>) {
    h in hs && forall g | g in hs :: g == h || Less(h, g)
  }

  lemma {:induction false} LeastExists(hs: set<string>)
    requires hs != {}
    ensures exists h :: IsLeast(h, hs)
  {
    var g :| g in hs;
    if hs - {g} == {} {
      assert hs == {g};
      assert IsLeast(g, hs);
    } else {
      LeastExists(hs - {g});
      var rest :| IsLeast(rest, hs - {g});
      LessIsTotal(rest, g);
      if Less(g, rest) {
        forall x | x in hs ensures x == g || Less(g, x) {
          if x != g && x != rest {
            assert x in hs - {g};
            LessIsTransitive(g, rest, x);
          }
        }
        assert IsLeast(g, hs);
      } else {
        assert IsLeast(rest, hs);
      }
    }
  }

  ghost function Least(hs: set<string>): (h: string)
    requires hs != {}
    ensures IsLeast(h, hs)
  {
    LeastExists(hs);
    var h :| IsLeast(h, hs);
    h
  }

  /** The n least of hs, in ascending order. */
  ghost function Smallest(hs: set<string>, n: nat): seq<string>
    decreases n
  {
    if hs == {} || n == 0 then []
    else
      var least := Least(hs);
      [least] + Smallest(hs - {least}, n - 1)
  }

  /** At most n of hs and all of it if they fit, strictly ascending, and nothing left out precedes anything listed. */
  lemma {:induction false} SmallestAreFirst(hs: set<string>, n: nat)
    ensures var r := Smallest(hs, n);
            && |r| <= n && (forall h | h in r :: h in hs)
            && (|r| < n ==> forall h | h in hs :: h in r)
            && (forall i, j | 0 <= i < j < |r| :: Less(r[i], r[j]))
            && (forall h, g | h in r && g in hs && g !in r :: Less(h, g))
    decreases n
  {
    if hs != {} && n > 0 {
      SmallestAreFirst(hs - {Least(hs)}, n - 1);
    }
  }

  lemma SmallestStep(hs: set<string>, n: nat, h: string)
    requires IsLeast(h, hs) && n > 0
    ensures Smallest(hs, n) == [h] + Smallest(hs - {h}, n - 1)
  {
    LessIsTotal(h, Least(hs));
  }

  ghost function FindHandles(t: Table, m: Match): seq<string> {
    Smallest(MatchSet(t, m), SEARCH_LIMIT)
  }

  /** The rows of the handles listed. */
  ghost predicate RowsOf(t: Table, hs: seq<string>, recs: seq<Row>) {
    |recs| == |hs| && forall i | 0 <= i < |hs| :: hs[i] in t && recs[i] == t[hs[i]]
  }

  method TakeSmallest(hs: set<string>, limit: nat) returns (r: seq<string>)
    ensures r == Smallest(hs, limit)
  {
    var left := hs;
    r := [];
    while left != {} && |r| < limit
      invariant |r| <= limit && Smallest(hs, limit) == r + Smallest(left, limit - |r|)
      decreases limit - |r|
    {
      LeastExists(left);
      var h :| h in left && IsLeast(h, left);
      SmallestStep(left, limit - |r|, h);
      ghost var rest := Smallest(left - {h}, limit - |r| - 1);
      assert r + ([h] + rest) == (r + [h]) + rest;
      r, left := r + [h], left - {h};
    }
  }

  lemma FoundAreActive(t: Table, m: Match)
    ensures forall h | h in FindHandles(t, m) :: h in t && Matches(t[h], m)
  {
    SmallestAreFirst(MatchSet(t, m), SEARCH_LIMIT);
    forall h | h in FindHandles(t, m) ensures h in t && Matches(t[h], m) {
      assert h in MatchSet(t, m);
    }
  }

  method RowsAt(t: Table, hs: seq<string>) returns (recs: seq<Row>)
    requires forall h | h in hs :: h in t
    ensures RowsOf(t, hs, recs)
  {
    recs := [];
    for i := 0 to |hs|
      invariant |recs| == i && forall k | 0 <= k < i :: hs[k] in t && recs[k] == t[hs[k]]
    {
      recs := recs + [t[hs[i]]];
    }
  }

  method FindRows(t: Table, m: Match) returns (recs: seq<Row>)
    ensures RowsOf(t, FindHandles(t, m), recs)
  {
    FoundAreActive(t, m);
    var hs := TakeSmallest(MatchSet(t, m), SEARCH_LIMIT);
    recs := RowsAt(t, hs);
  }

  // --- the search ----------------------------------------------------------------------

  /** The matches to try, best first. */
  function SearchTiers(q: string): seq<Match> {
    var sk := Handles.Skeleton(q);
    [Match(HandleField, Prefix, q)]
    + (if |sk| >= SEARCH_MIN_LENGTH then [Match(SkeletonField, Prefix, sk)] else [])
    + (if |q| >= SUBSTRING_MINIMUM then [Match(HandleField, Contains, q)] else [])
  }

  /** Adds what is new while there is room. */
  function AddAll(found: seq<string>, hs: seq<string>): seq<string>
    decreases hs
  {
    if hs == [] then found
    else AddAll(if hs[0] !in found && |found| < SEARCH_LIMIT then found + [hs[0]] else found, hs[1..])
  }

  /** The handles found once the exact match and the first k tiers have been added. */
  ghost function FoundAfter(t: Table, q: string, k: nat): seq<string>
    requires k <= |SearchTiers(q)|
  {
    if k == 0 then if q in t && t[q].Active() then [q] else []
    else AddAll(FoundAfter(t, q, k - 1), FindHandles(t, SearchTiers(q)[k - 1]))
  }

  ghost function Found(t: Table, q: string): seq<string> {
    FoundAfter(t, q, |SearchTiers(q)|)
  }

  // --- what a search finds -----------------------------------------------------------------

  ghost predicate Distinct(s: seq<string>) {
    forall i, j | 0 <= i < j < |s| :: s[i] != s[j]
  }

  lemma {:induction false} AddAllAdds(found: seq<string>, hs: seq<string>)
    requires Distinct(found) && |found| <= SEARCH_LIMIT
    ensures var r := AddAll(found, hs);
            && Distinct(r) && |found| <= |r| <= SEARCH_LIMIT && r[..|found|] == found
            && (forall h | h in r :: h in found || h in hs)
            && (|r| < SEARCH_LIMIT ==> forall h | h in hs :: h in r)
            && (|found| == SEARCH_LIMIT ==> r == found)
    decreases hs
  {
    if hs != [] {
      var next := if hs[0] !in found && |found| < SEARCH_LIMIT then found + [hs[0]] else found;
      AddAllAdds(next, hs[1..]);
      assert next[..|found|] == found;
      assert AddAll(found, hs)[..|found|] == AddAll(found, hs)[..|next|][..|found|];
    }
  }

  /** g is the exact match, or one of the first k tiers matches it. */
  ghost predicate MatchedWithin(t: Table, q: string, k: nat, g: string)
    requires k <= |SearchTiers(q)|
  {
    g in t && t[g].Active() && (g == q || exists i :: 0 <= i < k && Matches(t[g], SearchTiers(q)[i]))
  }

  lemma MatchedByOneMore(t: Table, q: string, j: nat, k: nat, h: string)
    requires k == j + 1 <= |SearchTiers(q)|
    ensures MatchedWithin(t, q, k, h) <==> MatchedWithin(t, q, j, h) || h in MatchSet(t, SearchTiers(q)[j])
  {
  }

  lemma NothingElseAdded(before: seq<string>, hs: seq<string>)
    requires Distinct(before) && |before| <= SEARCH_LIMIT
    ensures forall h | h in AddAll(before, hs) :: h in before || h in hs
  {
    AddAllAdds(before, hs);
  }

  lemma FoundAreMatched(t: Table, m: Match)
    ensures forall h | h in FindHandles(t, m) :: h in MatchSet(t, m)
  {
    SmallestAreFirst(MatchSet(t, m), SEARCH_LIMIT);
  }

  /** What one more tier adds is matched by it. */
  lemma StageMatches(t: Table, q: string, j: nat, k: nat)
    requires k == j + 1 <= |SearchTiers(q)|
    requires Distinct(FoundAfter(t, q, j)) && |FoundAfter(t, q, j)| <= SEARCH_LIMIT
    requires forall h | h in FoundAfter(t, q, j) :: MatchedWithin(t, q, j, h)
    ensures forall h | h in FoundAfter(t, q, k) :: MatchedWithin(t, q, k, h)
  {
    var before, m := FoundAfter(t, q, j), SearchTiers(q)[j];
    NothingElseAdded(before, FindHandles(t, m));
    FoundAreMatched(t, m);
    forall h | h in FoundAfter(t, q, k) ensures MatchedWithin(t, q, k, h) {
      MatchedByOneMore(t, q, j, k, h);
    }
  }

  /** A list with room left has all it was given. */
  lemma RoomMeansAll(before: seq<string>, hs: seq<string>)
    requires Distinct(before) && |before| <= SEARCH_LIMIT && |AddAll(before, hs)| < SEARCH_LIMIT
    ensures forall h | h in before || h in hs :: h in AddAll(before, hs)
  {
    AddAllAdds(before, hs);
    var r := AddAll(before, hs);
    assert forall h | h in before :: h in r[..|before|];
  }

  /** A list still short after one more tier has missed nothing the tier matches. */
  lemma StageMissesNothing(t: Table, q: string, j: nat, k: nat)
    requires k == j + 1 <= |SearchTiers(q)|
    requires Distinct(FoundAfter(t, q, j)) && |FoundAfter(t, q, k)| < SEARCH_LIMIT
    requires |FoundAfter(t, q, j)| < SEARCH_LIMIT
    requires forall h | MatchedWithin(t, q, j, h) :: h in FoundAfter(t, q, j)
    ensures forall h | MatchedWithin(t, q, k, h) :: h in FoundAfter(t, q, k)
  {
    var before, m := FoundAfter(t, q, j), SearchTiers(q)[j];
    RoomMeansAll(before, FindHandles(t, m));
    ShortListIsWhole(before, FindHandles(t, m), t, m);
    forall h | MatchedWithin(t, q, k, h) ensures h in FoundAfter(t, q, k) {
      MatchedByOneMore(t, q, j, k, h);
    }
  }

  /** After any number of tiers: distinct, at most ten, nothing unmatched, and nothing missed unless full. */
  lemma {:induction false} StageFinds(t: Table, q: string, k: nat)
    requires k <= |SearchTiers(q)|
    ensures var r := FoundAfter(t, q, k);
            && Distinct(r) && |r| <= SEARCH_LIMIT
            && (forall h | h in r :: MatchedWithin(t, q, k, h))
            && (|r| < SEARCH_LIMIT ==> forall h | MatchedWithin(t, q, k, h) :: h in r)
            && (q in t && t[q].Active() ==> r != [] && r[0] == q)
  {
    if k == 0 {
      assert forall h | MatchedWithin(t, q, 0, h) :: h == q;
    } else {
      StageFinds(t, q, k - 1);
      AddAllAdds(FoundAfter(t, q, k - 1), FindHandles(t, SearchTiers(q)[k - 1]));
      StageMatches(t, q, k - 1, k);
      if |FoundAfter(t, q, k)| < SEARCH_LIMIT { StageMissesNothing(t, q, k - 1, k); }
    }
  }

  ghost predicate IsAscending(s: seq<string>, from: nat) {
    forall i, j | from <= i < j < |s| :: Less(s[i], s[j])
  }

  /** What is added from a list in order is in order. */
  lemma {:induction false} AddedInOrder(found: seq<string>, hs: seq<string>, from: nat)
    requires Distinct(found) && |found| <= SEARCH_LIMIT && from <= |found|
    requires IsAscending(found, from) && IsAscending(hs, 0)
    requires forall i, j | from <= i < |found| && 0 <= j < |hs| && hs[j] !in found :: Less(found[i], hs[j])
    ensures IsAscending(AddAll(found, hs), from)
    decreases hs
  {
    if hs != [] {
      var next := if hs[0] !in found && |found| < SEARCH_LIMIT then found + [hs[0]] else found;
      forall i, j | from <= i < |next| && 0 <= j < |hs[1..]| && hs[1..][j] !in next ensures Less(next[i], hs[1..][j]) {
        assert hs[1..][j] == hs[j + 1] && Less(hs[0], hs[j + 1]);
        assert forall x :: x in found ==> x in next;
      }
      AddedInOrder(next, hs[1..], from);
    }
  }

  /** What one tier adds comes after all the better tiers found, in dictionary order. */
  lemma StageAscends(t: Table, q: string, k: nat)
    requires 0 < k <= |SearchTiers(q)|
    ensures var before, r := FoundAfter(t, q, k - 1), FoundAfter(t, q, k);
            before <= r && IsAscending(r, |before|)
  {
    StageExtends(t, q, k - 1, k);
    StageFinds(t, q, k - 1);
    SmallestAreFirst(MatchSet(t, SearchTiers(q)[k - 1]), SEARCH_LIMIT);
    AddedInOrder(FoundAfter(t, q, k - 1), FindHandles(t, SearchTiers(q)[k - 1]), |FoundAfter(t, q, k - 1)|);
  }

  /** A tier query cut at ten cannot leave fewer than ten found: cut short or not, it has missed nothing. */
  lemma ShortListIsWhole(before: seq<string>, hs: seq<string>, t: Table, m: Match)
    requires Distinct(before) && |before| <= SEARCH_LIMIT
    requires hs == FindHandles(t, m) && |AddAll(before, hs)| < SEARCH_LIMIT
    ensures forall h | h in MatchSet(t, m) :: h in hs
  {
    AddAllAdds(before, hs);
    SmallestAreFirst(MatchSet(t, m), SEARCH_LIMIT);
    var r := AddAll(before, hs);
    assert Distinct(hs) by {
      forall i, j | 0 <= i < j < |hs| ensures hs[i] != hs[j] { LessIsTotal(hs[i], hs[j]); }
    }
    SubsetNoLonger(hs, r);
  }

  lemma SubsetNoLonger(a: seq<string>, b: seq<string>)
    requires Distinct(a) && forall h | h in a :: h in b
    ensures |a| <= |b|
  {
    DistinctSize(a);
    ElementsBound(b);
    assert (set h | h in a) <= (set h | h in b);
    Sizes.SubsetIsNoLarger(set h | h in a, set h | h in b);
  }

  lemma {:induction false} DistinctSize(a: seq<string>)
    requires Distinct(a)
    ensures |set h | h in a| == |a|
  {
    if a != [] {
      DistinctSize(a[1..]);
      assert (set h | h in a) == {a[0]} + (set h | h in a[1..]);
    }
  }

  lemma {:induction false} ElementsBound(b: seq<string>)
    ensures |set h | h in b| <= |b|
  {
    if b != [] {
      ElementsBound(b[1..]);
      assert (set h | h in b) == {b[0]} + (set h | h in b[1..]);
    }
  }

  /** The first k tiers' handles lead: a later tier adds to them and never replaces one. */
  lemma StageExtends(t: Table, q: string, j: nat, k: nat)
    requires k == j + 1 <= |SearchTiers(q)|
    ensures FoundAfter(t, q, j) <= FoundAfter(t, q, k)
    ensures |FoundAfter(t, q, j)| == SEARCH_LIMIT ==> FoundAfter(t, q, k) == FoundAfter(t, q, j)
  {
    StageFinds(t, q, j);
    AddAllAdds(FoundAfter(t, q, j), FindHandles(t, SearchTiers(q)[j]));
  }

  /** Stages that each extend the one before, and stop at the limit, extend each other all along. */
  lemma {:induction false} StagesInOrder(stages: seq<seq<string>>, i: nat, k: nat)
    requires i <= k < |stages|
    requires forall j | 0 <= j < |stages| - 1 :: stages[j] <= stages[j + 1]
    requires forall j | 0 <= j < |stages| - 1 && |stages[j]| == SEARCH_LIMIT :: stages[j + 1] == stages[j]
    ensures stages[i] <= stages[k] && (|stages[i]| == SEARCH_LIMIT ==> stages[k] == stages[i])
  {
    if i < k {
      StagesInOrder(stages, i, k - 1);
      assert stages[k - 1] <= stages[k - 1 + 1];
    }
  }

  lemma StagesExtend(t: Table, q: string, i: nat, k: nat)
    requires i <= k <= |SearchTiers(q)|
    ensures FoundAfter(t, q, i) <= FoundAfter(t, q, k)
    ensures |FoundAfter(t, q, i)| == SEARCH_LIMIT ==> FoundAfter(t, q, k) == FoundAfter(t, q, i)
  {
    var n := |SearchTiers(q)|;
    var stages := seq(n + 1, j requires 0 <= j <= n => FoundAfter(t, q, j));
    forall j | 0 <= j < n
      ensures stages[j] <= stages[j + 1] && (|stages[j]| == SEARCH_LIMIT ==> stages[j + 1] == stages[j])
    {
      StageExtends(t, q, j, j + 1);
    }
    StagesInOrder(stages, i, k);
  }

  /** A matching handle is left out only when ten at least as good were found. */
  lemma NothingBetterIsMissed(t: Table, q: string, k: nat, g: string)
    requires k <= |SearchTiers(q)| && MatchedWithin(t, q, k, g) && g !in Found(t, q)
    ensures |Found(t, q)| == SEARCH_LIMIT
    ensures forall h | h in Found(t, q) :: MatchedWithin(t, q, k, h)
  {
    StageFinds(t, q, k);
    StagesExtend(t, q, k, |SearchTiers(q)|);
  }

  // --- what a search is for, in its own words ---------------------------------------------------

  /**
   g is a held handle that begins with q, or whose skeleton begins with q's, which has two characters, or that has q,
   of three, somewhere in it.
   */
  ghost predicate Answers(t: Table, q: string, g: string) {
    && g in t && t[g].identityKey.Some?
    && (|| g == q
        || (exists b :: t[g].handle == q + b)
        || (|Handles.Skeleton(q)| >= 2 && exists b :: t[g].skeleton == Handles.Skeleton(q) + b)
        || (|q| >= 3 && exists a, b :: t[g].handle == a + q + b))
  }

  lemma PrefixIff(v: string, s: string)
    ensures IsPrefix(v, s) <==> exists b :: s == v + b
  {
    if IsPrefix(v, s) { assert s == v + s[|v|..]; }
  }

  lemma SubstringIff(v: string, s: string)
    ensures IsSubstring(v, s) <==> exists a, b :: s == a + v + b
  {
    if IsSubstring(v, s) {
      var i :| 0 <= i <= |s| && IsPrefix(v, s[i..]);
      assert s == s[..i] + v + s[i..][|v|..];
    }
    if a, b :| s == a + v + b {
      assert s[|a|..] == v + b && IsPrefix(v, s[|a|..]);
    }
  }

  /** A tier's match, by its place among the tiers. */
  lemma TierMatches(q: string, row: Row, i: nat)
    requires i < |SearchTiers(q)|
    ensures var sk, n := Handles.Skeleton(q), |SearchTiers(q)|;
            && n == 1 + (if |sk| >= 2 then 1 else 0) + (if |q| >= 3 then 1 else 0)
            && (Matches(row, SearchTiers(q)[i]) <==>
                  && row.identityKey.Some?
                  && (if i == 0 then IsPrefix(q, row.handle)
                      else if i == 1 && |sk| >= 2 then IsPrefix(sk, row.skeleton)
                      else IsSubstring(q, row.handle)))
  {
  }

  /** A search matches exactly what answers it. */
  lemma MatchedIffAnswers(t: Table, q: string, g: string)
    ensures MatchedWithin(t, q, |SearchTiers(q)|, g) <==> Answers(t, q, g)
  {
    if g in t {
      var sk, n := Handles.Skeleton(q), |SearchTiers(q)|;
      PrefixIff(q, t[g].handle);
      PrefixIff(sk, t[g].skeleton);
      SubstringIff(q, t[g].handle);
      forall i: nat | i < n
        ensures Matches(t[g], SearchTiers(q)[i]) <==>
                  && t[g].identityKey.Some?
                  && (if i == 0 then IsPrefix(q, t[g].handle)
                      else if i == 1 && |sk| >= 2 then IsPrefix(sk, t[g].skeleton)
                      else IsSubstring(q, t[g].handle))
      {
        TierMatches(q, t[g], i);
      }
      if t[g].identityKey.Some? && IsPrefix(q, t[g].handle) { assert Matches(t[g], SearchTiers(q)[0]); }
      if t[g].identityKey.Some? && |sk| >= 2 && IsPrefix(sk, t[g].skeleton) { assert Matches(t[g], SearchTiers(q)[1]); }
      if t[g].identityKey.Some? && |q| >= 3 && IsSubstring(q, t[g].handle) {
        assert Matches(t[g], SearchTiers(q)[n - 1]);
      }
    }
  }

  /**
   What a search returns: at most ten held handles, each once, all of which answer it, the exact one first; all there
   are, if there are fewer than ten; and none that merely looks alike or has q inside while one that begins with q is
   left out.
   */
  lemma FoundIs(t: Table, q: string)
    ensures var r := Found(t, q);
            && |r| <= 10 && Distinct(r) && (forall h | h in r :: Answers(t, q, h))
            && (|r| < 10 ==> forall g | Answers(t, q, g) :: g in r)
            && (q in t && t[q].identityKey.Some? ==> r != [] && r[0] == q)
            && (forall g | g in t && t[g].identityKey.Some? && (exists b :: t[g].handle == q + b) && g !in r ::
                  forall h | h in r :: h == q || IsPrefix(q, t[h].handle))
  {
    var n := |SearchTiers(q)|;
    StageFinds(t, q, n);
    forall g ensures MatchedWithin(t, q, n, g) <==> Answers(t, q, g) { MatchedIffAnswers(t, q, g); }
    forall g | g in t && t[g].identityKey.Some? && (exists b :: t[g].handle == q + b) && g !in Found(t, q)
      ensures forall h | h in Found(t, q) :: h == q || IsPrefix(q, t[h].handle)
    {
      PrefixIff(q, t[g].handle);
      TierMatches(q, t[g], 0);
      assert MatchedWithin(t, q, 1, g);
      NothingBetterIsMissed(t, q, 1, g);
      forall h | h in Found(t, q) ensures h == q || IsPrefix(q, t[h].handle) {
        assert MatchedWithin(t, q, 1, h);
        if h != q { TierMatches(q, t[h], 0); }
      }
    }
  }

  /** The certificates of the handles found. */
  ghost predicate CertsOf(t: Table, hs: seq<string>, certs: seq<string>) {
    |certs| == |hs| && forall i | 0 <= i < |hs| :: hs[i] in t && t[hs[i]].certificate == Some(certs[i])
  }

  /** What the search has collected: the certificates of the handles found, and which handles those are. */
  ghost predicate Collected(t: Table, found: seq<string>, certs: seq<string>, seen: set<string>) {
    CertsOf(t, found, certs) && forall h :: h in seen <==> h in found
  }

  /** Adds one tier's rows in order, skipping those already seen, while there is room. */
  method AddRows(t: Table, ghost found0: seq<string>, certs0: seq<string>, seen0: set<string>, recs: seq<Row>,
                 ghost hs: seq<string>)
    returns (certs: seq<string>, seen: set<string>, ghost found: seq<string>)
    requires RowsOk(t) && Collected(t, found0, certs0, seen0)
    requires RowsOf(t, hs, recs) && forall h | h in hs :: t[h].Active()
    ensures found == AddAll(found0, hs) && Collected(t, AddAll(found0, hs), certs, seen)
  {
    certs, seen, found := certs0, seen0, found0;
    for i := 0 to |recs|
      invariant AddAll(found, hs[i..]) == AddAll(found0, hs)
      invariant Collected(t, found, certs, seen)
    {
      assert hs[i..][1..] == hs[i + 1..] && hs[i] in hs;
      if recs[i].handle !in seen && recs[i].certificate.Some? && |certs| < SEARCH_LIMIT {
        seen, certs, found := seen + {recs[i].handle}, certs + [recs[i].certificate.value], found + [hs[i]];
      }
    }
  }

  /** The search as it runs: it stops as soon as ten are found, and returns their certificates. */
  method Find(store: HandleStore, q: string) returns (certs: seq<string>)
    requires store.Valid()
    ensures CertsOf(store.rows, Found(store.rows, q), certs)
  {
    var t := store.rows;
    certs := [];
    ghost var found: seq<string> := [];
    var seen: set<string> := {};
    if q in t && t[q].Active() {
      seen, certs, found := {q}, [t[q].certificate.value], [q];
    }
    var tiers := SearchTiers(q);
    var k := 0;
    while k < |tiers| && |certs| < SEARCH_LIMIT
      invariant k <= |tiers| && found == FoundAfter(t, q, k)
      invariant Collected(t, found, certs, seen)
    {
      ghost var hs := FindHandles(t, tiers[k]);
      FoundAreActive(t, tiers[k]);
      var recs := FindRows(t, tiers[k]);
      certs, seen, found := AddRows(t, found, certs, seen, recs, hs);
      k := k + 1;
    }
    StageFinds(t, q, k);
    StagesExtend(t, q, k, |tiers|);
  }
}
