/** Which payment outputs go to which recipient: by tag where there is one, and otherwise by position. */
module Outputs {
  import opened Wrappers

  /** recipientKey is the key its instructions name, or "" when they name none or cannot be read. */
  datatype Output = Output(outputIndex: nat, recipientKey: string, data: string)

  datatype FeeRow = FeeRow(recipient: string, recipientFee: int, allowed: bool)

  // --- positions -----------------------------------------------------------------------------

  predicate Ascending(ps: seq<nat>, lo: nat, hi: nat) {
    && (forall i | 0 <= i < |ps| :: lo <= ps[i] < hi)
    && (forall i, j | 0 <= i < j < |ps| :: ps[i] < ps[j])
  }

  /** The kept positions from start up to n, in order. */
  function Keep(keep: set<nat>, start: nat, n: nat): (ps: seq<nat>)
    ensures Ascending(ps, start, n)
  {
    if n <= start then [] else Keep(keep, start, n - 1) + if n - 1 in keep then [n - 1] else []
  }

  lemma {:induction false} KeepHas(keep: set<nat>, start: nat, n: nat, p: nat)
    ensures p in Keep(keep, start, n) <==> start <= p < n && p in keep
  {
    if n > start { KeepHas(keep, start, n - 1, p); }
  }

  function Select(outputs: seq<Output>, ps: seq<nat>): seq<Output>
    requires forall i | 0 <= i < |ps| :: ps[i] < |outputs|
  {
    seq(|ps|, i requires 0 <= i < |ps| => outputs[ps[i]])
  }

  // --- the one allocation every branch amounts to ------------------------------------------

  /** The first output pays the delivery fee, if there is one. */
  function Start(outputs: seq<Output>, deliveryFee: int): (n: nat)
    ensures n <= |outputs|
    ensures deliveryFee > 0 ==> n == 1 || outputs == []
    ensures deliveryFee <= 0 ==> n == 0
  {
    if deliveryFee > 0 && |outputs| > 0 then 1 else 0
  }

  /** The recipients to be paid, in order and as often as they are listed. */
  function Payees(rows: seq<FeeRow>): seq<string> {
    if rows == [] then []
    else Payees(rows[..|rows| - 1]) + if rows[|rows| - 1].recipientFee > 0 then [rows[|rows| - 1].recipient] else []
  }

  function TagSet(outputs: seq<Output>, r: string): set<nat> {
    set p: nat | p < |outputs| && outputs[p].recipientKey != "" && outputs[p].recipientKey == r
  }

  function TaggedAt(outputs: seq<Output>, start: nat, r: string): seq<nat> {
    Keep(TagSet(outputs, r), start, |outputs|)
  }

  /** The output indexes that tagged outputs from start on claim. */
  function UsedIndexes(outputs: seq<Output>, start: nat): set<nat> {
    set p: nat | start <= p < |outputs| && outputs[p].recipientKey != "" :: outputs[p].outputIndex
  }

  function UnusedSet(outputs: seq<Output>, start: nat): set<nat> {
    set p: nat | p < |outputs| && outputs[p].outputIndex !in UsedIndexes(outputs, start)
  }

  function UnusedAt(outputs: seq<Output>, start: nat): seq<nat> {
    Keep(UnusedSet(outputs, start), start, |outputs|)
  }

  /** The payees without a tagged output, in order and as often as they are listed. */
  function Untagged(outputs: seq<Output>, start: nat, payees: seq<string>): (u: seq<string>)
    ensures forall r :: r in u <==> r in payees && TaggedAt(outputs, start, r) == []
  {
    if payees == [] then []
    else
      var r := payees[|payees| - 1];
      Untagged(outputs, start, payees[..|payees| - 1]) + if TaggedAt(outputs, start, r) == [] then [r] else []
  }

  function LastIndex(s: seq<string>, r: string): (i: nat)
    requires r in s
    ensures i < |s| && s[i] == r && forall j | i < j < |s| :: s[j] != r
  {
    if s[|s| - 1] == r then |s| - 1 else LastIndex(s[..|s| - 1], r)
  }

  predicate Enough(outputs: seq<Output>, start: nat, payees: seq<string>) {
    |Untagged(outputs, start, payees)| <= |UnusedAt(outputs, start)|
  }

  /** The output positions payee r gets: all those tagged for it, or else the unused one at its place. */
  function Share(outputs: seq<Output>, start: nat, payees: seq<string>, r: string): (ps: seq<nat>)
    requires Enough(outputs, start, payees) && r in payees
    ensures ps != [] && Ascending(ps, start, |outputs|)
  {
    var tagged := TaggedAt(outputs, start, r);
    if tagged != [] then tagged
    else [UnusedAt(outputs, start)[LastIndex(Untagged(outputs, start, payees), r)]]
  }

  /** The mapping gives every payee exactly its share, and nobody else anything. */
  ghost predicate IsAllocation(outputs: seq<Output>, start: nat, payees: seq<string>, m: map<string, seq<Output>>)
    requires Enough(outputs, start, payees)
  {
    && (forall r :: r in m <==> r in payees)
    && (forall r | r in m :: m[r] == Select(outputs, Share(outputs, start, payees, r)))
  }

  // --- what an allocation guarantees -----------------------------------------------------------

  /** A payee somebody tagged an output for gets exactly those outputs. */
  lemma TaggedShareIsWhole(outputs: seq<Output>, start: nat, payees: seq<string>, r: string, p: nat, q: nat)
    requires Enough(outputs, start, payees) && r in payees
    requires start <= p < |outputs| && p in TagSet(outputs, r)
    ensures q in Share(outputs, start, payees, r) <==> start <= q < |outputs| && q in TagSet(outputs, r)
  {
    KeepHas(TagSet(outputs, r), start, |outputs|, p);
    KeepHas(TagSet(outputs, r), start, |outputs|, q);
  }

  /** A position in a share is either tagged for its recipient, or unused and at the recipient's place. */
  lemma ShareIs(outputs: seq<Output>, start: nat, payees: seq<string>, r: string, p: nat)
    requires Enough(outputs, start, payees) && r in payees && p in Share(outputs, start, payees, r)
    ensures start <= p < |outputs|
    ensures p in TagSet(outputs, r)
            || (&& r in Untagged(outputs, start, payees)
                && p == UnusedAt(outputs, start)[LastIndex(Untagged(outputs, start, payees), r)]
                && outputs[p].recipientKey == "")
  {
    KeepHas(TagSet(outputs, r), start, |outputs|, p);
    if TaggedAt(outputs, start, r) == [] {
      assert p in UnusedAt(outputs, start);
      KeepHas(UnusedSet(outputs, start), start, |outputs|, p);
    }
  }

  lemma SamePlace(ps: seq<nat>, lo: nat, hi: nat, u: seq<string>, r: string, q: string)
    requires Ascending(ps, lo, hi) && |u| <= |ps| && r in u && q in u
    requires ps[LastIndex(u, r)] == ps[LastIndex(u, q)]
    ensures r == q
  {
    var i, j := LastIndex(u, r), LastIndex(u, q);
    assert !(i < j) && !(j < i);
  }

  /** No output position goes to two recipients. */
  lemma SharesAreDisjoint(outputs: seq<Output>, start: nat, payees: seq<string>, r: string, q: string, p: nat)
    requires Enough(outputs, start, payees) && r in payees && q in payees
    requires p in Share(outputs, start, payees, r) && p in Share(outputs, start, payees, q)
    ensures r == q
  {
    ShareIs(outputs, start, payees, r, p);
    ShareIs(outputs, start, payees, q, p);
    if p !in TagSet(outputs, r) && p !in TagSet(outputs, q) {
      SamePlace(UnusedAt(outputs, start), start, |outputs|, Untagged(outputs, start, payees), r, q);
    }
  }

  // --- the allocation in terms of the fee rows and the outputs themselves ---------------------------

  /** Row j asks for a fee. */
  predicate Paid(rows: seq<FeeRow>, j: nat) {
    j < |rows| && rows[j].recipientFee > 0
  }

  /** Some output from first on is tagged for r. */
  predicate TaggedFor(outputs: seq<Output>, first: nat, r: string) {
    exists p: nat :: first <= p < |outputs| && outputs[p].recipientKey != "" && outputs[p].recipientKey == r
  }

  /** No tagged output from first on is the output that entry p names. */
  predicate Free(outputs: seq<Output>, first: nat, p: nat) {
    && first <= p < |outputs|
    && forall q: nat | first <= q < |outputs| && outputs[q].recipientKey != "" ::
         outputs[q].outputIndex != outputs[p].outputIndex
  }

  /** Row j asks for a fee, and no output is tagged for its recipient. */
  predicate Waits(outputs: seq<Output>, first: nat, rows: seq<FeeRow>, j: nat) {
    Paid(rows, j) && !TaggedFor(outputs, first, rows[j].recipient)
  }

  /** How many rows before j wait. */
  function Place(outputs: seq<Output>, first: nat, rows: seq<FeeRow>, j: nat): nat {
    if j == 0 then 0
    else Place(outputs, first, rows, j - 1) + if Waits(outputs, first, rows, j - 1) then 1 else 0
  }

  /** How many entries before p are free. */
  function Rank(outputs: seq<Output>, first: nat, p: nat): nat {
    if p == 0 then 0 else Rank(outputs, first, p - 1) + if Free(outputs, first, p - 1) then 1 else 0
  }

  /** The list is all the outputs from first on tagged for r, in order. */
  ghost predicate GivenByTag(outputs: seq<Output>, first: nat, r: string, list: seq<Output>) {
    exists ps: seq<nat> ::
      && Ascending(ps, first, |outputs|) && list == Select(outputs, ps)
      && forall p: nat :: p in ps <==> first <= p < |outputs| && outputs[p].recipientKey == r
  }

  /** The list is the free entry with as many free ones before it as wait before r's last row. */
  ghost predicate GivenByPlace(outputs: seq<Output>, first: nat, rows: seq<FeeRow>, r: string, list: seq<Output>) {
    exists j: nat, p: nat ::
      && Waits(outputs, first, rows, j) && rows[j].recipient == r
      && (forall k: nat | k > j && Paid(rows, k) :: rows[k].recipient != r)
      && Free(outputs, first, p) && Rank(outputs, first, p) == Place(outputs, first, rows, j)
      && list == [outputs[p]]
  }

  /** Everybody who is owed a fee, and nobody else, is given outputs: those tagged for them, or else one by place. */
  ghost predicate Allocates(outputs: seq<Output>, first: nat, rows: seq<FeeRow>, m: map<string, seq<Output>>) {
    && (forall r :: r in m <==> exists j: nat :: Paid(rows, j) && rows[j].recipient == r)
    && (forall r | r in m ::
          if TaggedFor(outputs, first, r) then GivenByTag(outputs, first, r, m[r])
          else GivenByPlace(outputs, first, rows, r, m[r]))
  }

  lemma {:induction false} PayeesAreOwed(rows: seq<FeeRow>, r: string)
    ensures r in Payees(rows) <==> exists j: nat :: Paid(rows, j) && rows[j].recipient == r
  {
    if rows != [] {
      var n := |rows| - 1;
      PayeesAreOwed(rows[..n], r);
      if j: nat :| Paid(rows[..n], j) && rows[..n][j].recipient == r { assert Paid(rows, j); }
      if j: nat :| Paid(rows, j) && rows[j].recipient == r {
        if j < n { assert Paid(rows[..n], j) && rows[..n][j].recipient == r; }
      }
      if Paid(rows, n) && rows[n].recipient == r { assert r in Payees(rows); }
    }
  }

  lemma TaggedForIff(outputs: seq<Output>, first: nat, r: string)
    ensures TaggedFor(outputs, first, r) <==> TaggedAt(outputs, first, r) != []
  {
    if p: nat :| first <= p < |outputs| && outputs[p].recipientKey != "" && outputs[p].recipientKey == r {
      KeepHas(TagSet(outputs, r), first, |outputs|, p);
    }
    if TaggedAt(outputs, first, r) != [] {
      KeepHas(TagSet(outputs, r), first, |outputs|, TaggedAt(outputs, first, r)[0]);
    }
  }

  lemma FreeIff(outputs: seq<Output>, first: nat, p: nat)
    ensures Free(outputs, first, p) <==> first <= p < |outputs| && p in UnusedSet(outputs, first)
  {
    if first <= p < |outputs| {
      forall q: nat | first <= q < |outputs| && outputs[q].recipientKey != ""
        ensures outputs[q].outputIndex in UsedIndexes(outputs, first)
      {
      }
    }
  }

  /** The free entries, counted and found by rank. */
  lemma {:induction false} KeptByRank(outputs: seq<Output>, first: nat, n: nat, p: nat)
    requires n <= |outputs|
    ensures |Keep(UnusedSet(outputs, first), first, n)| == Rank(outputs, first, n)
    ensures p < n && Free(outputs, first, p) ==>
              Rank(outputs, first, p) < Rank(outputs, first, n)
              && Keep(UnusedSet(outputs, first), first, n)[Rank(outputs, first, p)] == p
  {
    if n > 0 {
      KeptByRank(outputs, first, n - 1, p);
      FreeIff(outputs, first, n - 1);
    }
  }

  lemma UntaggedLast(outputs: seq<Output>, first: nat, payees: seq<string>, r: string)
    ensures Untagged(outputs, first, payees + [r])
            == Untagged(outputs, first, payees) + if TaggedFor(outputs, first, r) then [] else [r]
  {
    assert (payees + [r])[..|payees + [r]| - 1] == payees;
    TaggedForIff(outputs, first, r);
  }

  /** The recipients who wait among the first n rows. */
  function Waiting(outputs: seq<Output>, first: nat, rows: seq<FeeRow>, n: nat): seq<string>
    requires n <= |rows|
  {
    if n == 0 then []
    else
      var front := Waiting(outputs, first, rows, n - 1);
      if Waits(outputs, first, rows, n - 1) then front + [rows[n - 1].recipient] else front
  }

  lemma PayeesNext(rows: seq<FeeRow>, n: nat)
    requires 0 < n <= |rows|
    ensures Payees(rows[..n])
            == if Paid(rows, n - 1) then Payees(rows[..n - 1]) + [rows[n - 1].recipient] else Payees(rows[..n - 1])
  {
    assert rows[..n][..n - 1] == rows[..n - 1];
  }

  lemma {:induction false} UntaggedAreWaiting(outputs: seq<Output>, first: nat, rows: seq<FeeRow>, n: nat)
    requires n <= |rows|
    ensures Untagged(outputs, first, Payees(rows[..n])) == Waiting(outputs, first, rows, n)
  {
    if n > 0 {
      UntaggedAreWaiting(outputs, first, rows, n - 1);
      PayeesNext(rows, n);
      if Paid(rows, n - 1) { UntaggedLast(outputs, first, Payees(rows[..n - 1]), rows[n - 1].recipient); }
    }
  }

  /** What waits, counted and found by place. */
  lemma {:induction false} WaitingByPlace(outputs: seq<Output>, first: nat, rows: seq<FeeRow>, n: nat)
    requires n <= |rows|
    ensures |Waiting(outputs, first, rows, n)| == Place(outputs, first, rows, n)
  {
    if n > 0 { WaitingByPlace(outputs, first, rows, n - 1); }
  }

  /** The place of a payee's last row is the last place the payee has. */
  lemma {:induction false} LastPlace(outputs: seq<Output>, first: nat, rows: seq<FeeRow>, n: nat, r: string)
    returns (j: nat)
    requires n <= |rows| && r in Waiting(outputs, first, rows, n)
    ensures j < n && Waits(outputs, first, rows, j) && rows[j].recipient == r
    ensures forall k: nat | j < k < n && Paid(rows, k) :: rows[k].recipient != r
    ensures LastIndex(Waiting(outputs, first, rows, n), r) == Place(outputs, first, rows, j)
  {
    var u, front := Waiting(outputs, first, rows, n), Waiting(outputs, first, rows, n - 1);
    WaitingByPlace(outputs, first, rows, n - 1);
    if Waits(outputs, first, rows, n - 1) && rows[n - 1].recipient == r {
      j := n - 1;
    } else {
      if Waits(outputs, first, rows, n - 1) {
        assert u[..|u| - 1] == front;
      } else {
        assert u == front;
      }
      j := LastPlace(outputs, first, rows, n - 1, r);
    }
  }

  lemma TaggedShareGiven(outputs: seq<Output>, first: nat, payees: seq<string>, r: string)
    requires Enough(outputs, first, payees) && r in payees && TaggedFor(outputs, first, r)
    ensures GivenByTag(outputs, first, r, Select(outputs, Share(outputs, first, payees, r)))
  {
    TaggedForIff(outputs, first, r);
    var ps := TaggedAt(outputs, first, r);
    forall p: nat ensures p in ps <==> first <= p < |outputs| && outputs[p].recipientKey == r {
      KeepHas(TagSet(outputs, r), first, |outputs|, p);
    }
  }

  lemma PlacedShareGiven(outputs: seq<Output>, first: nat, rows: seq<FeeRow>, r: string)
    requires first <= |outputs| && Enough(outputs, first, Payees(rows)) && r in Payees(rows)
    requires !TaggedFor(outputs, first, r)
    ensures GivenByPlace(outputs, first, rows, r, Select(outputs, Share(outputs, first, Payees(rows), r)))
  {
    TaggedForIff(outputs, first, r);
    assert rows[..|rows|] == rows;
    UntaggedAreWaiting(outputs, first, rows, |rows|);
    var j := LastPlace(outputs, first, rows, |rows|, r);
    var ps, i := UnusedAt(outputs, first), LastIndex(Untagged(outputs, first, Payees(rows)), r);
    var p := ps[i];
    KeepHas(UnusedSet(outputs, first), first, |outputs|, p);
    FreeIff(outputs, first, p);
    KeptByRank(outputs, first, |outputs|, p);
    AscendingOnce(ps, first, |outputs|, i, Rank(outputs, first, p));
    assert Select(outputs, [p]) == [outputs[p]];
  }

  lemma AscendingOnce(ps: seq<nat>, lo: nat, hi: nat, i: nat, j: nat)
    requires Ascending(ps, lo, hi) && i < |ps| && j < |ps| && ps[i] == ps[j]
    ensures i == j
  {
  }

  /** The uniform allocation gives everybody what the rows and the tags say. */
  lemma AllocationAllocates(outputs: seq<Output>, first: nat, rows: seq<FeeRow>, m: map<string, seq<Output>>)
    requires first <= |outputs| && Enough(outputs, first, Payees(rows)) && IsAllocation(outputs, first, Payees(rows), m)
    ensures Allocates(outputs, first, rows, m)
  {
    forall r ensures r in m <==> exists j: nat :: Paid(rows, j) && rows[j].recipient == r { PayeesAreOwed(rows, r); }
    forall r | r in m
      ensures if TaggedFor(outputs, first, r) then GivenByTag(outputs, first, r, m[r])
              else GivenByPlace(outputs, first, rows, r, m[r])
    {
      if TaggedFor(outputs, first, r) {
        TaggedShareGiven(outputs, first, Payees(rows), r);
      } else {
        PlacedShareGiven(outputs, first, rows, r);
      }
    }
  }

  /** There are enough outputs exactly when as many are free as rows wait. */
  lemma EnoughIff(outputs: seq<Output>, first: nat, rows: seq<FeeRow>)
    ensures Enough(outputs, first, Payees(rows))
            <==> Place(outputs, first, rows, |rows|) <= Rank(outputs, first, |outputs|)
  {
    assert rows[..|rows|] == rows;
    UntaggedAreWaiting(outputs, first, rows, |rows|);
    WaitingByPlace(outputs, first, rows, |rows|);
    KeptByRank(outputs, first, |outputs|, 0);
  }

  /** How many rows before j ask for a fee. */
  function PaidBefore(rows: seq<FeeRow>, j: nat): nat {
    if j == 0 then 0 else PaidBefore(rows, j - 1) + if Paid(rows, j - 1) then 1 else 0
  }

  predicate NoneTagged(outputs: seq<Output>, first: nat) {
    forall p: nat | first <= p < |outputs| :: outputs[p].recipientKey == ""
  }

  lemma {:induction false} RankByPosition(outputs: seq<Output>, first: nat, p: nat)
    requires NoneTagged(outputs, first) && p <= |outputs|
    ensures Rank(outputs, first, p) == if p < first then 0 else p - first
  {
    if p > 0 {
      RankByPosition(outputs, first, p - 1);
      assert first <= p - 1 ==> Free(outputs, first, p - 1);
    }
  }

  lemma {:induction false} PlaceByPosition(outputs: seq<Output>, first: nat, rows: seq<FeeRow>, j: nat)
    requires NoneTagged(outputs, first)
    ensures Place(outputs, first, rows, j) == PaidBefore(rows, j)
  {
    if j > 0 { PlaceByPosition(outputs, first, rows, j - 1); }
  }

  lemma PlaceOfLast(outputs: seq<Output>, first: nat, rows: seq<FeeRow>, j: nat, list: seq<Output>) returns (p: nat)
    requires Paid(rows, j) && forall k: nat | k > j && Paid(rows, k) :: rows[k].recipient != rows[j].recipient
    requires GivenByPlace(outputs, first, rows, rows[j].recipient, list)
    ensures Free(outputs, first, p) && Rank(outputs, first, p) == Place(outputs, first, rows, j) && list == [outputs[p]]
  {
    var r := rows[j].recipient;
    var i: nat, q: nat :|
      && Waits(outputs, first, rows, i) && rows[i].recipient == r
      && (forall k: nat | k > i && Paid(rows, k) :: rows[k].recipient != r)
      && Free(outputs, first, q) && Rank(outputs, first, q) == Place(outputs, first, rows, i)
      && list == [outputs[q]];
    assert i == j;
    p := q;
  }

  /**
   With nothing tagged, whoever's last fee is the i-th gets the i-th output, after the server's own if it takes a fee.
   */
  lemma UntaggedGoByPosition(outputs: seq<Output>, deliveryFee: int, rows: seq<FeeRow>, m: map<string, seq<Output>>,
                             j: nat)
    requires var first := if deliveryFee > 0 && |outputs| > 0 then 1 else 0;
             NoneTagged(outputs, first) && Allocates(outputs, first, rows, m)
    requires Paid(rows, j) && forall k: nat | k > j && Paid(rows, k) :: rows[k].recipient != rows[j].recipient
    ensures var at := PaidBefore(rows, j) + if deliveryFee > 0 then 1 else 0;
            rows[j].recipient in m && at < |outputs| && m[rows[j].recipient] == [outputs[at]]
  {
    var first := if deliveryFee > 0 && |outputs| > 0 then 1 else 0;
    assert rows[j].recipient in m && !TaggedFor(outputs, first, rows[j].recipient);
    var p := PlaceOfLast(outputs, first, rows, j, m[rows[j].recipient]);
    RankByPosition(outputs, first, p);
    PlaceByPosition(outputs, first, rows, j);
  }

  // --- the outputs behind the positions ------------------------------------------------------------

  /** Payee r's share has an output, at p, that payee q's share has too, at p2: the list may name one output twice. */
  predicate GivenTwice(outputs: seq<Output>, start: nat, payees: seq<string>, r: string, q: string, p: nat, p2: nat)
    requires Enough(outputs, start, payees)
  {
    && r in payees && q in payees && r != q && p < |outputs| && p2 < |outputs|
    && p in Share(outputs, start, payees, r) && p2 in Share(outputs, start, payees, q)
    && outputs[p].outputIndex == outputs[p2].outputIndex
  }

  /** Entries p and p2 name one output, each tagged for another payee. */
  predicate TaggedTwice(outputs: seq<Output>, start: nat, payees: seq<string>, p: nat, p2: nat) {
    && start <= p < |outputs| && start <= p2 < |outputs|
    && outputs[p].recipientKey != "" && outputs[p2].recipientKey != ""
    && outputs[p].recipientKey != outputs[p2].recipientKey
    && outputs[p].recipientKey in payees && outputs[p2].recipientKey in payees
    && outputs[p].outputIndex == outputs[p2].outputIndex
  }

  /** Unused entries i and j name one output, and are the places of two untagged payees, each where last listed. */
  predicate PlacedTwice(outputs: seq<Output>, start: nat, payees: seq<string>, i: nat, j: nat)
    requires Enough(outputs, start, payees)
  {
    var u, unused := Untagged(outputs, start, payees), UnusedAt(outputs, start);
    && i < j < |u| && u[i] !in u[i + 1..] && u[j] !in u[j + 1..]
    && outputs[unused[i]].outputIndex == outputs[unused[j]].outputIndex
  }

  lemma PlaceIsLast(u: seq<string>, i: nat)
    requires i < |u|
    ensures u[i] !in u[i + 1..] <==> LastIndex(u, u[i]) == i
  {
    var last := LastIndex(u, u[i]);
    if last > i { assert u[i + 1..][last - i - 1] == u[last]; }
  }

  lemma TaggedIsNotUnused(outputs: seq<Output>, start: nat, p: nat, p2: nat)
    requires start <= p < |outputs| && outputs[p].recipientKey != "" && p2 in UnusedAt(outputs, start)
    ensures p2 < |outputs| && outputs[p].outputIndex != outputs[p2].outputIndex
  {
    KeepHas(UnusedSet(outputs, start), start, |outputs|, p2);
    assert outputs[p].outputIndex in UsedIndexes(outputs, start);
  }

  lemma LastPlacesDiffer(u: seq<string>, r: string, q: string)
    requires r in u && q in u && r != q
    ensures var i, j := LastIndex(u, r), LastIndex(u, q); i != j && u[i] !in u[i + 1..] && u[j] !in u[j + 1..]
  {
    PlaceIsLast(u, LastIndex(u, r));
    PlaceIsLast(u, LastIndex(u, q));
  }

  lemma PlacedBoth(outputs: seq<Output>, start: nat, payees: seq<string>, r: string, q: string)
    requires Enough(outputs, start, payees) && r != q
    requires r in Untagged(outputs, start, payees) && q in Untagged(outputs, start, payees)
    requires var u, unused := Untagged(outputs, start, payees), UnusedAt(outputs, start);
             outputs[unused[LastIndex(u, r)]].outputIndex == outputs[unused[LastIndex(u, q)]].outputIndex
    ensures exists i: nat, j: nat :: PlacedTwice(outputs, start, payees, i, j)
  {
    var u := Untagged(outputs, start, payees);
    var i, j := LastIndex(u, r), LastIndex(u, q);
    LastPlacesDiffer(u, r, q);
    assert PlacedTwice(outputs, start, payees, i, j) || PlacedTwice(outputs, start, payees, j, i);
  }

  lemma GivenTwiceOnlyIf(outputs: seq<Output>, start: nat, payees: seq<string>, r: string, q: string, p: nat, p2: nat)
    requires Enough(outputs, start, payees) && GivenTwice(outputs, start, payees, r, q, p, p2)
    ensures TaggedTwice(outputs, start, payees, p, p2)
            || (exists i: nat, j: nat :: PlacedTwice(outputs, start, payees, i, j))
  {
    ShareIs(outputs, start, payees, r, p);
    ShareIs(outputs, start, payees, q, p2);
    if p !in TagSet(outputs, r) {
      if p2 !in TagSet(outputs, q) {
        PlacedBoth(outputs, start, payees, r, q);
      } else {
        TaggedIsNotUnused(outputs, start, p2, p);
      }
    } else if p2 !in TagSet(outputs, q) {
      TaggedIsNotUnused(outputs, start, p, p2);
    }
  }

  lemma TaggedTwiceIsGivenTwice(outputs: seq<Output>, start: nat, payees: seq<string>, p: nat, p2: nat)
    requires Enough(outputs, start, payees) && TaggedTwice(outputs, start, payees, p, p2)
    ensures GivenTwice(outputs, start, payees, outputs[p].recipientKey, outputs[p2].recipientKey, p, p2)
  {
    TaggedShareIsWhole(outputs, start, payees, outputs[p].recipientKey, p, p);
    TaggedShareIsWhole(outputs, start, payees, outputs[p2].recipientKey, p2, p2);
  }

  lemma PlacedTwiceIsGivenTwice(outputs: seq<Output>, start: nat, payees: seq<string>, i: nat, j: nat)
    requires Enough(outputs, start, payees) && PlacedTwice(outputs, start, payees, i, j)
    ensures var u, unused := Untagged(outputs, start, payees), UnusedAt(outputs, start);
            GivenTwice(outputs, start, payees, u[i], u[j], unused[i], unused[j])
  {
    var u := Untagged(outputs, start, payees);
    PlaceIsLast(u, i);
    PlaceIsLast(u, j);
    assert u[i] in u && u[j] in u && u[i + 1..][j - i - 1] == u[j];
  }

  /**
   Two payees are given one output exactly when two entries naming it are tagged for two payees, or are both
   untagged and fall to two payees by place. A list that names each output once gives none of them twice.
   */
  lemma OutputsGivenOnceIff(outputs: seq<Output>, start: nat, payees: seq<string>)
    requires Enough(outputs, start, payees)
    ensures (exists r, q, p: nat, p2: nat :: GivenTwice(outputs, start, payees, r, q, p, p2))
            <==> || (exists p: nat, p2: nat :: TaggedTwice(outputs, start, payees, p, p2))
                 || (exists i: nat, j: nat :: PlacedTwice(outputs, start, payees, i, j))
  {
    if r, q, p: nat, p2: nat :| GivenTwice(outputs, start, payees, r, q, p, p2) {
      GivenTwiceOnlyIf(outputs, start, payees, r, q, p, p2);
    }
    if p: nat, p2: nat :| TaggedTwice(outputs, start, payees, p, p2) {
      TaggedTwiceIsGivenTwice(outputs, start, payees, p, p2);
    }
    if i: nat, j: nat :| PlacedTwice(outputs, start, payees, i, j) {
      PlacedTwiceIsGivenTwice(outputs, start, payees, i, j);
    }
  }

  // --- the branches as they run ------------------------------------------------------------------

  method FeeRecipients(rows: seq<FeeRow>) returns (payees: seq<string>)
    ensures payees == Payees(rows)
  {
    payees := [];
    for i := 0 to |rows|
      invariant payees == Payees(rows[..i])
    {
      assert rows[..i + 1][..i] == rows[..i];
      if rows[i].recipientFee > 0 { payees := payees + [rows[i].recipient]; }
    }
    assert rows[..|rows|] == rows;
  }

  /** The outputs of each key tagged from start up to n. */
  ghost predicate ByKey(outputs: seq<Output>, start: nat, n: nat, byKey: map<string, seq<Output>>)
    requires n <= |outputs|
  {
    && (forall k :: k in byKey <==> Keep(TagSet(outputs, k), start, n) != [])
    && (forall k | k in byKey :: byKey[k] == Select(outputs, Keep(TagSet(outputs, k), start, n)))
  }

  /** One more output adds to the list of the key it names, and to no other. */
  lemma TagOne(outputs: seq<Output>, start: nat, n: nat, byKey: map<string, seq<Output>>)
    requires start <= n < |outputs| && ByKey(outputs, start, n, byKey)
    ensures var key := outputs[n].recipientKey;
            ByKey(outputs, start, n + 1,
                  if key == "" then byKey
                  else byKey[key := (if key in byKey then byKey[key] else []) + [outputs[n]]])
  {
    var key := outputs[n].recipientKey;
    forall k ensures n in TagSet(outputs, k) <==> key != "" && k == key { }
    var before := Keep(TagSet(outputs, key), start, n);
    assert Select(outputs, before + [n]) == Select(outputs, before) + [outputs[n]];
  }

  method CollectTagged(outputs: seq<Output>, start: nat) returns (byKey: map<string, seq<Output>>, used: set<nat>)
    requires start <= |outputs|
    ensures ByKey(outputs, start, |outputs|, byKey) && used == UsedIndexes(outputs, start)
  {
    byKey, used := map[], {};
    assert UsedIndexes(outputs[..start], start) == {};
    for i := start to |outputs|
      invariant ByKey(outputs, start, i, byKey)
      invariant used == UsedIndexes(outputs[..i], start)
    {
      TagOne(outputs, start, i, byKey);
      UseOne(outputs, start, i);
      byKey, used := TagNext(outputs[i], byKey, used);
    }
    assert outputs[..|outputs|] == outputs;
  }

  method TagNext(o: Output, byKey0: map<string, seq<Output>>, used0: set<nat>)
    returns (byKey: map<string, seq<Output>>, used: set<nat>)
    ensures byKey == if o.recipientKey == "" then byKey0
                     else byKey0[o.recipientKey :=
                                   (if o.recipientKey in byKey0 then byKey0[o.recipientKey] else []) + [o]]
    ensures used == used0 + if o.recipientKey == "" then {} else {o.outputIndex}
  {
    byKey, used := byKey0, used0;
    if o.recipientKey != "" {
      var list := if o.recipientKey in byKey then byKey[o.recipientKey] else [];
      byKey := byKey[o.recipientKey := list + [o]];
      used := used + {o.outputIndex};
    }
  }

  lemma UseOne(outputs: seq<Output>, start: nat, n: nat)
    requires start <= n < |outputs|
    ensures UsedIndexes(outputs[..n + 1], start)
            == UsedIndexes(outputs[..n], start) + if outputs[n].recipientKey == "" then {} else {outputs[n].outputIndex}
  {
    var a, b := outputs[..n], outputs[..n + 1];
    assert forall p: nat | p < n :: a[p] == b[p];
    forall x | x in UsedIndexes(a, start) ensures x in UsedIndexes(b, start) {
      var p: nat :| start <= p < n && a[p].recipientKey != "" && a[p].outputIndex == x;
      assert b[p] == a[p];
    }
    forall x | x in UsedIndexes(b, start) && x !in UsedIndexes(a, start)
      ensures outputs[n].recipientKey != "" && x == outputs[n].outputIndex
    {
      var p: nat :| start <= p < n + 1 && b[p].recipientKey != "" && b[p].outputIndex == x;
    }
    assert b[n] == outputs[n];
  }

  method CollectUnused(outputs: seq<Output>, start: nat, used: set<nat>) returns (remaining: seq<Output>)
    requires start <= |outputs| && used == UsedIndexes(outputs, start)
    ensures remaining == Select(outputs, UnusedAt(outputs, start))
  {
    remaining := [];
    for i := start to |outputs|
      invariant remaining == Select(outputs, Keep(UnusedSet(outputs, start), start, i))
    {
      if outputs[i].outputIndex !in used { remaining := remaining + [outputs[i]]; }
    }
  }

  /** Recipient i gets output i, and a recipient listed twice the last of its outputs; m0 covers the rest. */
  ghost predicate Placed(recipients: seq<string>, outs: seq<Output>, m0: map<string, seq<Output>>,
                         m: map<string, seq<Output>>)
    requires |recipients| <= |outs|
  {
    && (forall r :: r in m <==> r in m0 || r in recipients)
    && (forall r | r in m :: m[r] == if r in recipients then [outs[LastIndex(recipients, r)]] else m0[r])
  }

  method AssignByPosition(recipients: seq<string>, outs: seq<Output>, m0: map<string, seq<Output>>)
    returns (m: map<string, seq<Output>>)
    requires |recipients| <= |outs|
    ensures Placed(recipients, outs, m0, m)
  {
    m := m0;
    for i := 0 to |recipients|
      invariant Placed(recipients[..i], outs, m0, m)
    {
      PlaceOne(recipients[..i], recipients[i], outs, m0, m);
      assert recipients[..i + 1] == recipients[..i] + [recipients[i]];
      m := m[recipients[i] := [outs[i]]];
    }
    assert recipients[..|recipients|] == recipients;
  }

  lemma PlaceOne(recipients: seq<string>, next: string, outs: seq<Output>, m0: map<string, seq<Output>>,
                 m: map<string, seq<Output>>)
    requires |recipients| < |outs| && Placed(recipients, outs, m0, m)
    ensures Placed(recipients + [next], outs, m0, m[next := [outs[|recipients|]]])
  {
    var more := recipients + [next];
    assert more[..|more| - 1] == recipients;
  }

  lemma {:induction false} KeepAll(keep: set<nat>, start: nat, n: nat)
    requires start <= n && forall p: nat | start <= p < n :: p in keep
    ensures Keep(keep, start, n) == seq(n - start, i requires 0 <= i < n - start => start + i)
  {
    if n > start { KeepAll(keep, start, n - 1); }
  }

  lemma {:induction false} AllUntagged(outputs: seq<Output>, start: nat, payees: seq<string>)
    requires forall k | k in payees :: TaggedAt(outputs, start, k) == []
    ensures Untagged(outputs, start, payees) == payees
  {
    if payees != [] {
      var front, last := payees[..|payees| - 1], payees[|payees| - 1];
      assert payees == front + [last] && last in payees;
      AllUntagged(outputs, start, front);
    }
  }

  /** Where no payee's tag is found, no entry is tagged. */
  lemma NoEntryTagged(outputs: seq<Output>, start: nat, p: nat)
    requires start <= p < |outputs| && TaggedAt(outputs, start, outputs[p].recipientKey) == []
    ensures outputs[p].recipientKey == ""
  {
    KeepHas(TagSet(outputs, outputs[p].recipientKey), start, |outputs|, p);
  }

  /** With no tag at all, every output from start on is unused and every payee untagged. */
  lemma NothingTagged(outputs: seq<Output>, start: nat, payees: seq<string>)
    requires start <= |outputs| && forall k :: TaggedAt(outputs, start, k) == []
    ensures Untagged(outputs, start, payees) == payees
    ensures Select(outputs, UnusedAt(outputs, start)) == outputs[start..]
  {
    AllUntagged(outputs, start, payees);
    forall p: nat | start <= p < |outputs| ensures outputs[p].recipientKey == "" {
      NoEntryTagged(outputs, start, p);
    }
    assert UsedIndexes(outputs, start) == {};
    KeepAll(UnusedSet(outputs, start), start, |outputs|);
  }

  lemma ShareSelected(outputs: seq<Output>, start: nat, payees: seq<string>, r: string)
    requires start <= |outputs| && Enough(outputs, start, payees) && r in payees
    ensures var tagged, u := TaggedAt(outputs, start, r), Untagged(outputs, start, payees);
            && (r in u <==> tagged == [])
            && Select(outputs, Share(outputs, start, payees, r))
               == if r in u then [Select(outputs, UnusedAt(outputs, start))[LastIndex(u, r)]]
                  else Select(outputs, tagged)
  {
  }

  /** Placing the untagged payees on the unused outputs completes the tagged ones' lists to the allocation. */
  lemma PlacedIsAllocation(outputs: seq<Output>, start: nat, payees: seq<string>,
                           direct: map<string, seq<Output>>, m: map<string, seq<Output>>)
    requires start <= |outputs| && Enough(outputs, start, payees)
    requires forall r :: r in direct <==> r in payees && TaggedAt(outputs, start, r) != []
    requires forall r | r in direct :: direct[r] == Select(outputs, TaggedAt(outputs, start, r))
    requires Placed(Untagged(outputs, start, payees), Select(outputs, UnusedAt(outputs, start)), direct, m)
    ensures IsAllocation(outputs, start, payees, m)
  {
    forall r | r in payees ensures r in m && m[r] == Select(outputs, Share(outputs, start, payees, r)) {
      ShareSelected(outputs, start, payees, r);
    }
    assert forall r | r in m :: r in payees;
  }

  /** No output is tagged: payee i gets the i-th output. */
  method AllocateByPosition(outputs: seq<Output>, start: nat, payees: seq<string>)
    returns (m: Option<map<string, seq<Output>>>)
    requires start <= |outputs| && forall k :: TaggedAt(outputs, start, k) == []
    ensures m.Some? <==> Enough(outputs, start, payees)
    ensures m.Some? ==> IsAllocation(outputs, start, payees, m.value)
  {
    NothingTagged(outputs, start, payees);
    if |outputs| - start < |payees| { return None; }
    var positional := AssignByPosition(payees, outputs[start..], map[]);
    PlacedIsAllocation(outputs, start, payees, map[], positional);
    return Some(positional);
  }

  method UntaggedPayees(outputs: seq<Output>, start: nat, payees: seq<string>, direct: map<string, seq<Output>>)
    returns (unmapped: seq<string>)
    requires forall r | r in payees :: r in direct <==> TaggedAt(outputs, start, r) != []
    ensures unmapped == Untagged(outputs, start, payees)
  {
    unmapped := [];
    for i := 0 to |payees|
      invariant unmapped == Untagged(outputs, start, payees[..i])
    {
      assert payees[..i + 1][..i] == payees[..i];
      if payees[i] !in direct { unmapped := unmapped + [payees[i]]; }
    }
    assert payees[..|payees|] == payees;
  }

  /** Tagged outputs go where they say; whoever has none takes the next unused output. */
  method AllocateByTag(outputs: seq<Output>, start: nat, payees: seq<string>, byKey: map<string, seq<Output>>,
                       used: set<nat>)
    returns (m: Option<map<string, seq<Output>>>)
    requires start <= |outputs| && ByKey(outputs, start, |outputs|, byKey) && used == UsedIndexes(outputs, start)
    ensures m.Some? <==> Enough(outputs, start, payees)
    ensures m.Some? ==> IsAllocation(outputs, start, payees, m.value)
  {
    var direct: map<string, seq<Output>> := map r | r in payees && r in byKey :: byKey[r];
    var unmapped := UntaggedPayees(outputs, start, payees, direct);
    var remaining := CollectUnused(outputs, start, used);
    if |remaining| < |unmapped| { return None; }
    var all := AssignByPosition(unmapped, remaining, direct);
    PlacedIsAllocation(outputs, start, payees, direct, all);
    return Some(all);
  }

  /** None is ERR_INSUFFICIENT_OUTPUTS, which comes exactly when unused outputs are fewer than untagged payees. */
  method BuildPerRecipientOutputs(outputs: seq<Output>, deliveryFee: int, feeRows: seq<FeeRow>)
    returns (m: Option<map<string, seq<Output>>>)
    ensures var first := if deliveryFee > 0 && |outputs| > 0 then 1 else 0;
            && (m.Some? <==> Place(outputs, first, feeRows, |feeRows|) <= Rank(outputs, first, |outputs|))
            && (m.Some? ==> Allocates(outputs, first, feeRows, m.value))
    ensures m.Some? <==> Enough(outputs, Start(outputs, deliveryFee), Payees(feeRows))
    ensures m.Some? ==> IsAllocation(outputs, Start(outputs, deliveryFee), Payees(feeRows), m.value)
  {
    m := AllocateOutputs(outputs, deliveryFee, feeRows);
    EnoughIff(outputs, Start(outputs, deliveryFee), feeRows);
    if m.Some? { AllocationAllocates(outputs, Start(outputs, deliveryFee), feeRows, m.value); }
  }

  method AllocateOutputs(outputs: seq<Output>, deliveryFee: int, feeRows: seq<FeeRow>)
    returns (m: Option<map<string, seq<Output>>>)
    ensures m.Some? <==> Enough(outputs, Start(outputs, deliveryFee), Payees(feeRows))
    ensures m.Some? ==> IsAllocation(outputs, Start(outputs, deliveryFee), Payees(feeRows), m.value)
  {
    var start := Start(outputs, deliveryFee);
    var payees := FeeRecipients(feeRows);
    if payees == [] { return Some(map[]); }
    var byKey, used := CollectTagged(outputs, start);
    if byKey == map[] {
      assert forall k :: k !in byKey;
      m := AllocateByPosition(outputs, start, payees);
    } else {
      m := AllocateByTag(outputs, start, payees, byKey, used);
    }
  }
}
