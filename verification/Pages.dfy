/** Listing a message box page by page, within a message limit and a byte budget. */
module Pages {
  import opened Wrappers

  /** A stored message and the length of its JSON encoding. */
  datatype Message = Message(id: string, encoded: nat)

  // The envelope's approximate bytes, and the separator after each item.
  const ENVELOPE := 256
  const NO_CAP := -1

  function ItemBytes(m: Message): nat { m.encoded + 1 }

  /** Encoded bytes of the messages, separators included. */
  function Bytes(ms: seq<Message>): nat {
    if ms == [] then 0 else Bytes(ms[..|ms| - 1]) + ItemBytes(ms[|ms| - 1])
  }

  predicate Fits(ms: seq<Message>, budget: int) {
    budget == NO_CAP || ENVELOPE + Bytes(ms) <= budget
  }

  datatype Page = Page(messages: seq<Message>, limit: nat, offset: nat, nextOffset: nat, hasMore: bool)

  /** Only the message asked for, or the whole box. */
  function View(box: seq<Message>, id: Option<string>): seq<Message> {
    if id.None? || box == [] then box
    else View(box[..|box| - 1], id) + if box[|box| - 1].id == id.value then [box[|box| - 1]] else []
  }

  function From(all: seq<Message>, offset: nat): seq<Message> {
    if offset >= |all| then [] else all[offset..]
  }

  // --- what the budget and the view count ---------------------------------------------------

  function Encoded(ms: seq<Message>): nat {
    if ms == [] then 0 else Encoded(ms[..|ms| - 1]) + ms[|ms| - 1].encoded
  }

  lemma {:induction false} BytesAre(ms: seq<Message>)
    ensures Bytes(ms) == Encoded(ms) + |ms|
  {
    if ms != [] { BytesAre(ms[..|ms| - 1]); }
  }

  /** A page fits if its messages, a separator each and 256 bytes around them are within the budget; -1 is no budget. */
  lemma FitsIff(ms: seq<Message>, budget: int)
    ensures Fits(ms, budget) <==> budget == -1 || 256 + Encoded(ms) + |ms| <= budget
  {
    BytesAre(ms);
  }

  /** A message is in view if no id is asked for, or its own is. */
  lemma ViewOfOne(m: Message, id: Option<string>)
    ensures View([m], id) == if id.None? || id == Some(m.id) then [m] else []
  {
    assert [m][..0] == [];
  }

  /** What is in view is in view one message after another, in the order of the box. */
  lemma {:induction false} ViewAppends(a: seq<Message>, b: seq<Message>, id: Option<string>)
    ensures View(a + b, id) == View(a, id) + View(b, id)
  {
    if b == [] {
      assert a + b == a;
    } else {
      var front, last := b[..|b| - 1], b[|b| - 1];
      assert (a + b)[..|a + b| - 1] == a + front && (a + b)[|a + b| - 1] == last;
      if id.Some? { ViewAppends(a, front, id); }
    }
  }

  // --- one page ------------------------------------------------------------------------

  /** k messages from offset are the longest run that is within the limit and the budget. */
  ghost predicate LongestPrefix(rest: seq<Message>, limit: nat, budget: int, k: nat) {
    && k <= limit && k <= |rest|
    && (k > 0 ==> Fits(rest[..k], budget))
    && forall j | k < j <= limit && j <= |rest| :: !Fits(rest[..j], budget)
  }

  /** The page a box shows at offset; None is 413, the message at offset alone being over the budget. */
  ghost predicate IsPage(all: seq<Message>, limit: nat, offset: nat, budget: int, r: Option<Page>) {
    && (r.None? <==> offset < |all| && !Fits([all[offset]], budget))
    && (r.Some? ==>
          && LongestPrefix(From(all, offset), limit, budget, |r.value.messages|)
          && r.value.messages == From(all, offset)[..|r.value.messages|]
          && r.value.limit == limit && r.value.offset == offset
          && r.value.nextOffset == offset + |r.value.messages|
          && (r.value.hasMore <==> r.value.nextOffset < |all|))
  }

  lemma {:induction false} BytesGrow(ms: seq<Message>, i: nat, j: nat)
    requires i <= j <= |ms|
    ensures Bytes(ms[..i]) <= Bytes(ms[..j])
  {
    if i < j {
      BytesGrow(ms, i, j - 1);
      assert ms[..j][..j - 1] == ms[..j - 1];
    }
  }

  method FallbackPageMessages(box: seq<Message>, offset: nat, fetchLimit: nat, id: Option<string>)
    returns (rows: seq<Message>)
    ensures var rest := From(View(box, id), offset); rows == if |rest| <= fetchLimit then rest else rest[..fetchLimit]
  {
    var all := box;
    if id.Some? {
      all := [];
      for i := 0 to |box|
        invariant all == View(box[..i], id)
      {
        assert box[..i + 1][..i] == box[..i];
        if box[i].id == id.value { all := all + [box[i]]; }
      }
      assert box[..|box|] == box;
    }
    if offset >= |all| { return []; }
    var end := offset + fetchLimit;
    if end > |all| { end := |all|; }
    return all[offset..end];
  }

  lemma LongestFrom(rest: seq<Message>, limit: nat, budget: int, k: nat)
    requires k <= limit && k <= |rest| && (k > 0 ==> Fits(rest[..k], budget))
    requires k == limit || k == |rest| || !Fits(rest[..k + 1], budget)
    ensures LongestPrefix(rest, limit, budget, k)
  {
    forall j | k < j <= limit && j <= |rest| ensures !Fits(rest[..j], budget) {
      BytesGrow(rest, k + 1, j);
    }
  }

  /** Walks the rows in order, stopping at the limit or at the first row over the budget. */
  method FillPage(rows: seq<Message>, limit: nat, budget: int, ghost rest: seq<Message>)
    returns (tooLarge: bool, out: seq<Message>, hasMore: bool)
    requires limit >= 1 && |rows| <= |rest| && rows == rest[..|rows|]
    requires |rows| == if |rest| <= limit + 1 then |rest| else limit + 1
    ensures tooLarge <==> rest != [] && !Fits(rest[..1], budget)
    ensures !tooLarge ==>
        LongestPrefix(rest, limit, budget, |out|) && out == rest[..|out|] && (hasMore <==> |out| < |rest|)
  {
    out, hasMore := [], false;
    var encodedBytes := ENVELOPE;
    ghost var first := if rest == [] then [] else rest[..1];
    while |out| < |rows|
      invariant !hasMore && |out| <= limit && |out| <= |rows| && out == rest[..|out|]
      invariant encodedBytes == ENVELOPE + Bytes(out)
      invariant out != [] ==> Fits(out, budget) && Fits(first, budget)
    {
      if |out| >= limit {
        hasMore := true;
        break;
      }
      var next := rows[|out|];
      assert rest[..|out| + 1] == out + [next] && (out + [next])[..|out|] == out;
      if budget != NO_CAP && encodedBytes + ItemBytes(next) > budget {
        if out == [] { return true, [], false; }
        hasMore := true;
        break;
      }
      out, encodedBytes := out + [next], encodedBytes + ItemBytes(next);
    }
    LongestFrom(rest, limit, budget, |out|);
    tooLarge := false;
  }

  /** Asks for one row more than the limit, so as to tell whether there is more. */
  method ReadMessagePage(box: seq<Message>, limit: nat, offset: nat, id: Option<string>, budget: int)
    returns (r: Option<Page>)
    requires limit >= 1
    ensures IsPage(View(box, id), limit, offset, budget, r)
  {
    ghost var all := View(box, id);
    ghost var rest := From(all, offset);
    var rows := FallbackPageMessages(box, offset, limit + 1, id);
    var tooLarge, out, hasMore := FillPage(rows, limit, budget, rest);
    assert rest != [] ==> rest[..1] == [all[offset]];
    if tooLarge { return None; }
    r := Some(Page(out, limit, offset, offset + |out|, hasMore));
  }

  // --- following nextOffset --------------------------------------------------------------

  lemma {:induction false} LongestExists(rest: seq<Message>, limit: nat, budget: int, n: nat)
    requires n <= limit && n <= |rest|
    requires forall j | n < j <= limit && j <= |rest| :: !Fits(rest[..j], budget)
    ensures exists k :: LongestPrefix(rest, limit, budget, k)
  {
    if n == 0 || Fits(rest[..n], budget) {
      assert LongestPrefix(rest, limit, budget, n);
    } else {
      LongestExists(rest, limit, budget, n - 1);
    }
  }

  /** A box shows one page at an offset, and no other. */
  lemma PageIsUnique(all: seq<Message>, limit: nat, offset: nat, budget: int, r: Option<Page>, q: Option<Page>)
    requires IsPage(all, limit, offset, budget, r) && IsPage(all, limit, offset, budget, q)
    ensures r == q
  {
    if r.Some? && q.Some? {
      assert |r.value.messages| == |q.value.messages|;
    }
  }

  /** The one page there is. */
  ghost function PageAt(all: seq<Message>, limit: nat, offset: nat, budget: int): (r: Option<Page>)
    ensures IsPage(all, limit, offset, budget, r)
  {
    if offset < |all| && !Fits([all[offset]], budget) then None
    else
      var rest := From(all, offset);
      LongestExists(rest, limit, budget, if limit < |rest| then limit else |rest|);
      var k: nat :| LongestPrefix(rest, limit, budget, k);
      Some(Page(rest[..k], limit, offset, offset + k, offset + k < |all|))
  }

  /** A page that does not end the box makes progress. */
  lemma PageAdvances(all: seq<Message>, limit: nat, offset: nat, budget: int, r: Option<Page>)
    requires limit >= 1 && offset < |all| && IsPage(all, limit, offset, budget, r) && r.Some?
    ensures offset < r.value.nextOffset <= |all|
    ensures r.value.messages == all[offset..r.value.nextOffset]
  {
    var rest := From(all, offset);
    assert rest[..1] == [all[offset]];
  }

  /** Everything a client collects that starts at offset and follows nextOffset while there is more. */
  ghost function Walk(all: seq<Message>, limit: nat, offset: nat, budget: int): seq<Message>
    requires limit >= 1
    decreases |all| - offset
  {
    var r := PageAt(all, limit, offset, budget);
    if r.None? then []
    else if !r.value.hasMore then r.value.messages
    else
      PageAdvances(all, limit, offset, budget, r);
      r.value.messages + Walk(all, limit, r.value.nextOffset, budget)
  }

  /** How many messages come before the first that is over the budget by itself. */
  function BeforeOversized(all: seq<Message>, offset: nat, budget: int): (n: nat)
    requires offset <= |all|
    ensures offset <= n <= |all|
    decreases |all| - offset
  {
    if offset == |all| || !Fits([all[offset]], budget) then offset else BeforeOversized(all, offset + 1, budget)
  }

  lemma {:induction false} FittingRunIsBefore(all: seq<Message>, offset: nat, n: nat, budget: int)
    requires offset <= n <= |all| && (n > offset ==> Fits(all[offset..n], budget))
    ensures BeforeOversized(all, offset, budget) == BeforeOversized(all, n, budget)
    decreases n - offset
  {
    if offset < n {
      var run := all[offset..n];
      SuffixBytes(run);
      assert run[1..] == all[offset + 1..n] && [run[0]] == [all[offset]];
      assert n > offset + 1 ==> Fits(all[offset + 1..n], budget);
      FittingRunIsBefore(all, offset + 1, n, budget);
    }
  }

  lemma {:induction false} SuffixBytes(ms: seq<Message>)
    requires ms != []
    ensures Bytes(ms) == ItemBytes(ms[0]) + Bytes(ms[1..])
    ensures Bytes([ms[0]]) == ItemBytes(ms[0])
  {
    if |ms| > 1 {
      SuffixBytes(ms[..|ms| - 1]);
      assert ms[..|ms| - 1][1..] == ms[1..][..|ms| - 2];
    }
  }

  /** What one page adds is what comes between its offset and the next, none of it oversized. */
  lemma PageIsBefore(all: seq<Message>, limit: nat, offset: nat, budget: int, r: Option<Page>)
    requires limit >= 1 && offset < |all| && IsPage(all, limit, offset, budget, r) && r.Some?
    ensures offset < r.value.nextOffset <= |all| && r.value.messages == all[offset..r.value.nextOffset]
    ensures BeforeOversized(all, offset, budget) == BeforeOversized(all, r.value.nextOffset, budget)
  {
    PageAdvances(all, limit, offset, budget, r);
    var next := r.value.nextOffset;
    assert From(all, offset)[..|r.value.messages|] == all[offset..next];
    FittingRunIsBefore(all, offset, next, budget);
  }

  /** Walking a box collects exactly what comes before the first oversized message, in order, each message once. */
  lemma {:induction false} WalkCollects(all: seq<Message>, limit: nat, offset: nat, budget: int)
    requires limit >= 1 && offset <= |all|
    ensures Walk(all, limit, offset, budget) == all[offset..BeforeOversized(all, offset, budget)]
    decreases |all| - offset
  {
    var r := PageAt(all, limit, offset, budget);
    if r.Some? && offset < |all| {
      PageIsBefore(all, limit, offset, budget, r);
      var next, end := r.value.nextOffset, BeforeOversized(all, offset, budget);
      if r.value.hasMore {
        WalkCollects(all, limit, next, budget);
        assert all[offset..next] + all[next..end] == all[offset..end];
      }
    }
  }

  lemma {:induction false} NoneOversized(all: seq<Message>, offset: nat, budget: int)
    requires offset <= |all|
    ensures BeforeOversized(all, offset, budget) == |all| <==> forall i | offset <= i < |all| :: Fits([all[i]], budget)
    decreases |all| - offset
  {
    if offset < |all| && Fits([all[offset]], budget) { NoneOversized(all, offset + 1, budget); }
  }

  /** From 0 the walk is the whole box exactly when no single message is over the budget. */
  lemma WalkIsWholeBoxIff(all: seq<Message>, limit: nat, budget: int)
    requires limit >= 1
    ensures Walk(all, limit, 0, budget) == all <==> forall i | 0 <= i < |all| :: Fits([all[i]], budget)
  {
    WalkCollects(all, limit, 0, budget);
    NoneOversized(all, 0, budget);
    assert all[..|all|] == all;
  }

  // --- the request's bounds --------------------------------------------------------------

  const SAFE_INTEGER := 0x1F_FFFF_FFFF_FFFF
  const MAX_INT64 := 0x7FFF_FFFF_FFFF_FFFF

  /** A request field: absent or null, a number, or any other JSON value. */
  datatype Json = Missing | Number(n: real) | Other(text: string)

  datatype Limits = Limits(defaultLimit: int, maxLimit: int, maxOffset: int)

  datatype Pagination = Accepted(limit: nat, offset: nat) | Mismatch | InvalidLimit | InvalidOffset

  /** The whole number v is, if it is one within the bounds; a max of -1 is no bound but the safe integers'. */
  function BoundedInteger(v: Json, min: int, max: int): Option<int> {
    if !v.Number? || v.n.Floor as real != v.n then None
    else
      var i := v.n.Floor;
      if i < -SAFE_INTEGER || i > SAFE_INTEGER || i < min || (max != NO_CAP && i > max) then None else Some(i)
  }

  function LimitOf(limit: Json, cfg: Limits): Option<int> {
    var default := if cfg.defaultLimit == NO_CAP then SAFE_INTEGER else cfg.defaultLimit;
    BoundedInteger(if limit.Missing? then Number(default as real) else limit, 1, cfg.maxLimit)
  }

  function OffsetOf(offset: Json, skip: Json, cfg: Limits): Option<int> {
    var from := if !offset.Missing? then offset else if !skip.Missing? then skip else Number(0.0);
    BoundedInteger(from, 0, cfg.maxOffset)
  }

  function ParsePagination(limit: Json, offset: Json, skip: Json, cfg: Limits): Pagination {
    if !offset.Missing? && !skip.Missing? && offset != skip then Mismatch
    else
      var l, o := LimitOf(limit, cfg), OffsetOf(offset, skip, cfg);
      if l.None? then InvalidLimit
      else if o.None? then InvalidOffset
      else Accepted(l.value, o.value)
  }

  /** l is the limit asked for, or the default if none is; 9007199254740991 stands for no default. */
  predicate LimitIs(limit: Json, cfg: Limits, l: int) {
    && (if limit.Missing? then l == (if cfg.defaultLimit == -1 then 9007199254740991 else cfg.defaultLimit)
        else limit == Number(l as real))
    && 1 <= l <= 9007199254740991 && (cfg.maxLimit == -1 || l <= cfg.maxLimit)
  }

  /** o is the offset asked for, or else the skip, or else 0. */
  predicate OffsetIs(offset: Json, skip: Json, cfg: Limits, o: int) {
    && (if !offset.Missing? then offset == Number(o as real)
        else if !skip.Missing? then skip == Number(o as real)
        else o == 0)
    && 0 <= o <= 9007199254740991 && (cfg.maxOffset == -1 || o <= cfg.maxOffset)
  }

  /** A bounded integer is a whole number, within the safe integers, the least and the most allowed (-1 is no most). */
  lemma BoundedIff(v: Json, min: int, max: int, i: int)
    ensures BoundedInteger(v, min, max) == Some(i) <==>
              && v == Number(i as real) && -9007199254740991 <= i <= 9007199254740991
              && min <= i && (max == -1 || i <= max)
  {
    assert (i as real).Floor == i;
  }

  lemma LimitIff(limit: Json, cfg: Limits, l: int)
    ensures LimitIs(limit, cfg, l) <==> LimitOf(limit, cfg) == Some(l)
  {
    assert (l as real).Floor == l;
  }

  lemma OffsetIff(offset: Json, skip: Json, cfg: Limits, o: int)
    ensures OffsetIs(offset, skip, cfg, o) <==> OffsetOf(offset, skip, cfg) == Some(o)
  {
    assert (o as real).Floor == o;
  }

  /**
   Bounds are accepted exactly when offset and skip agree and both numbers are whole and within their bounds, and then
   as asked.
   */
  lemma AcceptedIff(limit: Json, offset: Json, skip: Json, cfg: Limits, l: nat, o: nat)
    ensures ParsePagination(limit, offset, skip, cfg) == Accepted(l, o) <==>
              && (offset.Missing? || skip.Missing? || offset == skip)
              && LimitIs(limit, cfg, l) && OffsetIs(offset, skip, cfg, o)
  {
    LimitIff(limit, cfg, l);
    OffsetIff(offset, skip, cfg, o);
  }

  /** Otherwise the first of a disagreement, a limit and an offset that will not do is what is wrong. */
  lemma RefusedIff(limit: Json, offset: Json, skip: Json, cfg: Limits)
    ensures var p := ParsePagination(limit, offset, skip, cfg);
            && (p.Mismatch? <==> !offset.Missing? && !skip.Missing? && offset != skip)
            && (p.InvalidLimit? <==> !p.Mismatch? && forall l: int :: !LimitIs(limit, cfg, l))
            && (p.InvalidOffset? <==>
                  !p.Mismatch? && !p.InvalidLimit? && forall o: int :: !OffsetIs(offset, skip, cfg, o))
  {
    forall l: int ensures LimitIs(limit, cfg, l) <==> LimitOf(limit, cfg) == Some(l) { LimitIff(limit, cfg, l); }
    forall o: int ensures OffsetIs(offset, skip, cfg, o) <==> OffsetOf(offset, skip, cfg) == Some(o) {
      OffsetIff(offset, skip, cfg, o);
    }
    if LimitOf(limit, cfg).Some? { assert LimitIs(limit, cfg, LimitOf(limit, cfg).value); }
    if OffsetOf(offset, skip, cfg).Some? { assert OffsetIs(offset, skip, cfg, OffsetOf(offset, skip, cfg).value); }
  }

  /**
   Accepted bounds are usable: a page has room, and neither the row count asked for nor any offset overflows 64 bits.
   */
  lemma AcceptedBoundsDoNotOverflow(limit: Json, offset: Json, skip: Json, cfg: Limits, all: seq<Message>,
                                    budget: int, r: Option<Page>)
    requires ParsePagination(limit, offset, skip, cfg).Accepted?
    requires var p := ParsePagination(limit, offset, skip, cfg); IsPage(all, p.limit, p.offset, budget, r)
    ensures var p := ParsePagination(limit, offset, skip, cfg);
            && p.limit >= 1 && p.offset + p.limit + 1 <= MAX_INT64
            && (r.Some? ==> r.value.nextOffset <= MAX_INT64)
  {
  }

  /** What the configuration loader lets through: each bound -1 or positive, and no default above the maximum. */
  predicate Loaded(cfg: Limits) {
    && (cfg.defaultLimit == NO_CAP || cfg.defaultLimit > 0)
    && (cfg.maxLimit == NO_CAP || cfg.maxLimit > 0)
    && (cfg.maxOffset == NO_CAP || cfg.maxOffset > 0)
    && (cfg.maxLimit == NO_CAP || cfg.defaultLimit <= cfg.maxLimit)
  }

  /** Of the three bounds none may be 0 or below -1, and a default may not be above a maximum there is. */
  lemma LoadedIff(cfg: Limits)
    ensures Loaded(cfg) <==>
              && cfg.defaultLimit >= -1 && cfg.maxLimit >= -1 && cfg.maxOffset >= -1
              && cfg.defaultLimit != 0 && cfg.maxLimit != 0 && cfg.maxOffset != 0
              && (cfg.maxLimit > 0 ==> cfg.defaultLimit <= cfg.maxLimit)
  {
  }

  /** Such a configuration: no default limit under a maximum of a thousand. */
  lemma UncappedDefaultRefusesPlainRequests()
    ensures var cfg := Limits(NO_CAP, 1000, NO_CAP);
            Loaded(cfg) && ParsePagination(Missing, Missing, Missing, cfg).InvalidLimit?
  {
  }

  /**
   Under a loaded configuration a request that gives no bounds is refused exactly when the default is above the
   safe integers, or uncapped (-1) under a capped maximum, which the loader's comparison lets through.
   */
  lemma PlainRequestRefusedIff(cfg: Limits)
    requires Loaded(cfg)
    ensures ParsePagination(Missing, Missing, Missing, cfg).InvalidLimit? <==>
              cfg.defaultLimit > SAFE_INTEGER || (cfg.defaultLimit == NO_CAP && NO_CAP < cfg.maxLimit < SAFE_INTEGER)
    ensures !ParsePagination(Missing, Missing, Missing, cfg).InvalidLimit? ==>
        ParsePagination(Missing, Missing, Missing, cfg).Accepted?
  {
  }
}
