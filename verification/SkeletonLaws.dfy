/** The fold's normal forms: what its image is, and what it cannot tell apart. */
module SkeletonLaws {
  import opened Wrappers
  import opened Handles

  predicate Folded(c: char) {
    !IsUpper(c) && !IsSeparator(c) && !IsFoldSource(c)
  }

  predicate PairFree(a: char, b: char) {
    !(a == 'r' && b == 'n') && !(a == 'v' && b == 'v')
  }

  /** No upper case, separator, fold source, "rn", "vv" or doubled character. */
  ghost predicate IsSkeleton(s: string) {
    && (forall i | 0 <= i < |s| :: Folded(s[i]))
    && NoPairs(s)
    && NoDoubles(s)
  }

  ghost predicate NoPairs(s: string) {
    forall i | 0 <= i < |s| - 1 :: PairFree(s[i], s[i + 1])
  }

  ghost predicate NoDoubles(s: string) {
    forall i | 0 <= i < |s| - 1 :: s[i] != s[i + 1]
  }

  // --- each stage's output -----------------------------------------------------------

  lemma {:induction false} LowerAt(s: string)
    ensures forall i | 0 <= i < |s| :: ToLower(s)[i] == LowerChar(s[i])
  {
    if s != [] {
      LowerAt(s[1..]);
      forall i | 0 <= i < |s| ensures ToLower(s)[i] == LowerChar(s[i]) {
        if i > 0 { assert ToLower(s)[i] == ToLower(s[1..])[i - 1]; }
      }
    }
  }

  ghost predicate Bare(s: string) {
    forall i | 0 <= i < |s| :: !IsUpper(s[i]) && !IsSeparator(s[i])
  }

  lemma {:induction false} StripBares(s: string)
    requires forall i | 0 <= i < |s| :: !IsUpper(s[i])
    ensures Bare(StripSeparators(s))
  {
    if s != [] { StripBares(s[1..]); }
  }

  lemma {:induction false} FoldPairsClears(s: string)
    requires Bare(s)
    ensures Bare(FoldPairs(s)) && NoPairs(FoldPairs(s))
    ensures s == [] <==> FoldPairs(s) == []
    ensures s != [] ==> FoldPairs(s)[0] == s[0] || FoldPairs(s)[0] == 'm' || FoldPairs(s)[0] == 'w'
  {
    if s != [] {
      if |s| > 1 && !PairFree(s[0], s[1]) {
        FoldPairsClears(s[2..]);
      } else {
        FoldPairsClears(s[1..]);
      }
    }
  }

  lemma {:induction false} FoldCharsClears(s: string)
    requires Bare(s) && NoPairs(s)
    ensures NoPairs(FoldChars(s)) && forall i | 0 <= i < |FoldChars(s)| :: Folded(FoldChars(s)[i])
    ensures |FoldChars(s)| == |s| && (s != [] ==> FoldChars(s)[0] == FoldChar(s[0]))
  {
    if s != [] {
      FoldCharsClears(s[1..]);
      if |s| > 1 { assert PairFree(s[0], s[1]); }
    }
  }

  lemma {:induction false} CollapseClears(last: Option<char>, s: string)
    requires NoPairs(s) && forall i | 0 <= i < |s| :: Folded(s[i])
    requires last.Some? && s != [] ==> PairFree(last.value, s[0])
    ensures IsSkeleton(Collapse(last, s))
    ensures var r := Collapse(last, s); last.Some? && r != [] ==> r[0] != last.value && PairFree(last.value, r[0])
    decreases s
  {
    if s != [] {
      CollapseClears(if last == Some(s[0]) then last else Some(s[0]), s[1..]);
    }
  }

  lemma SkeletonIsSkeleton(s: string)
    ensures IsSkeleton(Skeleton(s))
  {
    LowerAt(s);
    StripBares(ToLower(s));
    FoldPairsClears(StripSeparators(ToLower(s)));
    FoldCharsClears(FoldPairs(StripSeparators(ToLower(s))));
    CollapseClears(None, FoldChars(FoldPairs(StripSeparators(ToLower(s)))));
  }

  // --- a skeleton is left alone --------------------------------------------------------

  lemma {:induction false} StagesKeep(last: Option<char>, s: string)
    requires IsSkeleton(s) && (s != [] ==> last != Some(s[0]))
    ensures ToLower(s) == s && StripSeparators(s) == s
    ensures FoldPairs(s) == s && FoldChars(s) == s && Collapse(last, s) == s
    decreases s
  {
    if s != [] {
      assert s == [s[0]] + s[1..];
      StagesKeep(Some(s[0]), s[1..]);
    }
  }

  lemma SkeletonIsIdempotent(s: string)
    ensures Skeleton(Skeleton(s)) == Skeleton(s)
  {
    SkeletonIsSkeleton(s);
    StagesKeep(None, Skeleton(s));
  }

  /** The image of the fold is exactly the normal forms. */
  lemma ImageIsExactlySkeletons(s: string)
    ensures IsSkeleton(s) <==> exists t :: Skeleton(t) == s
  {
    if IsSkeleton(s) {
      StagesKeep(None, s);
      assert Skeleton(s) == s;
    }
    if t :| Skeleton(t) == s {
      SkeletonIsSkeleton(t);
    }
  }

  // --- what the fold cannot tell apart -----------------------------------------------

  lemma {:induction false} LowerAppends(a: string, b: string)
    ensures ToLower(a + b) == ToLower(a) + ToLower(b)
  {
    if a == [] {
      assert a + b == b;
    } else {
      LowerAppends(a[1..], b);
      assert (a + b)[1..] == a[1..] + b && (a + b)[0] == a[0];
      assert ToLower(a + b) == [LowerChar(a[0])] + ToLower(a[1..] + b);
    }
  }

  lemma {:induction false} StripAppends(a: string, b: string)
    ensures StripSeparators(a + b) == StripSeparators(a) + StripSeparators(b)
  {
    if a == [] {
      assert a + b == b;
    } else {
      StripAppends(a[1..], b);
      assert (a + b)[1..] == a[1..] + b && (a + b)[0] == a[0];
    }
  }

  /** Inserting or removing a separator anywhere changes nothing. */
  lemma SeparatorsDoNotMatter(a: string, separator: char, b: string)
    requires separator == '.' || separator == '_' || separator == '-'
    ensures Skeleton(a + [separator] + b) == Skeleton(a + b)
  {
    var x, y := ToLower(a), ToLower(b);
    assert ToLower(a + [separator] + b) == x + [separator] + y by {
      LowerAppends(a + [separator], b);
      LowerAppends(a, [separator]);
    }
    assert StripSeparators(x + [separator] + y) == StripSeparators(x) + StripSeparators(y) by {
      StripAppends(x + [separator], y);
      StripAppends(x, [separator]);
      assert StripSeparators([separator]) == [];
    }
    LowerAppends(a, b);
    StripAppends(x, y);
  }

  /** Nor does the case of any letter. */
  lemma CaseDoesNotMatter(a: string, b: string)
    requires |a| == |b| && forall i | 0 <= i < |a| :: LowerChar(a[i]) == LowerChar(b[i])
    ensures Skeleton(a) == Skeleton(b)
  {
    LowerAt(a);
    LowerAt(b);
    assert ToLower(a) == ToLower(b);
  }

  // --- the look-alikes, by name ----------------------------------------------------------

  /** No pair straddles the join. */
  predicate Apart(a: string, b: string) {
    a == [] || b == [] || PairFree(a[|a| - 1], b[0])
  }

  lemma {:induction false} PairsAppend(a: string, b: string)
    requires Apart(a, b)
    ensures FoldPairs(a + b) == FoldPairs(a) + FoldPairs(b)
  {
    if a == [] {
      assert a + b == b;
    } else if |a| > 1 && !PairFree(a[0], a[1]) {
      PairsAppend(a[2..], b);
      assert (a + b)[2..] == a[2..] + b && (a + b)[0] == a[0] && (a + b)[1] == a[1];
    } else {
      PairsAppend(a[1..], b);
      assert (a + b)[1..] == a[1..] + b && (a + b)[0] == a[0];
      assert |a| > 1 ==> (a + b)[1] == a[1];
      assert |a| == 1 && b != [] ==> (a + b)[1] == b[0];
    }
  }

  lemma {:induction false} CharsAppend(a: string, b: string)
    ensures FoldChars(a + b) == FoldChars(a) + FoldChars(b)
  {
    if a == [] {
      assert a + b == b;
    } else {
      CharsAppend(a[1..], b);
      assert (a + b)[1..] == a[1..] + b && (a + b)[0] == a[0];
    }
  }

  /** The part of the fold before doubled characters are dropped. */
  function Letters(s: string): string { FoldChars(FoldPairs(StripSeparators(ToLower(s)))) }

  /** Lower case, without separators. */
  function BareText(s: string): string { StripSeparators(ToLower(s)) }

  /** The bare text of three parts is that of each. */
  lemma BareOfThree(a: string, x: string, b: string)
    ensures BareText(a + x + b) == BareText(a) + BareText(x) + BareText(b)
  {
    LowerAppends(a + x, b);
    LowerAppends(a, x);
    StripAppends(ToLower(a) + ToLower(x), ToLower(b));
    StripAppends(ToLower(a), ToLower(x));
  }

  /** Where no pair straddles them, the three parts fold by themselves. */
  lemma LettersOfThree(a: string, x: string, b: string)
    requires Apart(BareText(a), BareText(x)) && Apart(BareText(x), BareText(b)) && BareText(x) != []
    ensures Letters(a + x + b) == Letters(a) + Letters(x) + Letters(b)
  {
    var u, v, w := BareText(a), BareText(x), BareText(b);
    BareOfThree(a, x, b);
    PairsAppend(u, v);
    PairsAppend(u + v, w);
    CharsAppend(FoldPairs(u) + FoldPairs(v), FoldPairs(w));
    CharsAppend(FoldPairs(u), FoldPairs(v));
  }

  /** One lower-case letter or digit that is in no pair. */
  predicate Single(c: char) {
    ('a' <= c <= 'z' || '0' <= c <= '9') && c != 'r' && c != 'n' && c != 'v'
  }

  lemma OneLetter(c: char)
    requires 'a' <= c <= 'z' || '0' <= c <= '9'
    ensures ToLower([c]) == [c] && StripSeparators([c]) == [c] && FoldPairs([c]) == [c]
    ensures FoldChars([c]) == [FoldChar(c)] && Collapse(None, [c]) == [c]
  {
    assert [c][1..] == [];
  }

  lemma SingleFolds(c: char)
    requires Single(c)
    ensures BareText([c]) == [c] && Letters([c]) == [FoldChar(c)]
  {
    OneLetter(c);
  }

  lemma PairFolds(x: char, y: char)
    requires (x == 'r' && y == 'n') || (x == 'v' && y == 'v')
    ensures ToLower([x, y]) == [x, y] && BareText([x, y]) == [x, y]
    ensures Letters([x, y]) == if x == 'r' then "m" else "w"
  {
    OneLetter(x);
    OneLetter(y);
    OneLetter(if x == 'r' then 'm' else 'w');
    LowerAppends([x], [y]);
    StripAppends([x], [y]);
    assert [x, y] == [x] + [y] && [x, y][2..] == [];
  }

  /** The single characters the fold takes for one another. */
  predicate SameLetter(x: char, y: char) {
    (x, y) in {('0', 'o'), ('1', 'l'), ('i', 'l'), ('5', 's'), ('2', 'z'), ('8', 'b')}
  }

  /** A look-alike character anywhere, in place of the letter it looks like, changes nothing. */
  lemma LookAlikesFoldTogether(a: string, x: char, y: char, b: string)
    requires SameLetter(x, y)
    ensures Skeleton(a + [x] + b) == Skeleton(a + [y] + b)
  {
    SingleFolds(x);
    SingleFolds(y);
    LettersOfThree(a, [x], b);
    LettersOfThree(a, [y], b);
  }

  /** Nor does "rn" in place of "m". */
  lemma RnFoldsToM(a: string, b: string)
    ensures Skeleton(a + "rn" + b) == Skeleton(a + "m" + b)
  {
    PairFolds('r', 'n');
    SingleFolds('m');
    LettersOfThree(a, "rn", b);
    LettersOfThree(a, "m", b);
  }

  lemma VvAppends(w: string)
    ensures FoldPairs("vv" + w) == "w" + FoldPairs(w)
  {
    assert ("vv" + w)[2..] == w && ("vv" + w)[0] == 'v' && ("vv" + w)[1] == 'v';
  }

  lemma PairsAround(u: string, w: string)
    requires u == [] || u[|u| - 1] != 'v'
    ensures FoldChars(FoldPairs(u + "vv" + w)) == FoldChars(FoldPairs(u)) + FoldChars("w") + FoldChars(FoldPairs(w))
  {
    var rest := "vv" + w;
    assert u + "vv" + w == u + rest && rest[0] == 'v';
    PairsAppend(u, rest);
    VvAppends(w);
    CharsAppend(FoldPairs(u), "w" + FoldPairs(w));
    CharsAppend("w", FoldPairs(w));
  }

  lemma LettersOfVv(a: string, b: string)
    requires BareText(a) == [] || BareText(a)[|BareText(a)| - 1] != 'v'
    ensures Letters(a + "vv" + b) == Letters(a) + FoldChars("w") + Letters(b)
  {
    PairFolds('v', 'v');
    BareOfThree(a, "vv", b);
    PairsAround(BareText(a), BareText(b));
  }

  /** Nor "vv" in place of "w", after anything but another 'v'. */
  lemma VvFoldsToW(a: string, b: string)
    requires BareText(a) == [] || BareText(a)[|BareText(a)| - 1] != 'v'
    ensures Skeleton(a + "vv" + b) == Skeleton(a + "w" + b)
  {
    LettersOfVv(a, b);
    SingleFolds('w');
    OneLetter('w');
    LettersOfThree(a, "w", b);
    assert Letters("w") == FoldChars("w");
  }

  /** Letters that look like nothing else stay apart, alone or between others. */
  lemma OtherLettersStay(c: char)
    requires ('a' <= c <= 'z' || '0' <= c <= '9') && !IsFoldSource(c)
    ensures Skeleton([c]) == [c]
  {
    OneLetter(c);
    OneLetter(FoldChar(c));
  }

  /** Nor a capital in place of its small letter. */
  lemma CapitalsFoldToSmall(a: string, c: char, b: string)
    requires 'A' <= c <= 'Z'
    ensures Skeleton(a + [c] + b) == Skeleton(a + [c - 'A' + 'a'] + b)
  {
    var x, y := a + [c] + b, a + [c - 'A' + 'a'] + b;
    forall i | 0 <= i < |x| ensures LowerChar(x[i]) == LowerChar(y[i]) {
      if i < |a| {
        assert x[i] == a[i] == y[i];
      } else if i > |a| {
        assert x[i] == b[i - |a| - 1] == y[i];
      }
    }
    CaseDoesNotMatter(x, y);
  }

  lemma {:induction false} CollapseDoubled(last: Option<char>, a: string, c: char, b: string)
    ensures Collapse(last, a + [c, c] + b) == Collapse(last, a + [c] + b)
    decreases a
  {
    var x, y := a + [c, c] + b, a + [c] + b;
    if a == [] {
      assert x[1..] == y && x[0] == c && y[0] == c;
    } else {
      CollapseDoubled(if last == Some(a[0]) then last else Some(a[0]), a[1..], c, b);
      assert x[1..] == a[1..] + [c, c] + b && y[1..] == a[1..] + [c] + b && x[0] == a[0] == y[0];
    }
  }

  /** Nor a character written twice. */
  lemma DoublesDoNotMatter(a: string, c: char, b: string)
    requires Single(c)
    ensures Skeleton(a + [c, c] + b) == Skeleton(a + [c] + b)
  {
    SingleFolds(c);
    LettersOfThree(a, [c], [c] + b);
    LettersOfThree(a, [c], b);
    LettersOfThree([], [c], b);
    assert a + [c] + ([c] + b) == a + [c, c] + b && [] + [c] + b == [c] + b;
    assert Letters([]) == [] && [] + Letters([c]) + Letters(b) == Letters([c]) + Letters(b);
    var f := FoldChar(c);
    assert Letters(a) + [f] + ([f] + Letters(b)) == Letters(a) + [f, f] + Letters(b);
    CollapseDoubled(None, Letters(a), f, Letters(b));
  }
}
