/** What the rules for handles say of a handle's own characters. */
module HandleLaws {
  import opened Wrappers
  import opened Handles

  predicate SmallOrDigit(c: char) { 'a' <= c <= 'z' || '0' <= c <= '9' }

  /** The names a service goes by, which are the reserved ones. */
  predicate ServiceName(r: string) {
    r in {"admin", "administrator", "root", "support", "help", "postmaster", "abuse", "security", "info",
          "available", "api", "bsvalias", "system", "official", "noreply"}
  }

  lemma ServiceNamesAreReserved(r: string)
    ensures ServiceName(r) <==> r in RESERVED
  {
    assert RESERVED[0] == "admin" && RESERVED[1] == "administrator" && RESERVED[2] == "root";
    assert RESERVED[3] == "support" && RESERVED[4] == "help" && RESERVED[5] == "postmaster";
    assert RESERVED[6] == "abuse" && RESERVED[7] == "security" && RESERVED[8] == "info";
    assert RESERVED[9] == "available" && RESERVED[10] == "api" && RESERVED[11] == "bsvalias";
    assert RESERVED[12] == "system" && RESERVED[13] == "official" && RESERVED[14] == "noreply";
  }

  lemma WellFormedIff(h: string)
    ensures WellFormed(h) <==>
              && 1 <= |h| <= 32 && SmallOrDigit(h[0]) && SmallOrDigit(h[|h| - 1])
              && forall i | 0 <= i < |h| :: SmallOrDigit(h[i]) || h[i] == '.' || h[i] == '_' || h[i] == '-'
  {
  }

  lemma ReservedSkeletonIff(skeleton: string)
    ensures ReservedSkeleton(skeleton) <==> exists r :: r in RESERVED && Skeleton(r) == skeleton
  {
    if r :| r in RESERVED && Skeleton(r) == skeleton {
      var i :| 0 <= i < |RESERVED| && RESERVED[i] == r;
    }
    if i :| 0 <= i < |RESERVED| && Skeleton(RESERVED[i]) == skeleton {
      assert RESERVED[i] in RESERVED;
    }
  }

  /**
   A handle is one to 32 small letters, digits, dots, underscores and hyphens that begins and ends with a letter or a
   digit; and it is reserved exactly if it then looks like one of the reserved names.
   */
  lemma ValidateIff(h: string)
    ensures Validate(h) != Some(InvalidHandle) <==>
              && 1 <= |h| <= 32 && SmallOrDigit(h[0]) && SmallOrDigit(h[|h| - 1])
              && forall i | 0 <= i < |h| :: SmallOrDigit(h[i]) || h[i] == '.' || h[i] == '_' || h[i] == '-'
    ensures Validate(h) == Some(ReservedHandle) <==>
              Validate(h) != Some(InvalidHandle) && exists r :: r in RESERVED && Skeleton(r) == Skeleton(h)
  {
    WellFormedIff(h);
    ReservedSkeletonIff(Skeleton(h));
  }

  ghost predicate SmallLetters(s: string) {
    |s| > 0 && forall i | 0 <= i < |s| :: 'a' <= s[i] <= 'z'
  }

  /** h, in lower case, is the letters of adjective and animal and two digits. */
  ghost predicate IsMadeOf(h: string, adjective: string, animal: string, d: char, e: char) {
    && SmallLetters(adjective) && SmallLetters(animal) && '0' <= d <= '9' && '0' <= e <= '9'
    && ToLower(h) == adjective + animal + [d, e]
  }

  /** The app gives away exactly the names of an adjective, an animal and two digits. */
  lemma GeneratedIff(h: string, words: Words)
    ensures IsGenerated(h, words) <==>
              exists a, b, d, e :: a in words.adjectives && b in words.animals && IsMadeOf(h, a, b, d, e)
  {
    var s := ToLower(h);
    if IsGenerated(h, words) {
      var i :| 0 < i < |s| - 2 && s[..i] in words.adjectives && s[i..|s| - 2] in words.animals;
      assert s == s[..i] + s[i..|s| - 2] + [s[|s| - 2], s[|s| - 1]];
      assert IsMadeOf(h, s[..i], s[i..|s| - 2], s[|s| - 2], s[|s| - 1]);
    }
    if a, b, d, e :| a in words.adjectives && b in words.animals && IsMadeOf(h, a, b, d, e) {
      assert s[..|a|] == a && s[|a|..|s| - 2] == b && s[..|s| - 2] == a + b;
      assert s[|s| - 2] == d && s[|s| - 1] == e;
    }
  }
}
