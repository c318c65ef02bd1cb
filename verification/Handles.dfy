/** The pure rules for handles: syntax, reserved names, the look-alike fold, price tiers and generated names. */
module Handles {
  import opened Wrappers

  // --- the look-alike fold -------------------------------------------------------

  predicate IsUpper(c: char) { 'A' <= c <= 'Z' }

  predicate IsSeparator(c: char) { c == '.' || c == '_' || c == '-' }

  predicate IsFoldSource(c: char) { c == '0' || c == '1' || c == 'i' || c == '5' || c == '2' || c == '8' }

  function LowerChar(c: char): char {
    if IsUpper(c) then c - 'A' + 'a' else c
  }

  function FoldChar(c: char): char {
    if c == '0' then 'o'
    else if c == '1' || c == 'i' then 'l'
    else if c == '5' then 's'
    else if c == '2' then 'z'
    else if c == '8' then 'b'
    else c
  }

  function ToLower(s: string): (r: string)
    ensures |r| == |s|
  {
    if s == [] then [] else [LowerChar(s[0])] + ToLower(s[1..])
  }

  function StripSeparators(s: string): string {
    if s == [] then []
    else if IsSeparator(s[0]) then StripSeparators(s[1..])
    else [s[0]] + StripSeparators(s[1..])
  }

  /** Left to right and without overlaps, "rn" becomes "m" and "vv" becomes "w". */
  function FoldPairs(s: string): string {
    if s == [] then []
    else if |s| > 1 && s[0] == 'r' && s[1] == 'n' then "m" + FoldPairs(s[2..])
    else if |s| > 1 && s[0] == 'v' && s[1] == 'v' then "w" + FoldPairs(s[2..])
    else [s[0]] + FoldPairs(s[1..])
  }

  function FoldChars(s: string): string {
    if s == [] then [] else [FoldChar(s[0])] + FoldChars(s[1..])
  }

  /** Drops every character equal to the one before it; last is the one before s. */
  function Collapse(last: Option<char>, s: string): string
    decreases s
  {
    if s == [] then []
    else if last == Some(s[0]) then Collapse(last, s[1..])
    else [s[0]] + Collapse(Some(s[0]), s[1..])
  }

  function Skeleton(s: string): string {
    Collapse(None, FoldChars(FoldPairs(StripSeparators(ToLower(s)))))
  }

  /** The fold with its last stage as the loop over a builder that it is. */
  method ComputeSkeleton(s: string) returns (r: string)
    ensures r == Skeleton(s)
  {
    var folded := FoldChars(FoldPairs(StripSeparators(ToLower(s))));
    var b, last := "", None;
    for i := 0 to |folded|
      invariant b + Collapse(last, folded[i..]) == Collapse(None, folded)
    {
      assert folded[i..][1..] == folded[i + 1..];
      if Some(folded[i]) != last {
        b := b + [folded[i]];
      }
      last := Some(folded[i]);
    }
    r := b;
  }

  // --- syntax and reserved names -------------------------------------------------

  predicate IsAlnum(c: char) { 'a' <= c <= 'z' || '0' <= c <= '9' }

  predicate WellFormed(h: string) {
    && 1 <= |h| <= 32
    && IsAlnum(h[0]) && IsAlnum(h[|h| - 1])
    && forall i | 0 <= i < |h| :: IsAlnum(h[i]) || IsSeparator(h[i])
  }

  const RESERVED: seq<string> := [
    "admin", "administrator", "root", "support", "help", "postmaster", "abuse",
    "security", "info", "available", "api", "bsvalias", "system", "official", "noreply"]

  predicate ReservedSkeleton(skeleton: string) {
    exists i :: 0 <= i < |RESERVED| && Skeleton(RESERVED[i]) == skeleton
  }

  datatype HandleError = InvalidHandle | ReservedHandle

  function Validate(h: string): Option<HandleError> {
    if !WellFormed(h) then Some(InvalidHandle)
    else if ReservedSkeleton(Skeleton(h)) then Some(ReservedHandle)
    else None
  }

  // --- tiers and generated names ---------------------------------------------------

  const TOP_TIER := 7

  function Tier(h: string): (t: int)
    ensures 1 <= t <= TOP_TIER
    ensures 1 <= |h| <= 7 ==> t == |h|
    ensures |h| > 7 ==> t == 7
  {
    var n := if |h| > 1 then |h| else 1;
    if n < TOP_TIER then n else TOP_TIER
  }

  /** The generator's word lists. */
  datatype Words = Words(adjectives: set<string>, animals: set<string>)

  predicate IsLetters(s: string) {
    |s| > 0 && forall i | 0 <= i < |s| :: 'a' <= s[i] <= 'z'
  }

  predicate IsDigit(c: char) { '0' <= c <= '9' }

  /** Some letters, then exactly two digits. */
  predicate GeneratedShape(s: string) {
    |s| > 2 && IsLetters(s[..|s| - 2]) && IsDigit(s[|s| - 2]) && IsDigit(s[|s| - 1])
  }

  /** The letters are an adjective followed by an animal. */
  predicate IsGenerated(h: string, words: Words) {
    var s := ToLower(h);
    && GeneratedShape(s)
    && exists i :: 0 < i < |s| - 2 && s[..i] in words.adjectives && s[i..|s| - 2] in words.animals
  }

  method ComputeIsGenerated(h: string, words: Words) returns (r: bool)
    ensures r == IsGenerated(h, words)
  {
    var s := ToLower(h);
    if !GeneratedShape(s) { return false; }
    var letters := s[..|s| - 2];
    for i := 1 to |letters|
      invariant forall k | 0 < k < i :: !(s[..k] in words.adjectives && s[k..|s| - 2] in words.animals)
    {
      assert letters[..i] == s[..i] && letters[i..] == s[i..|s| - 2];
      if letters[..i] in words.adjectives && letters[i..] in words.animals { return true; }
    }
    return false;
  }
}
