/**
 * The two string operations the name filter relies on:
 * `String.prototype.toLowerCase` (restricted here to ASCII letters) and
 * `String.prototype.includes` (substring test).
 */
module Text {

  predicate IsUpper(c: char) {
    'A' <= c <= 'Z'
  }

  /** Lower-cases one ASCII capital letter and leaves every other character alone. */
  function LowerChar(c: char): (d: char)
    ensures !IsUpper(d)
    ensures IsUpper(c) ==> d as int == c as int + 32
    ensures !IsUpper(c) ==> d == c
  {
    if IsUpper(c) then (c as int + 32) as char else c
  }

  /** Lower-cases a string character by character. */
  function Lower(s: string): (t: string)
    ensures |t| == |s|
    ensures forall i :: 0 <= i < |s| ==> t[i] == LowerChar(s[i])
  {
    if s == [] then [] else [LowerChar(s[0])] + Lower(s[1..])
  }

  /** `p` occurs in `s` starting at index `i`. */
  predicate OccursAt(s: string, p: string, i: int) {
    0 <= i <= |s| - |p| && s[i..i + |p|] == p
  }

  /** `s.includes(p)`: `p` occurs in `s` at some position; never when `p` is longer, always when `p` is empty. */
  predicate Contains(s: string, p: string): (b: bool)
    ensures |p| > |s| ==> !b
    ensures p == [] ==> b
  {
    assert p == [] ==> OccursAt(s, p, 0);
    exists i :: 0 <= i <= |s| - |p| && OccursAt(s, p, i)
  }

  /** Two characters are the same letter up to ASCII case, or simply equal. */
  predicate SameUpToCase(a: char, b: char) {
    a == b ||
    (IsUpper(a) && b as int == a as int + 32) ||
    (IsUpper(b) && a as int == b as int + 32)
  }

  /** Lower-casing identifies two characters exactly when they differ at most in ASCII case. */
  lemma LowerCharEqualIff(a: char, b: char)
    ensures LowerChar(a) == LowerChar(b) <==> SameUpToCase(a, b)
  {
  }

  /** Two strings lower-case alike exactly when they have the same length and agree position by position up to ASCII case. */
  lemma LowerEqualIff(f: string, g: string)
    ensures Lower(f) == Lower(g) <==> |f| == |g| && forall i :: 0 <= i < |f| ==> SameUpToCase(f[i], g[i])
  {
    if |f| == |g| {
      forall i | 0 <= i < |f|
        ensures Lower(f)[i] == Lower(g)[i] <==> SameUpToCase(f[i], g[i])
      {
        LowerCharEqualIff(f[i], g[i]);
      }
    }
  }

  /** Lower-casing twice is lower-casing once. */
  lemma LowerIdempotent(s: string)
    ensures Lower(Lower(s)) == Lower(s)
  {
    var t := Lower(s);
    assert forall i :: 0 <= i < |s| ==> Lower(t)[i] == LowerChar(LowerChar(s[i]));
  }

  /** Every string includes the empty string, and a string includes itself. */
  lemma ContainsTrivial(s: string)
    ensures Contains(s, "")
    ensures Contains(s, s)
  {
    assert OccursAt(s, "", 0);
    assert OccursAt(s, s, 0);
  }
}
