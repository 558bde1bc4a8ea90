/**
 * The two JavaScript array operations the table pipeline uses, on values:
 * `Array.prototype.filter` (Select) and `Array.prototype.slice` (Slice).
 */
module ArrayOps {

  /** `a` occurs in `b` in order, possibly with other elements between. */
  ghost predicate SubsequenceOf<T>(a: seq<T>, b: seq<T>)
    decreases |b|
  {
    if a == [] then true
    else if b == [] then false
    else (a[0] == b[0] && SubsequenceOf(a[1..], b[1..])) || SubsequenceOf(a, b[1..])
  }

  /** `s.filter(keep)`: the elements of `s` that satisfy `keep`, in their order. */
  function Select<T(==)>(s: seq<T>, keep: T -> bool): (r: seq<T>)
    ensures |r| <= |s|
    ensures forall k :: 0 <= k < |r| ==> keep(r[k]) && r[k] in s
  {
    if s == [] then []
    else (if keep(s[0]) then [s[0]] else []) + Select(s[1..], keep)
  }

  /** Select keeps each value exactly as often as it occurs in `s` when it satisfies `keep`, and never otherwise. */
  lemma {:induction false} SelectCount<T>(s: seq<T>, keep: T -> bool, x: T)
    ensures multiset(Select(s, keep))[x] == if keep(x) then multiset(s)[x] else 0
  {
    if s != [] {
      SelectCount(s[1..], keep, x);
      assert s == [s[0]] + s[1..];
      assert multiset(s) == multiset([s[0]]) + multiset(s[1..]);
    }
  }

  /** Every element of `s` that satisfies `keep` is selected. */
  lemma SelectComplete<T>(s: seq<T>, keep: T -> bool, x: T)
    requires x in s && keep(x)
    ensures x in Select(s, keep)
  {
    SelectCount(s, keep, x);
    assert x in multiset(s);
  }

  /** Select preserves the relative order of what it keeps. */
  lemma {:induction false} SelectIsSubsequence<T>(s: seq<T>, keep: T -> bool)
    ensures SubsequenceOf(Select(s, keep), s)
  {
    if s != [] {
      SelectIsSubsequence(s[1..], keep);
      var rest := Select(s[1..], keep);
      if keep(s[0]) {
        assert Select(s, keep) == [s[0]] + rest;
        assert ([s[0]] + rest)[1..] == rest;
      } else {
        assert Select(s, keep) == rest;
      }
    }
  }

  /** Selecting with a predicate every element already satisfies changes nothing. */
  lemma {:induction false} SelectAll<T>(s: seq<T>, keep: T -> bool)
    requires forall k :: 0 <= k < |s| ==> keep(s[k])
    ensures Select(s, keep) == s
  {
    if s != [] {
      SelectAll(s[1..], keep);
      assert s == [s[0]] + s[1..];
    }
  }

  /** Two predicates that agree everywhere select the same elements. */
  lemma {:induction false} SelectExt<T>(s: seq<T>, p: T -> bool, q: T -> bool)
    requires forall x :: p(x) == q(x)
    ensures Select(s, p) == Select(s, q)
  {
    if s != [] {
      SelectExt(s[1..], p, q);
    }
  }

  /** Two filters in a row select what one filter on the conjunction selects. */
  lemma {:induction false} SelectSelect<T>(s: seq<T>, p: T -> bool, q: T -> bool, both: T -> bool)
    requires forall x :: both(x) == (p(x) && q(x))
    ensures Select(Select(s, p), q) == Select(s, both)
  {
    if s != [] {
      SelectSelect(s[1..], p, q, both);
      var rest := Select(s[1..], p);
      if p(s[0]) {
        assert Select(s, p) == [s[0]] + rest;
        assert ([s[0]] + rest)[1..] == rest;
      } else {
        assert Select(s, p) == rest;
      }
    }
  }

  /**
   * Where `slice` starts or ends for argument `i` on an array of length `len`:
   * a negative `i` counts back from the end, and the result is clipped to [0, len].
   */
  function ClipIndex(i: int, len: nat): (k: nat)
    ensures k <= len
  {
    if i < 0 then (if len + i < 0 then 0 else len + i)
    else if i < len then i else len
  }

  /** `s.slice(start, end)`: the elements from the clipped start up to the clipped end, or none when they cross. */
  function Slice<T>(s: seq<T>, start: int, end: int): (r: seq<T>)
    ensures |r| <= |s|
    ensures start <= end ==> |r| <= end - start
    ensures ClipIndex(start, |s|) + |r| <= |s|
    ensures |r| == if ClipIndex(start, |s|) < ClipIndex(end, |s|) then ClipIndex(end, |s|) - ClipIndex(start, |s|) else 0
    ensures forall k :: 0 <= k < |r| ==> r[k] == s[ClipIndex(start, |s|) + k]
  {
    var from, to := ClipIndex(start, |s|), ClipIndex(end, |s|);
    if from < to then s[from..to] else []
  }

  /** Within bounds, `slice` is the ordinary subsequence; past the end it is clipped. */
  lemma SliceInBounds<T>(s: seq<T>, start: nat, end: nat)
    requires start <= end
    ensures Slice(s, start, end) == if start < |s| then s[start..if end < |s| then end else |s|] else []
  {
  }

  /** `slice(-n, 0)` is always empty: the end clips to 0. */
  lemma SliceToZero<T>(s: seq<T>, start: int)
    ensures Slice(s, start, 0) == []
  {
  }
}
