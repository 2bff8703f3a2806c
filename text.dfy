/** String operations of JavaScript used by the model: `indexOf` and `Array.prototype.join`. */
module Text {

  /** `pat` occurs in `s` starting at index `i`. */
  predicate OccursAt(s: string, pat: string, i: nat)
  {
    i + |pat| <= |s| && s[i..i + |pat|] == pat
  }

  /** `pat` occurs somewhere in `s`. */
  predicate Contains(s: string, pat: string)
  {
    exists i: nat :: i <= |s| && OccursAt(s, pat, i)
  }

  /** `s.endsWith(suffix)`. */
  predicate EndsWith(s: string, suffix: string)
  {
    |suffix| <= |s| && s[|s| - |suffix|..] == suffix
  }

  /** `s.indexOf(pat, from)`: the first index at or after `from` where `pat` occurs, or -1. */
  function IndexOfFrom(s: string, pat: string, from: nat): (r: int)
    decreases |s| - from
    ensures r == -1 || (from <= r && OccursAt(s, pat, r))
    ensures r == -1 <==> forall i: nat :: from <= i ==> !OccursAt(s, pat, i)
    ensures r != -1 ==> forall i: nat :: from <= i < r ==> !OccursAt(s, pat, i)
  {
    if from + |pat| > |s| then -1
    else if s[from..from + |pat|] == pat then from
    else IndexOfFrom(s, pat, from + 1)
  }

  /** `s.indexOf(pat)`. */
  function IndexOf(s: string, pat: string): int
  {
    IndexOfFrom(s, pat, 0)
  }

  /** `indexOf` finds something exactly when the pattern occurs. */
  lemma IndexOfFinds(s: string, pat: string)
    ensures IndexOf(s, pat) != -1 <==> Contains(s, pat)
    ensures IndexOf(s, pat) != -1 ==> OccursAt(s, pat, IndexOf(s, pat))
  {
    if IndexOf(s, pat) != -1 {
      assert OccursAt(s, pat, IndexOf(s, pat));
    }
  }

  /** The search result is pinned down by an occurrence with no earlier one. */
  lemma IndexOfFromIs(s: string, pat: string, from: nat, e: nat)
    requires from <= e && OccursAt(s, pat, e)
    requires forall i: nat :: from <= i < e ==> !OccursAt(s, pat, i)
    ensures IndexOfFrom(s, pat, from) == e
  {
  }

  /** An occurrence inside a prefix is an occurrence in the whole string, and back. */
  lemma OccursInPrefix(s: string, t: string, pat: string, i: nat)
    requires i + |pat| <= |s|
    ensures OccursAt(s + t, pat, i) <==> OccursAt(s, pat, i)
  {
    assert (s + t)[i..i + |pat|] == s[i..i + |pat|];
  }

  /** An occurrence inside a suffix, shifted by the length of what precedes it. */
  lemma OccursInSuffix(s: string, t: string, pat: string, i: nat)
    ensures OccursAt(s + t, pat, |s| + i) <==> OccursAt(t, pat, i)
  {
    if i + |pat| <= |t| {
      assert (s + t)[|s| + i..|s| + i + |pat|] == t[i..i + |pat|];
    }
  }

  /** `a + b + c` begins with `a` and ends with `c`. */
  lemma Framed(a: string, b: string, c: string)
    ensures a <= a + b + c && EndsWith(a + b + c, c)
  {
    var t := a + b + c;
    assert t[..|a|] == a;
    assert t[|t| - |c|..] == c;
  }

  /** The first character of `pat` does not recur in it. */
  predicate OpensOnce(pat: string)
  {
    pat != [] && forall k :: 0 < k < |pat| ==> pat[k] != pat[0]
  }

  /**
   * In `x` followed by text that opens like `pat`, no occurrence of `pat`
   * begins inside `x` when `x` holds none: one running past the end of `x`
   * would meet the first character of `pat` again inside `pat`.
   */
  lemma NoOccurrenceBefore(x: string, y: string, pat: string)
    requires OpensOnce(pat) && !Contains(x, pat)
    requires y != [] && y[0] == pat[0]
    ensures forall p: nat :: p < |x| ==> !OccursAt(x + y, pat, p)
  {
    var t := x + y;
    forall p: nat | p < |x| ensures !OccursAt(t, pat, p) {
      if p + |pat| <= |x| {
        OccursInPrefix(x, y, pat, p);
      } else if p + |pat| <= |t| {
        assert t[p..p + |pat|][|x| - p] == t[|x|] == pat[0];
      }
    }
  }

  /** Appending characters that `pat` does not hold creates no occurrence of `pat`. */
  lemma NoOccurrenceAppending(x: string, z: string, pat: string)
    requires pat != [] && !Contains(x, pat)
    requires forall k, j :: 0 <= k < |pat| && 0 <= j < |z| ==> pat[k] != z[j]
    ensures !Contains(x + z, pat)
  {
    var t := x + z;
    forall i: nat | i <= |t| ensures !OccursAt(t, pat, i) {
      if i + |pat| <= |x| {
        OccursInPrefix(x, z, pat, i);
      } else if i + |pat| <= |t| {
        assert t[i..i + |pat|][|pat| - 1] == t[i + |pat| - 1] == z[i + |pat| - 1 - |x|];
      }
    }
  }

  /** Before the first occurrence of `pat`, there is none. */
  lemma NoOccurrenceBeforeFirst(s: string, pat: string)
    requires pat != [] && IndexOf(s, pat) >= 0
    ensures !Contains(s[..IndexOf(s, pat)], pat)
  {
    var e := IndexOf(s, pat);
    var prefix := s[..e];
    assert s == prefix + s[e..];
    forall p: nat | p <= |prefix| ensures !OccursAt(prefix, pat, p) {
      if p + |pat| <= |prefix| {
        assert !OccursAt(s, pat, p);
        OccursInPrefix(prefix, s[e..], pat, p);
      }
    }
  }

  /** `parts.join(sep)`. */
  function Join(parts: seq<string>, sep: string): string
  {
    if parts == [] then ""
    else if |parts| == 1 then parts[0]
    else parts[0] + sep + Join(parts[1..], sep)
  }

  /** Joining one more part appends the separator and that part. */
  lemma {:induction false} JoinSnoc(parts: seq<string>, p: string, sep: string)
    requires parts != []
    ensures Join(parts + [p], sep) == Join(parts, sep) + sep + p
  {
    if |parts| == 1 {
      assert parts + [p] == [parts[0], p];
    } else {
      assert (parts + [p])[1..] == parts[1..] + [p];
      JoinSnoc(parts[1..], p, sep);
    }
  }
}
