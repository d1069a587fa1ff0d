/**
 The two string operations the book search relies on: lower-casing and
 Python's `needle in haystack` substring test. Lower-casing is ASCII only.
 */
module Text {

  predicate IsUpper(c: char)
  {
    'A' <= c <= 'Z'
  }

  function LowerChar(c: char): (d: char)
    ensures !IsUpper(d)
    ensures !IsUpper(c) ==> d == c
    ensures IsUpper(c) ==> d as int - c as int == 'a' as int - 'A' as int
  {
    if IsUpper(c) then (c as int - 'A' as int + 'a' as int) as char else c
  }

  /** `s.lower()`, restricted to the ASCII letters. */
  function Lower(s: string): (r: string)
    ensures |r| == |s|
    ensures forall i :: 0 <= i < |r| ==> !IsUpper(r[i])
    ensures forall i :: 0 <= i < |s| && !IsUpper(s[i]) ==> r[i] == s[i]
    ensures forall i :: 0 <= i < |s| ==> r[i] == LowerChar(s[i])
  {
    seq(|s|, i requires 0 <= i < |s| => LowerChar(s[i]))
  }

  lemma LowerIdempotent(s: string)
    ensures Lower(Lower(s)) == Lower(s)
  {
  }

  /** `k` occurs in `s` starting at position `i`. */
  predicate OccursAt(k: string, s: string, i: int)
  {
    0 <= i && i + |k| <= |s| && s[i..i + |k|] == k
  }

  /** Python's `k in s` on strings. */
  predicate IsSubstring(k: string, s: string)
  {
    exists i :: 0 <= i <= |s| - |k| && OccursAt(k, s, i)
  }

  /** The empty string is a substring of every string. */
  lemma EmptyIsSubstring(s: string)
    ensures IsSubstring("", s)
  {
    assert OccursAt("", s, 0);
  }

  /** Naive left-to-right scan deciding `k in s`. */
  method Contains(k: string, s: string) returns (found: bool)
    ensures found <==> IsSubstring(k, s)
  {
    if |k| > |s| {
      return false;
    }
    var i := 0;
    while i <= |s| - |k|
      invariant 0 <= i <= |s| - |k| + 1
      invariant forall j :: 0 <= j < i ==> !OccursAt(k, s, j)
    {
      var m := 0;
      while m < |k| && s[i + m] == k[m]
        invariant 0 <= m <= |k|
        invariant forall t :: 0 <= t < m ==> s[i + t] == k[t]
      {
        m := m + 1;
      }
      if m == |k| {
        assert OccursAt(k, s, i);
        return true;
      }
      assert s[i..i + |k|][m] != k[m];
      i := i + 1;
    }
    return false;
  }
}
