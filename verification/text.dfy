/**
 * The two string primitives the watchlist relies on: `toLowerCase`, modelled on
 * ASCII letters only, and `includes`, case-sensitive substring containment.
 */
module Text {

  /** True when `c` is an ASCII capital letter. */
  predicate IsUpper(c: char)
  {
    'A' <= c <= 'Z'
  }

  /** Lower-cases one character: ASCII capitals map to their small letter. */
  function LowerChar(c: char): (r: char)
    ensures !IsUpper(r)
    ensures !IsUpper(c) ==> r == c
    ensures IsUpper(c) ==> r != c && r as int - c as int == 'a' as int - 'A' as int
  {
    if IsUpper(c) then (c as int + ('a' as int - 'A' as int)) as char else c
  }

  /** A string with no capital letter in it. */
  predicate IsLower(s: string)
  {
    forall i :: 0 <= i < |s| ==> !IsUpper(s[i])
  }

  /** `s.toLowerCase()`, restricted to ASCII capitals. */
  function Lower(s: string): (r: string)
    ensures |r| == |s|
    ensures IsLower(r)
    ensures forall i :: 0 <= i < |s| && !IsUpper(s[i]) ==> r[i] == s[i]
    ensures IsLower(s) ==> r == s
  {
    seq(|s|, i requires 0 <= i < |s| => LowerChar(s[i]))
  }

  /** Lower-casing twice is the same as lower-casing once. */
  lemma LowerIdempotent(s: string)
    ensures Lower(Lower(s)) == Lower(s)
  {
  }

  /** `q` occurs in `s` starting at index `i`. */
  predicate OccursAt(s: string, q: string, i: int)
  {
    0 <= i && i + |q| <= |s| && s[i..i + |q|] == q
  }

  /**
   * `s.includes(q)`: `q` occurs somewhere in `s`, matching case exactly. The
   * empty query occurs (at index 0) in every string.
   */
  predicate Contains(s: string, q: string)
    ensures |q| == 0 ==> Contains(s, q)
  {
    assert |q| == 0 ==> OccursAt(s, q, 0);
    exists i :: 0 <= i <= |s| - |q| && OccursAt(s, q, i)
  }

  /**
   * A query holding a capital letter matches no lower-cased string: the match
   * is case-sensitive while the stored titles are all lower case.
   */
  lemma UpperQueryMatchesNoLower(s: string, q: string, k: int)
    requires IsLower(s)
    requires 0 <= k < |q| && IsUpper(q[k])
    ensures !Contains(s, q)
  {
    forall i | 0 <= i <= |s| - |q|
      ensures !OccursAt(s, q, i)
    {
      assert s[i..i + |q|][k] == s[i + k];
    }
  }
}
