/** The two string operations the position filter uses: `toLowerCase`, restricted to
    ASCII letters, and `includes`, the substring test. */
module Text {

  predicate IsUpper(c: char) {
    'A' <= c <= 'Z'
  }

  /** ASCII lower-casing of one character; everything but `A`..`Z` is kept. */
  function LowerChar(c: char): (r: char)
    ensures !IsUpper(r)
    ensures IsUpper(c) ==> r as int == c as int + ('a' as int - 'A' as int)
    ensures !IsUpper(c) ==> r == c
  {
    if IsUpper(c) then (c as int + ('a' as int - 'A' as int)) as char else c
  }

  /** `s.toLowerCase()` over ASCII: every character lower-cased, in place. */
  function Lower(s: string): (r: string)
    ensures |r| == |s|
    ensures forall i :: 0 <= i < |r| ==> !IsUpper(r[i])
    ensures forall i :: 0 <= i < |s| && IsUpper(s[i]) ==> r[i] as int == s[i] as int + ('a' as int - 'A' as int)
    ensures forall i :: 0 <= i < |s| && !IsUpper(s[i]) ==> r[i] == s[i]
  {
    seq(|s|, i requires 0 <= i < |s| => LowerChar(s[i]))
  }

  /** `n` occurs in `h` starting at index `i`. */
  ghost predicate OccursAt(h: string, n: string, i: int) {
    0 <= i && i + |n| <= |h| && h[i..i + |n|] == n
  }

  /** `h.includes(n)`: true exactly when `n` occurs somewhere in `h`; the empty
      string occurs in every string. */
  function Includes(h: string, n: string): (r: bool)
    ensures r <==> exists i :: OccursAt(h, n, i)
    decreases |h|
  {
    if n <= h then
      assert OccursAt(h, n, 0);
      true
    else if h == [] then
      assert forall i :: !OccursAt(h, n, i);
      false
    else
      ShiftOccurrence(h, n);
      Includes(h[1..], n)
  }

  /** Dropping the first character of `h` shifts every later occurrence by one. */
  lemma ShiftOccurrence(h: string, n: string)
    requires h != [] && !(n <= h)
    ensures (exists i :: OccursAt(h, n, i)) <==> (exists i :: OccursAt(h[1..], n, i))
  {
    forall i | OccursAt(h, n, i)
      ensures OccursAt(h[1..], n, i - 1)
    {
      assert i != 0;
      assert h[1..][i - 1..i - 1 + |n|] == h[i..i + |n|];
    }
    forall i | OccursAt(h[1..], n, i)
      ensures OccursAt(h, n, i + 1)
    {
      assert h[1..][i..i + |n|] == h[i + 1..i + 1 + |n|];
    }
  }

  /** A string with a character that `h` lacks is not included in `h`. */
  lemma MissingChar(h: string, n: string, k: int)
    requires 0 <= k < |n| && n[k] !in h
    ensures !Includes(h, n)
  {
  }
}
