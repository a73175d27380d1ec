/** NUL-terminated strings: what `strlen`, `strsep` and `strstr` see in a buffer of
    characters.  A buffer is a `string`; the C string it holds ends before its first NUL. */
module CString {
  const NUL: char := '\0'

  /** `strlen` of a buffer: the number of characters before the first NUL. */
  function StrLen(s: string): (n: nat)
    ensures n <= |s|
    ensures NUL !in s[..n]
    ensures n < |s| ==> s[n] == NUL
  {
    if s == [] || s[0] == NUL then 0 else 1 + StrLen(s[1..])
  }

  /** The C string at the start of a buffer. */
  function CStr(s: string): string {
    s[..StrLen(s)]
  }

  /** Index of the first `c` in `s`, or |s| when there is none: where `strsep` cuts. */
  function IndexOf(s: string, c: char): (i: nat)
    ensures i <= |s|
    ensures c !in s[..i]
    ensures i < |s| ==> s[i] == c
  {
    if s == [] || s[0] == c then 0 else 1 + IndexOf(s[1..], c)
  }

  predicate OccursAt(hay: string, needle: string, o: int) {
    0 <= o && o + |needle| <= |hay| && hay[o..o + |needle|] == needle
  }

  /** `strstr(hay, needle) != NULL`, for two C strings. */
  predicate Occurs(hay: string, needle: string) {
    exists o :: 0 <= o <= |hay| && OccursAt(hay, needle, o)
  }

  /** The first `c` among `b[lo..hi]`, or `hi` when there is none. */
  function FindChar(b: string, lo: nat, hi: nat, c: char): (i: nat)
    requires lo <= hi <= |b|
    ensures lo <= i <= hi
    ensures forall k :: lo <= k < i ==> b[k] != c
    ensures i < hi ==> b[i] == c
    decreases hi - lo
  {
    if lo == hi || b[lo] == c then lo else FindChar(b, lo + 1, hi, c)
  }

  /** The buffer `a` holds `b[lo..hi]` as a C string at index `s`. */
  ghost predicate Holds(a: array<char>, s: nat, b: string, lo: nat, hi: nat)
    reads a
  {
    && lo <= hi <= |b| && s + (hi - lo) < a.Length
    && a[s + (hi - lo)] == NUL
    && forall k :: lo <= k < hi ==> a[s + (k - lo)] == b[k] && b[k] != NUL
  }

  /** What stands at one index of a held C string. */
  lemma HeldAt(a: array<char>, s: nat, b: string, lo: nat, hi: nat, k: nat)
    requires Holds(a, s, b, lo, hi) && lo <= k <= hi
    ensures a[s + (k - lo)] == if k < hi then b[k] else NUL
    ensures a[s + (k - lo)] == NUL <==> k == hi
  {
  }

  /** A C string is empty exactly when its first character is NUL. */
  lemma HeldStart(a: array<char>, s: nat, b: string, lo: nat, hi: nat)
    requires Holds(a, s, b, lo, hi)
    ensures a[s] == NUL <==> lo == hi
  {
    assert lo < hi ==> a[s + (lo - lo)] == b[lo];
  }

  /** A terminated slice is a held C string. */
  lemma SliceHeld(a: array<char>, n: nat, b: string, lo: nat)
    requires n < a.Length && a[n] == NUL && NUL !in a[..n]
    requires lo + n <= |b| && a[..n] == b[lo..lo + n]
    ensures Holds(a, 0, b, lo, lo + n)
  {
    var t := a[..n];
    assert forall k :: lo <= k < lo + n ==> b[k] == b[lo..lo + n][k - lo] == t[k - lo] == a[0 + (k - lo)];
  }

  /** A held C string, read off the buffer. */
  lemma HeldString(a: array<char>, s: nat, b: string, lo: nat, hi: nat)
    requires Holds(a, s, b, lo, hi)
    ensures CStr(a[s..]) == b[lo..hi]
  {
    var t, n := a[s..], hi - lo;
    assert forall i :: 0 <= i < n ==> t[i] == a[s + (lo + i - lo)] == b[lo + i];
    assert t[..n] == b[lo..hi];
    assert t[n] == a[s + n];
    StrLenIs(t, n);
  }

  /** The same C string, seen as a string of its own. */
  lemma HoldsSlice(a: array<char>, s: nat, b: string, lo: nat, hi: nat)
    requires Holds(a, s, b, lo, hi)
    ensures Holds(a, s, b[lo..hi], 0, hi - lo)
  {
    var t := b[lo..hi];
    assert forall k :: 0 <= k < hi - lo ==> t[k] == b[lo + k] == a[s + (lo + k - lo)];
  }

  lemma StrLenIs(s: string, n: nat)
    requires n < |s| && s[n] == NUL && NUL !in s[..n]
    ensures StrLen(s) == n && CStr(s) == s[..n]
  {
  }

  /** A NUL anywhere in a buffer ends the string at or before it. */
  lemma {:induction false} Terminated(s: string, k: nat)
    requires k < |s| && s[k] == NUL
    ensures StrLen(s) <= k
  {
    if k > 0 {
      Terminated(s[1..], k - 1);
    }
  }

  lemma IndexOfIs(s: string, c: char, i: nat)
    requires i <= |s| && c !in s[..i] && (i < |s| ==> s[i] == c)
    ensures IndexOf(s, c) == i
  {
  }

  /** An occurrence inside a slice is an occurrence in the whole, shifted. */
  lemma OccursInSlice(hay: string, needle: string, lo: nat, hi: nat, o: int)
    requires lo <= hi <= |hay|
    ensures OccursAt(hay[lo..hi], needle, o) <==> 0 <= o && lo + o + |needle| <= hi && OccursAt(hay, needle, lo + o)
  {
    if 0 <= o && lo + o + |needle| <= hi {
      var inner, outer := hay[lo..hi][o..o + |needle|], hay[lo + o..lo + o + |needle|];
      assert forall i :: 0 <= i < |needle| ==> inner[i] == hay[lo + o + i] == outer[i];
      assert inner == outer;
    }
  }

  /** An occurrence is what stands between some front and some back. */
  lemma OccursIff(hay: string, needle: string)
    ensures Occurs(hay, needle) <==> exists a: string, b: string :: hay == a + needle + b
  {
    if Occurs(hay, needle) {
      var o :| 0 <= o <= |hay| && OccursAt(hay, needle, o);
      assert hay == hay[..o] + needle + hay[o + |needle|..];
    }
    if a: string, b: string :| hay == a + needle + b {
      assert OccursAt(hay, needle, |a|);
    }
  }

  /** A C string is all that stands in front of the first NUL, or the whole when there is none. */
  lemma CStrEnds(s: string, behind: string)
    requires '\0' !in s
    ensures CStr(s) == s && CStr(s + ['\0'] + behind) == s
  {
    var t := s + ['\0'] + behind;
    assert StrLen(s) == |s|;
    assert t[..|s|] == s && t[|s|] == NUL;
    StrLenIs(t, |s|);
  }
}
