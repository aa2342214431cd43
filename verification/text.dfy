/** Character-level helpers over Go strings, modelled as decoded text (`seq<char>`):
    white-space trimming, ASCII case folding, UTF-8 byte length and first-occurrence search. */
module Text {
  import opened Wrappers

  /** The characters Go's `unicode.IsSpace` accepts: the Latin-1 spaces (tab, newline,
      vertical tab, form feed, carriage return, space, U+0085, U+00A0) and the remaining
      Unicode White_Space code points. */
  const Spaces: set<char> := {
    '\t', '\n', '\U{000B}', '\U{000C}', '\r', ' ', '\U{0085}', '\U{00A0}', '\U{1680}',
    '\U{2000}', '\U{2001}', '\U{2002}', '\U{2003}', '\U{2004}', '\U{2005}', '\U{2006}', '\U{2007}',
    '\U{2008}', '\U{2009}', '\U{200A}', '\U{2028}', '\U{2029}', '\U{202F}', '\U{205F}', '\U{3000}'
  }

  /** `unicode.IsSpace`. */
  predicate IsSpace(c: char) {
    c in Spaces
  }

  /** Number of white-space characters at the start of `s`. */
  function LeadingSpaces(s: string): (n: nat)
    ensures n <= |s|
    ensures forall i :: 0 <= i < n ==> IsSpace(s[i])
    ensures n == |s| || !IsSpace(s[n])
  {
    if |s| > 0 && IsSpace(s[0]) then 1 + LeadingSpaces(s[1..]) else 0
  }

  /** Number of white-space characters at the end of `s`. */
  function TrailingSpaces(s: string): (n: nat)
    ensures n <= |s|
    ensures forall i :: |s| - n <= i < |s| ==> IsSpace(s[i])
    ensures n == |s| || !IsSpace(s[|s| - n - 1])
  {
    if |s| > 0 && IsSpace(s[|s| - 1]) then 1 + TrailingSpaces(s[..|s| - 1]) else 0
  }

  /** Neither end of `t` is white space. */
  predicate IsTrimmed(t: string) {
    t == [] || (!IsSpace(t[0]) && !IsSpace(t[|t| - 1]))
  }

  /** `strings.TrimSpace`: `s` without its leading and trailing white space. The result
      is the slice `s[lo..hi]` where every character outside the slice is white space and
      the slice itself starts and ends with a non-space (or is empty). */
  function TrimSpace(s: string): (r: string)
    ensures IsTrimmed(r)
    ensures LeadingSpaces(s) + |r| <= |s|
    ensures r == s[LeadingSpaces(s)..LeadingSpaces(s) + |r|]
    ensures forall i :: 0 <= i < |s| && !(LeadingSpaces(s) <= i < LeadingSpaces(s) + |r|) ==> IsSpace(s[i])
    ensures r == [] <==> forall i :: 0 <= i < |s| ==> IsSpace(s[i])
  {
    var lo := LeadingSpaces(s);
    var rest := s[lo..];
    var r := rest[..|rest| - TrailingSpaces(rest)];
    assert lo < |s| ==> !IsSpace(rest[0]);
    r
  }

  /** Trimming an already trimmed string changes nothing. */
  lemma TrimmedIsFixpoint(t: string)
    requires IsTrimmed(t)
    ensures TrimSpace(t) == t
  {
    assert LeadingSpaces(t) == 0;
    assert TrailingSpaces(t) == 0;
  }

  /** `strings.TrimSpace` is idempotent. */
  lemma TrimSpaceIdempotent(s: string)
    ensures TrimSpace(TrimSpace(s)) == TrimSpace(s)
  {
    TrimmedIsFixpoint(TrimSpace(s));
  }

  /** `unicode.ToLower` restricted to the ASCII letters; every other character is kept. */
  function AsciiLower(c: char): (d: char)
    ensures 'A' <= c <= 'Z' ==> d as int == c as int + 32
    ensures !('A' <= c <= 'Z') ==> d == c
  {
    if 'A' <= c <= 'Z' then (c as int + 32) as char else c
  }

  /** `strings.ToLower` on the ASCII letters of `s`. */
  function ToLower(s: string): (r: string)
    ensures |r| == |s|
    ensures forall i :: 0 <= i < |s| ==> r[i] == AsciiLower(s[i])
  {
    if s == [] then [] else [AsciiLower(s[0])] + ToLower(s[1..])
  }

  /** Number of bytes of the UTF-8 encoding of `c`. */
  function Utf8Width(c: char): (w: nat)
    ensures 1 <= w <= 4
    ensures w == 1 <==> (c as int) < 0x80
  {
    var n := c as int;
    if n < 0x80 then 1 else if n < 0x800 then 2 else if n < 0x10000 then 3 else 4
  }

  /** Go's `len` of a string: its length in UTF-8 bytes. */
  function Utf8Len(s: string): (n: nat)
    ensures |s| <= n <= 4 * |s|
  {
    if s == [] then 0 else Utf8Width(s[0]) + Utf8Len(s[1..])
  }

  /** The byte length of a concatenation is the sum of the byte lengths. */
  lemma {:induction false} Utf8LenConcat(a: string, b: string)
    ensures Utf8Len(a + b) == Utf8Len(a) + Utf8Len(b)
    decreases |a|
  {
    if a == [] {
      assert a + b == b;
    } else {
      assert (a + b)[1..] == a[1..] + b;
      Utf8LenConcat(a[1..], b);
    }
  }

  /** Position of the first `c` in `s`, if any. */
  function IndexOf(s: string, c: char): (r: Option<nat>)
    ensures r.Some? ==> r.value < |s| && s[r.value] == c
    ensures r.Some? ==> forall i :: 0 <= i < r.value ==> s[i] != c
    ensures r.None? <==> forall i :: 0 <= i < |s| ==> s[i] != c
  {
    if s == [] then None
    else if s[0] == c then Some(0)
    else match IndexOf(s[1..], c)
      case None => None
      case Some(k) => Some(k + 1)
  }

  /** `c` is found right after a prefix that does not contain it. */
  lemma IndexOfAfter(x: string, c: char, y: string)
    requires forall i :: 0 <= i < |x| ==> x[i] != c
    ensures IndexOf(x + [c] + y, c) == Some(|x|)
  {
    var s := x + [c] + y;
    assert s[|x|] == c;
    match IndexOf(s, c)
    case None =>
    case Some(k) =>
      if k < |x| {
        assert s[k] == x[k];
      }
  }

  /** `pat` occurs in `s` starting at position `i`. */
  predicate OccursAt(s: string, pat: string, i: int) {
    0 <= i && i + |pat| <= |s| && s[i..i + |pat|] == pat
  }

  /** Position of the first occurrence of `pat` in `s` at or after `from`, if any. */
  function FindFrom(s: string, pat: string, from: nat): (r: Option<nat>)
    requires from <= |s|
    ensures r.Some? ==> from <= r.value && OccursAt(s, pat, r.value)
    ensures r.Some? ==> forall j :: from <= j < r.value ==> !OccursAt(s, pat, j)
    ensures r.None? <==> forall j :: from <= j <= |s| ==> !OccursAt(s, pat, j)
    decreases |s| - from
  {
    if OccursAt(s, pat, from) then Some(from)
    else if from == |s| then None
    else FindFrom(s, pat, from + 1)
  }

  /** Position of the first occurrence of `pat` in `s`, if any. */
  function Find(s: string, pat: string): (r: Option<nat>)
    ensures r.Some? ==> OccursAt(s, pat, r.value)
    ensures r.Some? ==> forall j :: 0 <= j < r.value ==> !OccursAt(s, pat, j)
    ensures r.None? <==> forall j :: 0 <= j <= |s| ==> !OccursAt(s, pat, j)
  {
    FindFrom(s, pat, 0)
  }

  /** `pat` does not start anywhere inside `x` when `x` is followed by `pat`: the first
      occurrence of `pat` in `x + pat + y` is the one right after `x`. */
  predicate NoEarlyOccurrence(x: string, pat: string) {
    forall j :: 0 <= j < |x| ==> !OccursAt(x + pat, pat, j)
  }

  /** Under `NoEarlyOccurrence`, searching `x + pat + y` finds the `pat` right after `x`. */
  lemma FindAfter(x: string, pat: string, y: string)
    requires NoEarlyOccurrence(x, pat)
    ensures Find(x + pat + y, pat) == Some(|x|)
  {
    var s := x + pat + y;
    assert s[|x|..|x| + |pat|] == pat;
    assert OccursAt(s, pat, |x|);
    match Find(s, pat)
    case None =>
    case Some(k) =>
      if k < |x| {
        assert s[k..k + |pat|] == (x + pat)[k..k + |pat|];
        assert OccursAt(x + pat, pat, k);
      }
  }

  /** `pat` cannot start inside `x` when some character of `pat` occurs neither in `x` nor
      earlier in `pat`: any early start would line that character up with one of those. */
  lemma NoEarlyFromMarker(x: string, pat: string, m: nat)
    requires m < |pat| && pat[m] !in x
    requires forall i :: 0 <= i < m ==> pat[i] != pat[m]
    ensures NoEarlyOccurrence(x, pat)
  {
    var s := x + pat;
    forall j | 0 <= j < |x| ensures !OccursAt(s, pat, j) {
      if j + |pat| <= |s| {
        if j + m < |x| {
          assert s[j + m] == x[j + m];
        } else {
          assert s[j + m] == pat[j + m - |x|];
        }
        assert s[j..j + |pat|][m] == s[j + m] != pat[m];
      }
    }
  }

  /** The text before the first occurrence of `pat` holds no early occurrence of it. */
  lemma FirstOccurrenceDelimits(t: string, pat: string, i: nat)
    requires OccursAt(t, pat, i)
    requires forall j :: 0 <= j < i ==> !OccursAt(t, pat, j)
    ensures NoEarlyOccurrence(t[..i], pat)
  {
    var x := t[..i];
    assert x + pat == t[..i + |pat|];
    forall j | 0 <= j < |x| ensures !OccursAt(x + pat, pat, j) {
      if j + |pat| <= |x + pat| {
        assert (x + pat)[j..j + |pat|] == t[j..j + |pat|] by {
          forall k | j <= k < j + |pat| ensures (x + pat)[k] == t[k] {
            assert (x + pat)[k] == t[..i + |pat|][k];
          }
        }
        assert !OccursAt(t, pat, j);
      }
    }
  }

  /** The three parts of a concatenation are recovered by slicing at their lengths. */
  lemma Parts(x: string, y: string, z: string)
    ensures (x + y + z)[..|x|] == x
    ensures (x + y + z)[|x|..] == y + z
    ensures (x + y + z)[|x| + |y|..] == z
  {
  }

  /** A text splits around an occurrence of `pat`. */
  lemma SplitAround(s: string, pat: string, i: nat)
    requires OccursAt(s, pat, i)
    ensures s == s[..i] + pat + s[i + |pat|..]
  {
    assert s == s[..i] + s[i..i + |pat|] + s[i + |pat|..];
  }

  /** Regrouping a concatenation of five parts followed by a sixth. */
  lemma Regroup(a: string, b: string, c: string, d: string, e: string, f: string)
    ensures a + b + c + d + e + f == a + (b + c + (d + e + f))
  {
  }

  /** Regrouping a concatenation of five parts. */
  lemma Regroup5(a: string, b: string, c: string, d: string, e: string)
    ensures a + b + c + d + e == a + (b + c + (d + e))
  {
  }

  /** Every character of `s` is white space. */
  predicate AllSpace(s: string) {
    forall i :: 0 <= i < |s| ==> IsSpace(s[i])
  }

  /** `TrimSpace` yields the one trimmed, non-empty slice of `s` outside which there is
      only white space. */
  lemma TrimSpaceUnique(s: string, lo: nat, hi: nat)
    requires lo < hi <= |s| && IsTrimmed(s[lo..hi])
    requires forall i :: 0 <= i < |s| && !(lo <= i < hi) ==> IsSpace(s[i])
    ensures TrimSpace(s) == s[lo..hi]
  {
    var r := TrimSpace(s);
    var l := LeadingSpaces(s);
    assert !IsSpace(s[lo]) && !IsSpace(s[hi - 1]) by {
      assert s[lo..hi][0] == s[lo] && s[lo..hi][hi - lo - 1] == s[hi - 1];
    }
    assert l == lo;
    assert l <= hi - 1 < l + |r|;
    assert r[|r| - 1] == s[l + |r| - 1];
    assert l + |r| <= hi;
  }

  /** Trimming removes exactly the white space around a trimmed, non-empty text. */
  lemma TrimSurrounded(pre: string, t: string, post: string)
    requires AllSpace(pre) && AllSpace(post) && t != [] && IsTrimmed(t)
    ensures TrimSpace(pre + t + post) == t
  {
    var s := pre + t + post;
    var lo, hi := |pre|, |pre| + |t|;
    assert s[lo..hi] == t;
    forall i | 0 <= i < |s| && !(lo <= i < hi) ensures IsSpace(s[i]) {
      if i < lo {
        assert s[i] == pre[i];
      } else {
        assert s[i] == post[i - hi];
      }
    }
    TrimSpaceUnique(s, lo, hi);
  }
}
