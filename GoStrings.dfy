/** The two functions of Go's `strings` package that the file-name builder
    calls: `strings.TrimSpace` and `strings.ReplaceAll`, on strings taken as
    sequences of characters. */
module GoStrings {

  /** The Unicode White_Space property, which is what Go's `unicode.IsSpace`
      tests: tab, newline, vertical tab, form feed, carriage return, space,
      NEL, NBSP and the spacing characters outside Latin-1. */
  predicate IsSpace(c: char) {
    || ('\t' <= c <= '\r')
    || c == ' '
    || c == '\U{0085}'
    || c == '\U{00A0}'
    || c == '\U{1680}'
    || ('\U{2000}' <= c <= '\U{200A}')
    || c == '\U{2028}'
    || c == '\U{2029}'
    || c == '\U{202F}'
    || c == '\U{205F}'
    || c == '\U{3000}'
  }

  /** Every character of `s` is white space (vacuously so for ""). */
  predicate AllSpace(s: string) {
    forall k :: 0 <= k < |s| ==> IsSpace(s[k])
  }

  /** A string with no white space at either end. */
  predicate Trimmed(s: string) {
    s == [] || (!IsSpace(s[0]) && !IsSpace(s[|s| - 1]))
  }

  /** The first index at or after `i` that does not hold white space (or
      `|s|`): the forward scan of `strings.TrimSpace`. */
  function SpanStart(s: string, i: nat): (j: nat)
    requires i <= |s|
    ensures i <= j <= |s|
    ensures forall k :: i <= k < j ==> IsSpace(s[k])
    ensures j < |s| ==> !IsSpace(s[j])
    decreases |s| - i
  {
    if i < |s| && IsSpace(s[i]) then SpanStart(s, i + 1) else i
  }

  /** The backward scan of `strings.TrimSpace`: the end of `s[lo..j]` once
      its trailing white space is dropped. */
  function SpanStop(s: string, lo: nat, j: nat): (i: nat)
    requires lo <= j <= |s|
    ensures lo <= i <= j
    ensures forall k :: i <= k < j ==> IsSpace(s[k])
    ensures i > lo ==> !IsSpace(s[i - 1])
    decreases j
  {
    if j > lo && IsSpace(s[j - 1]) then SpanStop(s, lo, j - 1) else j
  }

  /** `strings.TrimSpace`: the slice of `s` between the two scans. It has no
      white space at either end, and it is empty exactly when `s` is all
      white space. */
  function TrimSpace(s: string): (r: string)
    ensures |r| <= |s|
    ensures Trimmed(r)
    ensures r == [] <==> AllSpace(s)
  {
    var start := SpanStart(s, 0);
    var stop := SpanStop(s, start, |s|);
    assert start == stop ==> forall k :: 0 <= k < |s| ==> IsSpace(s[k]);
    s[start..stop]
  }

  /** Where the forward scan stops, given what the string holds. */
  lemma {:induction false} SpanStartAt(s: string, i: nat, p: nat)
    requires i <= p <= |s|
    requires forall k :: i <= k < p ==> IsSpace(s[k])
    requires p < |s| ==> !IsSpace(s[p])
    ensures SpanStart(s, i) == p
    decreases p - i
  {
    if i < p {
      SpanStartAt(s, i + 1, p);
    }
  }

  /** Where the backward scan stops, given what the string holds. */
  lemma {:induction false} SpanStopAt(s: string, lo: nat, j: nat, q: nat)
    requires lo <= q <= j <= |s|
    requires forall k :: q <= k < j ==> IsSpace(s[k])
    requires q > lo ==> !IsSpace(s[q - 1])
    ensures SpanStop(s, lo, j) == q
    decreases j
  {
    if q < j {
      SpanStopAt(s, lo, j - 1, q);
    }
  }

  /** `s` is `TrimSpace(s)` with only white space added before and after it. */
  lemma TrimSpaceSplit(s: string) returns (left: string, right: string)
    ensures s == left + TrimSpace(s) + right
    ensures AllSpace(left) && AllSpace(right)
  {
    var start := SpanStart(s, 0);
    var stop := SpanStop(s, start, |s|);
    left, right := s[..start], s[stop..];
    assert s == s[..start] + s[start..stop] + s[stop..];
  }

  /** Stripping white space from a string already padded only by white space
      gives back the unpadded part, so `TrimSpace(s)` is THE trimmed string
      that `s` is a white-space-padded copy of. */
  lemma TrimSpaceOfPadded(pre: string, core: string, post: string)
    requires AllSpace(pre) && AllSpace(post) && Trimmed(core)
    ensures TrimSpace(pre + core + post) == core
  {
    var x := pre + core + post;
    if core == [] {
      assert x == pre + post;
      AllSpaceAppend(pre, post);
    } else {
      var p, q := |pre|, |pre| + |core|;
      assert x[p] == core[0] && x[q - 1] == core[|core| - 1];
      assert forall k :: 0 <= k < p ==> x[k] == pre[k];
      assert forall k :: q <= k < |x| ==> x[k] == post[k - q];
      SpanStartAt(x, 0, p);
      SpanStopAt(x, p, |x|, q);
      assert x[p..q] == core;
    }
  }

  /** White space on both sides of white-space-only strings stays white space. */
  lemma AllSpaceAppend(a: string, b: string)
    requires AllSpace(a) && AllSpace(b)
    ensures AllSpace(a + b)
  {
    forall k | 0 <= k < |a + b| ensures IsSpace((a + b)[k]) {
      if k >= |a| { assert (a + b)[k] == b[k - |a|]; }
    }
  }

  /** White space added on either side of any string does not change what
      `strings.TrimSpace` returns for it. */
  lemma TrimSpaceOfPaddedAny(pre: string, s: string, post: string)
    requires AllSpace(pre) && AllSpace(post)
    ensures TrimSpace(pre + s + post) == TrimSpace(s)
  {
    var t := TrimSpace(s);
    var left, right := TrimSpaceSplit(s);
    AllSpaceAppend(pre, left);
    AllSpaceAppend(right, post);
    Regroup(pre, left, t, right, post);
    TrimSpaceOfPadded(pre + left, t, right + post);
  }

  lemma Regroup(a: string, b: string, c: string, d: string, e: string)
    ensures a + (b + c + d) + e == (a + b) + c + (d + e)
  {
  }

  /** `strings.TrimSpace` is idempotent. */
  lemma TrimSpaceIdempotent(s: string)
    ensures TrimSpace(TrimSpace(s)) == TrimSpace(s)
  {
    TrimmedFixed(TrimSpace(s));
  }

  /** A string with no white space at its ends is its own trimmed form. */
  lemma TrimmedFixed(t: string)
    requires Trimmed(t)
    ensures TrimSpace(t) == t
  {
    SpanStartAt(t, 0, 0);
    SpanStopAt(t, 0, |t|, |t|);
    assert t[0..|t|] == t;
  }

  /** `strings.ReplaceAll` for a one-character pattern: every occurrence of
      `from` becomes `to`, every other character stays where it was. */
  function ReplaceAll(s: string, from: char, to: char): (r: string)
    ensures |r| == |s|
    ensures forall k :: 0 <= k < |s| ==> r[k] == if s[k] == from then to else s[k]
  {
    if s == [] then []
    else [if s[0] == from then to else s[0]] + ReplaceAll(s[1..], from, to)
  }

  /** Replacing is undone by replacing back, provided the replacement
      character did not already occur in the input. */
  lemma {:induction false} ReplaceAllRoundTrip(s: string, from: char, to: char)
    requires to !in s
    ensures ReplaceAll(ReplaceAll(s, from, to), to, from) == s
  {
    if s != [] {
      assert s == [s[0]] + s[1..];
      ReplaceAllRoundTrip(s[1..], from, to);
      var once := ReplaceAll(s, from, to);
      assert once[1..] == ReplaceAll(s[1..], from, to);
    }
  }
}
