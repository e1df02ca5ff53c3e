/** Python's `str.strip()` with no argument: drop leading and trailing whitespace. */
module Trim {

  /** Python's `str.isspace` for one character: the ASCII controls TAB..CR and
      FS..US, space, and the Unicode separators Python counts as whitespace. */
  predicate IsSpace(c: char) {
    || c == ' '
    || ('\t' <= c <= '\r')
    || ('\U{1C}' <= c <= '\U{1F}')
    || c == '\U{85}'
    || c == '\U{A0}'
    || c == '\U{1680}'
    || ('\U{2000}' <= c <= '\U{200A}')
    || c == '\U{2028}'
    || c == '\U{2029}'
    || c == '\U{202F}'
    || c == '\U{205F}'
    || c == '\U{3000}'
  }

  /** Every character of `s` in positions `lo` to `hi` (exclusive) is whitespace. */
  predicate SpaceBetween(s: string, lo: int, hi: int) {
    forall p :: lo <= p < hi && 0 <= p < |s| ==> IsSpace(s[p])
  }

  predicate AllSpace(s: string) {
    SpaceBetween(s, 0, |s|)
  }

  /** No whitespace at either end. */
  predicate Trimmed(s: string) {
    s == [] || (!IsSpace(s[0]) && !IsSpace(s[|s| - 1]))
  }

  /** The first position at or after `i` that does not hold whitespace. */
  function SkipSpace(s: string, i: nat): (n: nat)
    requires i <= |s|
    ensures i <= n <= |s| && SpaceBetween(s, i, n)
    ensures n == |s| || !IsSpace(s[n])
    decreases |s| - i
  {
    if i == |s| || !IsSpace(s[i]) then i else SkipSpace(s, i + 1)
  }

  /** Going back from `j` towards `lo`, the position just after the last
      character that is not whitespace (or `lo`). */
  function SkipSpaceBack(s: string, lo: nat, j: nat): (m: nat)
    requires lo <= j <= |s|
    ensures lo <= m <= j && SpaceBetween(s, m, j)
    ensures m == lo || !IsSpace(s[m - 1])
    decreases j
  {
    if j == lo || !IsSpace(s[j - 1]) then j else SkipSpaceBack(s, lo, j - 1)
  }

  /** `r` is `s` with the whitespace-only prefix `s[..a]` and suffix `s[b..]` cut off. */
  ghost predicate IsStripOf(s: string, a: int, b: int, r: string) {
    0 <= a <= b <= |s| && r == s[a..b] && SpaceBetween(s, 0, a) && SpaceBetween(s, b, |s|)
  }

  /** `s.strip()`: the result is the middle of `s` once a whitespace-only
      prefix and suffix are cut off, and it is trimmed. */
  function Strip(s: string): (r: string)
    ensures Trimmed(r)
    ensures exists a, b :: IsStripOf(s, a, b, r)
    ensures r == [] <==> AllSpace(s)
  {
    var a := SkipSpace(s, 0);
    var b := SkipSpaceBack(s, a, |s|);
    assert IsStripOf(s, a, b, s[a..b]);
    assert a < b ==> s[a..b][0] == s[a] && s[a..b][b - a - 1] == s[b - 1];
    assert a == b ==> a == |s|;
    s[a..b]
  }

  /** A cut of `s` into whitespace, a trimmed middle and whitespace is the strip of `s`. */
  lemma StripOfCut(s: string, lo: nat, hi: nat)
    requires lo <= hi <= |s| && SpaceBetween(s, 0, lo) && Trimmed(s[lo..hi]) && SpaceBetween(s, hi, |s|)
    ensures Strip(s) == s[lo..hi]
  {
    var r := Strip(s);
    var a, b :| IsStripOf(s, a, b, r);
    if lo < hi {
      assert s[lo] == s[lo..hi][0] && s[hi - 1] == s[lo..hi][hi - lo - 1];
      assert a <= lo && hi <= b;
      assert a < b && s[a] == r[0] && s[b - 1] == r[b - a - 1];
    }
  }

  /** Any split of a text into whitespace, a trimmed middle and whitespace has
      that middle as its strip: the ensures of Strip pin the result down. */
  lemma StripUnique(pre: string, mid: string, post: string)
    requires AllSpace(pre) && Trimmed(mid) && AllSpace(post)
    ensures Strip(pre + mid + post) == mid
  {
    var s := pre + mid + post;
    var m := |pre| + |mid|;
    assert s[|pre|..m] == mid;
    forall p | 0 <= p < |pre| ensures IsSpace(s[p]) {
      assert s[p] == pre[p];
    }
    forall p | m <= p < |s| ensures IsSpace(s[p]) {
      assert s[p] == post[p - m];
    }
    StripOfCut(s, |pre|, m);
  }

  /** Stripping twice is stripping once. */
  lemma StripIdempotent(s: string)
    ensures Strip(Strip(s)) == Strip(s)
  {
    var r := Strip(s);
    assert r[0..|r|] == r;
    StripOfCut(r, 0, |r|);
  }
}
