/** String helpers the handlers rely on: Python's `str.strip()` and the
    code-point order SQLite's BINARY collation sorts text by. */
module Text {

  /** The characters Python 3's `str.isspace()` accepts, the set `str.strip()`
      with no argument removes: the ASCII controls TAB to CR, the separators
      U+001C to U+001F, SPACE, NEL, NO-BREAK SPACE and the Unicode space
      separators and line/paragraph separators. */
  predicate IsSpace(c: char) {
    || ('\t' <= c <= '\r')
    || ('\U{1C}' <= c <= ' ')
    || c == '\U{85}' || c == '\U{A0}' || c == '\U{1680}'
    || ('\U{2000}' <= c <= '\U{200A}')
    || c == '\U{2028}' || c == '\U{2029}' || c == '\U{202F}' || c == '\U{205F}'
    || c == '\U{3000}'
  }

  predicate AllSpace(s: string) {
    forall k :: 0 <= k < |s| ==> IsSpace(s[k])
  }

  /** The first index at or after `i` that holds no whitespace, or `|s|`. */
  function SkipSpace(s: string, i: nat): (n: nat)
    requires i <= |s|
    ensures i <= n <= |s|
    ensures forall k :: i <= k < n ==> IsSpace(s[k])
    ensures n < |s| ==> !IsSpace(s[n])
    decreases |s| - i
  {
    if i < |s| && IsSpace(s[i]) then SkipSpace(s, i + 1) else i
  }

  /** Scanning down from `j` to no lower than `lo`: the end of the last
      character that is not whitespace, or `lo`. */
  function SkipSpaceBack(s: string, lo: nat, j: nat): (m: nat)
    requires lo <= j <= |s|
    ensures lo <= m <= j
    ensures forall k :: m <= k < j ==> IsSpace(s[k])
    ensures m > lo ==> !IsSpace(s[m - 1])
    ensures lo < j && !IsSpace(s[lo]) ==> m > lo
  {
    if j > lo && IsSpace(s[j - 1]) then SkipSpaceBack(s, lo, j - 1) else j
  }

  /** `s.strip()`: the slice of `s` left once the whitespace before and after
      it is dropped; it neither starts nor ends with whitespace, and it is
      empty exactly when `s` is all whitespace. */
  function Trim(s: string): (r: string)
    ensures |r| <= |s|
    ensures r == [] || (!IsSpace(r[0]) && !IsSpace(r[|r| - 1]))
    ensures r == [] <==> AllSpace(s)
    ensures var lo := SkipSpace(s, 0);
      && lo + |r| <= |s| && r == s[lo..lo + |r|]
      && forall k :: 0 <= k < |s| && !(lo <= k < lo + |r|) ==> IsSpace(s[k])
  {
    var lo := SkipSpace(s, 0);
    var hi := SkipSpaceBack(s, lo, |s|);
    s[lo..hi]
  }

  /** The characterisation above fixes the result: any slice with only
      whitespace around it and none at its ends is what `strip` returns. */
  lemma TrimUnique(s: string, i: nat, j: nat)
    requires i <= j <= |s|
    requires forall k :: 0 <= k < |s| && !(i <= k < j) ==> IsSpace(s[k])
    requires i == j || (!IsSpace(s[i]) && !IsSpace(s[j - 1]))
    ensures Trim(s) == s[i..j]
  {
  }

  /** Stripping a stripped string changes nothing. */
  lemma TrimIdempotent(s: string)
    ensures Trim(Trim(s)) == Trim(s)
  {
  }

  /** Whitespace added around a string is stripped away again. */
  lemma TrimPadded(pre: string, s: string, post: string)
    requires AllSpace(pre) && AllSpace(post)
    ensures Trim(pre + s + post) == Trim(s)
  {
    var r := Trim(s);
    var lo := SkipSpace(s, 0);
    var t := pre + s + post;
    var i := |pre| + lo;
    var j := if r == [] then i else i + |r|;
    forall k | 0 <= k < |t| && !(i <= k < j) ensures IsSpace(t[k]) {
      if k < |pre| {
        assert t[k] == pre[k];
      } else if k < |pre| + |s| {
        assert t[k] == s[k - |pre|];
      } else {
        assert t[k] == post[k - |pre| - |s|];
      }
    }
    assert t[i..j] == r;
    TrimUnique(t, i, j);
  }

  /** Lexicographic order on code points: the order SQLite's default BINARY
      collation gives UTF-8 text, since UTF-8 preserves code-point order. */
  predicate NotAfter(a: string, b: string) {
    if a == [] then true
    else if b == [] then false
    else if a[0] != b[0] then a[0] < b[0]
    else NotAfter(a[1..], b[1..])
  }

  lemma {:induction false} NotAfterTotal(a: string, b: string)
    ensures NotAfter(a, b) || NotAfter(b, a)
  {
    if a != [] && b != [] && a[0] == b[0] {
      NotAfterTotal(a[1..], b[1..]);
    }
  }

  lemma {:induction false} NotAfterTransitive(a: string, b: string, c: string)
    requires NotAfter(a, b) && NotAfter(b, c)
    ensures NotAfter(a, c)
  {
    if a != [] && b != [] && c != [] && a[0] == b[0] && b[0] == c[0] {
      NotAfterTransitive(a[1..], b[1..], c[1..]);
    }
  }

  lemma {:induction false} NotAfterAntisymmetric(a: string, b: string)
    requires NotAfter(a, b) && NotAfter(b, a)
    ensures a == b
  {
    if a != [] && b != [] {
      NotAfterAntisymmetric(a[1..], b[1..]);
      assert a == [a[0]] + a[1..];
      assert b == [b[0]] + b[1..];
    }
  }
}
