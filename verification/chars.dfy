/** Character classes of Python's `re` module and `str` methods, as the
    source's patterns and string calls use them, plus runs of a class,
    `str.strip`, ASCII lower-casing and decimal digit strings. */
module Chars {

  import opened Wrappers

  /** Python's whitespace (`str.isspace`, and `\s` in a `str` pattern):
      exactly these 29 code points. */
  predicate IsSpace(c: char) {
    || ('\t' <= c <= '\r')
    || ('\U{1C}' <= c <= ' ')
    || c == '\U{85}' || c == '\U{A0}' || c == '\U{1680}'
    || ('\U{2000}' <= c <= '\U{200A}')
    || c == '\U{2028}' || c == '\U{2029}' || c == '\U{202F}' || c == '\U{205F}' || c == '\U{3000}'
  }

  /** `\S` */
  predicate IsNonSpace(c: char) {
    !IsSpace(c)
  }

  /** `\d`, restricted to the ASCII digits */
  predicate IsDigit(c: char) {
    '0' <= c <= '9'
  }

  /** `\w`, restricted to ASCII letters, digits and underscore */
  predicate IsWord(c: char) {
    ('a' <= c <= 'z') || ('A' <= c <= 'Z') || IsDigit(c) || c == '_'
  }

  /** The character class `['"]`: ASCII single or double quote only */
  predicate IsQuote(c: char) {
    c == '\'' || c == '"'
  }

  /** Every character of `s[lo..hi]` is in class `p`. */
  predicate AllIn(s: string, lo: nat, hi: nat, p: char -> bool)
    requires lo <= hi <= |s|
  {
    forall k | lo <= k < hi :: p(s[k])
  }

  /** End of the maximal run of class `p` that starts at `i`: what a greedy
      `p+` or `p*` consumes from there. */
  function SpanEnd(s: string, i: nat, p: char -> bool): (j: nat)
    requires i <= |s|
    ensures i <= j <= |s|
    ensures AllIn(s, i, j, p)
    ensures j == |s| || !p(s[j])
    decreases |s| - i
  {
    if i == |s| || !p(s[i]) then i else SpanEnd(s, i + 1, p)
  }

  /** A run is maximal in exactly one place: any `j` with the two properties
      of `SpanEnd` is `SpanEnd`. */
  lemma SpanEndUnique(s: string, i: nat, j: nat, p: char -> bool)
    requires i <= j <= |s|
    requires AllIn(s, i, j, p)
    requires j == |s| || !p(s[j])
    ensures SpanEnd(s, i, p) == j
  {
  }

  /** Largest index `k` in `[lo, hi)` with `p(s[k])`, if any (a greedy
      quantifier backtracking to the last place the next item matches). */
  function LastIndexIn(s: string, lo: nat, hi: nat, p: char -> bool): (r: Option<nat>)
    requires lo <= hi <= |s|
    ensures r.Some? ==> lo <= r.value < hi && p(s[r.value])
    ensures r.Some? ==> forall k | r.value < k < hi :: !p(s[k])
    ensures r.None? ==> forall k | lo <= k < hi :: !p(s[k])
    decreases hi - lo
  {
    if lo == hi then None
    else if p(s[hi - 1]) then Some(hi - 1)
    else LastIndexIn(s, lo, hi - 1, p)
  }

  /** `s` holds `pat` starting at index `i` */
  predicate OccursAt(s: string, pat: string, i: nat) {
    i + |pat| <= |s| && s[i..i + |pat|] == pat
  }

  /** Python's `pat in s` for strings */
  predicate Contains(s: string, pat: string)
    ensures Contains(s, pat) ==> |pat| <= |s|
  {
    exists i | 0 <= i <= |s| :: OccursAt(s, pat, i)
  }

  /** A string built around `pat` contains it. */
  lemma ContainsConcat(a: string, pat: string, b: string)
    ensures Contains(a + pat + b, pat)
  {
    var s := a + pat + b;
    assert s[|a|..|a| + |pat|] == pat;
    assert OccursAt(s, pat, |a|);
  }

  /** `str.lower`, restricted to the ASCII letters */
  function LowerChar(c: char): char {
    if 'A' <= c <= 'Z' then (c as int - 'A' as int + 'a' as int) as char else c
  }

  function Lower(s: string): (r: string)
    ensures |r| == |s|
    ensures forall k | 0 <= k < |s| :: r[k] == LowerChar(s[k])
    ensures forall k | 0 <= k < |r| :: !('A' <= r[k] <= 'Z')
    ensures forall k | 0 <= k < |s| && !('A' <= s[k] <= 'Z') :: r[k] == s[k]
  {
    seq(|s|, k requires 0 <= k < |s| => LowerChar(s[k]))
  }

  /** Index range `[lo, hi)` left after removing the characters of class
      `p` from both ends */
  function StripBounds(s: string, p: char -> bool): (r: (nat, nat))
    ensures r.0 <= r.1 <= |s|
    ensures AllIn(s, 0, r.0, p) && AllIn(s, r.1, |s|, p)
    ensures r.0 < r.1 ==> !p(s[r.0]) && !p(s[r.1 - 1])
  {
    var lo := SpanEnd(s, 0, p);
    match LastIndexIn(s, lo, |s|, c => !p(c))
    case Some(k) => (lo, k + 1)
    case None => (lo, lo)
  }

  /** Python's `str.strip()` with no argument */
  function Strip(s: string): (r: string)
    ensures |r| == 0 || (!IsSpace(r[0]) && !IsSpace(r[|r| - 1]))
    ensures exists lo: nat, hi: nat | lo <= hi <= |s| ::
      r == s[lo..hi] && AllIn(s, 0, lo, IsSpace) && AllIn(s, hi, |s|, IsSpace)
  {
    var (lo, hi) := StripBounds(s, IsSpace);
    s[lo..hi]
  }

  /** Stripping surrounding whitespace off a string with none to begin with
      is the identity, and so is stripping twice. */
  lemma StripUnpadded(s: string)
    requires |s| == 0 || (!IsSpace(s[0]) && !IsSpace(s[|s| - 1]))
    ensures Strip(s) == s
  {
    if |s| > 0 {
      SpanEndUnique(s, 0, 0, IsSpace);
    }
  }

  /** Characters of class `p` on either side of a body that neither
      starts nor ends with one are exactly what `StripBounds` cuts off. */
  lemma StripBoundsPadded(pre: string, body: string, post: string, p: char -> bool)
    requires AllIn(pre, 0, |pre|, p) && AllIn(post, 0, |post|, p)
    requires |body| > 0 && !p(body[0]) && !p(body[|body| - 1])
    ensures StripBounds(pre + body + post, p) == (|pre|, |pre| + |body|)
  {
    var s := pre + body + post;
    var lo, last := |pre|, |pre| + |body| - 1;
    assert s[lo] == body[0] && s[last] == body[|body| - 1];
    assert AllIn(s, 0, lo, p) by {
      forall k | 0 <= k < lo ensures p(s[k]) { assert s[k] == pre[k]; }
    }
    SpanEndUnique(s, 0, lo, p);
    assert forall k | last < k < |s| :: s[k] == post[k - last - 1];
    assert LastIndexIn(s, lo, |s|, c => !p(c)) == Some(last);
  }

  /** Whitespace on either side of an unpadded string is exactly what
      `Strip` removes. */
  lemma StripPadded(pre: string, body: string, post: string)
    requires AllIn(pre, 0, |pre|, IsSpace) && AllIn(post, 0, |post|, IsSpace)
    requires |body| > 0 && !IsSpace(body[0]) && !IsSpace(body[|body| - 1])
    ensures Strip(pre + body + post) == body
  {
    var s := pre + body + post;
    StripBoundsPadded(pre, body, post, IsSpace);
    assert s[|pre|..|pre| + |body|] == body;
  }

  lemma StripIdempotent(s: string)
    ensures Strip(Strip(s)) == Strip(s)
  {
    StripUnpadded(Strip(s));
  }

  predicate AllDigits(s: string) {
    forall k | 0 <= k < |s| :: IsDigit(s[k])
  }

  function DigitValue(c: char): nat
    requires IsDigit(c)
  {
    c as int - '0' as int
  }

  /** Python's `int(ds)` for a string of ASCII digits */
  function DigitsValue(ds: string): nat
    requires AllDigits(ds)
  {
    if |ds| == 0 then 0 else DigitsValue(ds[..|ds| - 1]) * 10 + DigitValue(ds[|ds| - 1])
  }

  /** Python's `str(n)` for a natural number */
  function Decimal(n: nat): (r: string)
    ensures |r| > 0 && AllDigits(r)
  {
    var d := [('0' as int + n % 10) as char];
    if n < 10 then d else Decimal(n / 10) + d
  }

  /** `int(str(n)) == n` */
  lemma {:induction false} DecimalRoundTrip(n: nat)
    ensures DigitsValue(Decimal(n)) == n
  {
    var r := Decimal(n);
    if n >= 10 {
      DecimalRoundTrip(n / 10);
      assert r[..|r| - 1] == Decimal(n / 10);
    }
  }
}
