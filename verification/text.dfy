/**
 * The string operations the pipeline relies on: Python's `str.strip()`,
 * `str.capitalize()` and `str.startswith`, decimal digits, and the search
 * for the first `\((\d+)\)` in an `onclick` attribute.
 */
module Text {
  import opened Wrappers

  /** Python's `str.isspace()` on one character. */
  predicate IsSpace(c: char) {
    || c == ' '
    || '\U{9}' <= c <= '\U{D}'
    || '\U{1C}' <= c <= '\U{1F}'
    || c == '\U{85}' || c == '\U{A0}' || c == '\U{1680}'
    || '\U{2000}' <= c <= '\U{200A}'
    || c == '\U{2028}' || c == '\U{2029}' || c == '\U{202F}' || c == '\U{205F}' || c == '\U{3000}'
  }

  predicate AllSpace(s: string) {
    forall i :: 0 <= i < |s| ==> IsSpace(s[i])
  }

  /** Neither starts nor ends with whitespace: what `strip()` returns. */
  predicate Trimmed(s: string) {
    |s| == 0 || (!IsSpace(s[0]) && !IsSpace(s[|s| - 1]))
  }

  /** The end of the run of whitespace that starts at `i`. */
  function SpacesEnd(s: string, i: nat): (j: nat)
    requires i <= |s|
    ensures i <= j <= |s|
    ensures forall k :: i <= k < j ==> IsSpace(s[k])
    ensures j < |s| ==> !IsSpace(s[j])
    decreases |s| - i
  {
    if i < |s| && IsSpace(s[i]) then SpacesEnd(s, i + 1) else i
  }

  /** The start of the run of whitespace that ends at `j`, going no further back than `i`. */
  function SpacesStart(s: string, i: nat, j: nat): (k: nat)
    requires i <= j <= |s|
    ensures i <= k <= j
    ensures forall t :: k <= t < j ==> IsSpace(s[t])
    ensures k > i ==> !IsSpace(s[k - 1])
    decreases j
  {
    if j > i && IsSpace(s[j - 1]) then SpacesStart(s, i, j - 1) else j
  }

  /**
   * Python's `str.strip()`: the text between the leading and the trailing
   * whitespace of `s`.
   */
  function Strip(s: string): (r: string)
    ensures Trimmed(r)
    ensures SpacesEnd(s, 0) + |r| <= |s|
    ensures forall k :: 0 <= k < |r| ==> r[k] == s[SpacesEnd(s, 0) + k]
    ensures forall k :: SpacesEnd(s, 0) + |r| <= k < |s| ==> IsSpace(s[k])
  {
    var a := SpacesEnd(s, 0);
    var b := SpacesStart(s, a, |s|);
    seq(b - a, k requires 0 <= k < b - a => s[a + k])
  }

  /** `SpacesEnd` stops at the first character that is not whitespace. */
  lemma {:induction false} SpacesEndAt(s: string, i: nat, j: nat)
    requires i <= j <= |s| && (forall k :: i <= k < j ==> IsSpace(s[k])) && (j < |s| ==> !IsSpace(s[j]))
    ensures SpacesEnd(s, i) == j
    decreases j - i
  {
    if i < j {
      SpacesEndAt(s, i + 1, j);
    }
  }

  /** `SpacesStart` stops after the last character that is not whitespace. */
  lemma {:induction false} SpacesStartAt(s: string, i: nat, k: nat, j: nat)
    requires i <= k <= j <= |s| && (forall t :: k <= t < j ==> IsSpace(s[t])) && (k > i ==> !IsSpace(s[k - 1]))
    ensures SpacesStart(s, i, j) == k
    decreases j
  {
    if k < j {
      SpacesStartAt(s, i, k, j - 1);
    }
  }

  /** Whitespace around a trimmed text is exactly what `strip()` removes. */
  lemma StripPadded(pre: string, t: string, post: string)
    requires AllSpace(pre) && AllSpace(post) && Trimmed(t)
    ensures Strip(pre + t + post) == t
  {
    var s := pre + t + post;
    if |t| == 0 {
      SpacesEndAt(s, 0, |s|);
      SpacesStartAt(s, |s|, |s|, |s|);
    } else {
      SpacesEndAt(s, 0, |pre|);
      SpacesStartAt(s, |pre|, |pre| + |t|, |s|);
    }
  }

  /** Stripping twice is stripping once. */
  lemma StripIdempotent(s: string)
    ensures Strip(Strip(s)) == Strip(s)
  {
    var t := Strip(s);
    SpacesEndAt(t, 0, 0);
    SpacesStartAt(t, 0, |t|, |t|);
    assert Strip(t) == t;
  }

  function LowerChar(c: char): char {
    if 'A' <= c <= 'Z' then (c as int + 32) as char else c
  }

  function UpperChar(c: char): char {
    if 'a' <= c <= 'z' then (c as int - 32) as char else c
  }

  function Lower(s: string): (r: string)
    ensures |r| == |s|
    ensures forall i :: 0 <= i < |s| ==> r[i] == LowerChar(s[i])
  {
    seq(|s|, i requires 0 <= i < |s| => LowerChar(s[i]))
  }

  /** Python's `str.capitalize()` on ASCII letters: first letter upper case, the rest lower case. */
  function Capitalize(s: string): (r: string)
    ensures |r| == |s|
    ensures |s| > 0 ==> r[0] == UpperChar(s[0]) && !('a' <= r[0] <= 'z')
    ensures forall i :: 1 <= i < |s| ==> r[i] == LowerChar(s[i]) && !('A' <= r[i] <= 'Z')
  {
    if |s| == 0 then "" else [UpperChar(s[0])] + Lower(s[1..])
  }

  /** Strings that agree up to letter case capitalise to the same string. */
  lemma CapitalizeLower(a: string, b: string)
    requires Lower(a) == Lower(b)
    ensures Capitalize(a) == Capitalize(b)
  {
    assert |a| == |Lower(a)| == |b|;
    if |a| > 0 {
      assert LowerChar(a[0]) == Lower(a)[0] == Lower(b)[0] == LowerChar(b[0]);
      forall i | 1 <= i < |a|
        ensures Capitalize(a)[i] == Capitalize(b)[i]
      {
        assert LowerChar(a[i]) == Lower(a)[i] == Lower(b)[i] == LowerChar(b[i]);
      }
    }
  }

  /** Python's `str.startswith`. */
  predicate StartsWith(s: string, prefix: string) {
    |prefix| <= |s| && s[..|prefix|] == prefix
  }

  predicate IsDigit(c: char) {
    '0' <= c <= '9'
  }

  predicate AllDigits(s: string) {
    forall i :: 0 <= i < |s| ==> IsDigit(s[i])
  }

  /** Python's `int(s)` on a run of ASCII digits. */
  function DigitsValue(s: string): nat
    requires AllDigits(s)
  {
    if |s| == 0 then 0
    else DigitsValue(s[..|s| - 1]) * 10 + (s[|s| - 1] as int - '0' as int)
  }

  function DigitChar(d: nat): (c: char)
    requires d < 10
    ensures IsDigit(c) && c as int - '0' as int == d
  {
    ('0' as int + d) as char
  }

  /** The decimal notation of `n`, without leading zeros; `int` reads it back as `n`. */
  function NatDigits(n: nat): (r: string)
    ensures |r| > 0 && AllDigits(r)
    ensures DigitsValue(r) == n
    ensures |r| > 1 ==> r[0] != '0'
  {
    if n < 10 then [DigitChar(n)]
    else
      var p := NatDigits(n / 10);
      var r := p + [DigitChar(n % 10)];
      assert r[..|r| - 1] == p;
      r
  }

  /** The `n`-digit zero-padded notation of `v` (as `%02d` / `%04d` print it). */
  function Padded(v: nat, n: nat): (r: string)
    requires v < Pow10(n)
    ensures |r| == n && AllDigits(r)
    ensures DigitsValue(r) == v
  {
    if n == 0 then ""
    else
      var p := Padded(v / 10, n - 1);
      var r := p + [DigitChar(v % 10)];
      assert r[..|r| - 1] == p;
      r
  }

  function Pow10(n: nat): (p: nat)
    ensures p >= 1
  {
    if n == 0 then 1 else 10 * Pow10(n - 1)
  }

  /** The end of the run of digits that starts at position `i` of `s`. */
  function DigitsEnd(s: string, i: nat): (j: nat)
    requires i <= |s|
    ensures i <= j <= |s|
    ensures forall k :: i <= k < j ==> IsDigit(s[k])
    ensures j < |s| ==> !IsDigit(s[j])
    decreases |s| - i
  {
    if i < |s| && IsDigit(s[i]) then DigitsEnd(s, i + 1) else i
  }

  /** The pattern `\((\d+)\)` matches at position `i` of `s`. */
  predicate ParenNumberAt(s: string, i: nat) {
    && i < |s|
    && s[i] == '('
    && var j := DigitsEnd(s, i + 1);
    && j > i + 1
    && j < |s|
    && s[j] == ')'
  }

  /** The value of the digits the pattern captures at position `i`. */
  function ParenNumber(s: string, i: nat): nat
    requires ParenNumberAt(s, i)
  {
    DigitsValue(s[i + 1..DigitsEnd(s, i + 1)])
  }

  /** The first position at or after `i` where the pattern matches, or `|s|`. */
  function FirstParenFrom(s: string, i: nat): (k: nat)
    requires i <= |s|
    ensures i <= k <= |s|
    ensures k < |s| ==> ParenNumberAt(s, k)
    ensures forall j :: i <= j < k ==> !ParenNumberAt(s, j)
    decreases |s| - i
  {
    if i == |s| then i
    else if ParenNumberAt(s, i) then i
    else FirstParenFrom(s, i + 1)
  }

  /** `re.search(r"\((\d+)\)", s)` followed by `int(m.group(1))`; None when nothing matches. */
  function FirstParenNumber(s: string): (r: Option<nat>)
    ensures r.None? <==> forall i :: 0 <= i < |s| ==> !ParenNumberAt(s, i)
    ensures r.Some? ==> exists i: nat :: ParenNumberAt(s, i) && r.value == ParenNumber(s, i)
                                    && forall j :: 0 <= j < i ==> !ParenNumberAt(s, j)
  {
    var k := FirstParenFrom(s, 0);
    if k < |s| then Some(ParenNumber(s, k)) else None
  }

  /** An id written as `(<digits>)` after text with no `(` is the one found. */
  lemma ParenNumberFound(p: string, n: nat, q: string)
    requires '(' !in p
    ensures FirstParenNumber(p + "(" + NatDigits(n) + ")" + q) == Some(n)
  {
    var ds := NatDigits(n);
    var s := p + "(" + ds + ")" + q;
    ParenDigitsAt(p, ds, q);
    forall j | 0 <= j < |p|
      ensures !ParenNumberAt(s, j)
    {
      assert s[j] == p[j];
    }
  }

  lemma ParenDigitsAt(p: string, ds: string, q: string)
    requires |ds| > 0 && AllDigits(ds)
    ensures ParenNumberAt(p + "(" + ds + ")" + q, |p|)
    ensures ParenNumber(p + "(" + ds + ")" + q, |p|) == DigitsValue(ds)
  {
    var s := p + "(" + ds + ")" + q;
    var i, j := |p| + 1, |p| + 1 + |ds|;
    assert forall k :: i <= k < j ==> s[k] == ds[k - i];
    assert s[j] == ')';
    assert DigitsEnd(s, i) == j;
    assert s[i..j] == ds;
  }
}
