/**
 * The Python string built-ins the validator relies on: `str.strip()` with no
 * argument, `str.isdigit()`, and `str(n)` for a non-negative integer.
 */
module Text {

  /** Python's `str.isspace` for one character: the characters `str.strip()`
      removes when it is called without an argument. */
  predicate IsSpace(c: char) {
    || '\t' <= c <= '\r'              // tab, line feed, vertical tab, form feed, carriage return
    || '\U{1C}' <= c <= '\U{1F}'      // file, group, record and unit separators
    || c == ' '
    || c == '\U{85}' || c == '\U{A0}' // next line, no-break space
    || c == '\U{1680}'
    || '\U{2000}' <= c <= '\U{200A}'
    || c == '\U{2028}' || c == '\U{2029}'
    || c == '\U{202F}' || c == '\U{205F}' || c == '\U{3000}'
  }

  predicate AllSpace(s: string) {
    forall k | 0 <= k < |s| :: IsSpace(s[k])
  }

  /** The characters of `s` from `i` up to `j` are all white space. */
  predicate SpaceRun(s: string, i: nat, j: nat)
    requires i <= j <= |s|
  {
    forall k | i <= k < j :: IsSpace(s[k])
  }

  /** Where the white space that starts at `i` ends. */
  function LeadingEnd(s: string, i: nat): (j: nat)
    requires i <= |s|
    ensures i <= j <= |s| && SpaceRun(s, i, j)
    ensures j == |s| || !IsSpace(s[j])
    decreases |s| - i
  {
    if i < |s| && IsSpace(s[i]) then LeadingEnd(s, i + 1) else i
  }

  /** Where the white space that ends at `j` starts, going no further left
      than `lo`. */
  function TrailingStart(s: string, lo: nat, j: nat): (k: nat)
    requires lo <= j <= |s|
    ensures lo <= k <= j && SpaceRun(s, k, j)
    ensures k == lo || !IsSpace(s[k - 1])
  {
    if lo < j && IsSpace(s[j - 1]) then TrailingStart(s, lo, j - 1) else j
  }

  /** Python's `s.strip()`: `s` without its leading and trailing white space. */
  function Strip(s: string): string {
    var a := LeadingEnd(s, 0);
    s[a..TrailingStart(s, a, |s|)]
  }

  /** What `strip` leaves neither starts nor ends with white space. */
  lemma StripTrimmed(s: string)
    ensures |Strip(s)| <= |s|
    ensures Strip(s) == [] || (!IsSpace(Strip(s)[0]) && !IsSpace(Strip(s)[|Strip(s)| - 1]))
  {
  }

  /** What `strip` leaves is a slice of its argument, and everything it cut
      off at either end is white space. */
  lemma StripIsSlice(s: string)
    ensures exists i, j :: 0 <= i <= j <= |s| && Strip(s) == s[i..j]
                           && AllSpace(s[..i]) && AllSpace(s[j..])
  {
    var i := LeadingEnd(s, 0);
    var j := TrailingStart(s, i, |s|);
    forall k | 0 <= k < i ensures IsSpace(s[..i][k]) {
      assert s[..i][k] == s[k];
    }
    forall k | 0 <= k < |s| - j ensures IsSpace(s[j..][k]) {
      assert s[j..][k] == s[j + k];
    }
  }

  /** Stripping twice is stripping once. */
  lemma StripIdempotent(s: string)
    ensures Strip(Strip(s)) == Strip(s)
  {
    var r := Strip(s);
    if r != [] {
      assert LeadingEnd(r, 0) == 0;
      assert TrailingStart(r, 0, |r|) == |r|;
    }
  }

  /** A string strips to nothing exactly when it is all white space. */
  lemma StripEmptyIff(s: string)
    ensures Strip(s) == [] <==> AllSpace(s)
  {
    var i := LeadingEnd(s, 0);
    var j := TrailingStart(s, i, |s|);
    if AllSpace(s) {
      assert i == |s|;
    } else {
      assert i < j;
    }
  }

  /** Python's `s.startswith(p)`. */
  predicate StartsWith(s: string, p: string) {
    p == [] || (s != [] && s[0] == p[0] && StartsWith(s[1..], p[1..]))
  }

  /** `StartsWith` is the prefix test: `p` is the first `|p|` characters of `s`. */
  lemma {:induction false} StartsWithIsPrefix(s: string, p: string)
    ensures StartsWith(s, p) <==> |p| <= |s| && s[..|p|] == p
  {
    if p != [] && s != [] {
      StartsWithIsPrefix(s[1..], p[1..]);
      if |p| <= |s| {
        assert s[..|p|] == [s[0]] + s[1..][..|p| - 1];
        assert p == [p[0]] + p[1..];
      }
    }
  }

  /** What Python's `str.isdigit` accepts for the ASCII digits. Python also
      accepts the other Unicode decimal and digit characters (Arabic-Indic,
      Devanagari, superscript two, ...); they are not modelled. */
  predicate IsDigit(c: char) {
    '0' <= c <= '9'
  }

  predicate AllDigits(s: string) {
    forall k | 0 <= k < |s| :: IsDigit(s[k])
  }

  /** Python's `s.isdigit()`: non-empty and made only of digits. */
  predicate IsDigitString(s: string) {
    |s| > 0 && AllDigits(s)
  }

  function DigitChar(d: nat): (c: char)
    requires d < 10
    ensures IsDigit(c) && c as int - '0' as int == d
  {
    ('0' as int + d) as char
  }

  function DigitValue(c: char): (d: nat)
    requires IsDigit(c)
    ensures d < 10
  {
    c as int - '0' as int
  }

  /** Python's `str(n)` for a count: its decimal numeral, without leading zeros. */
  function NatToString(n: nat): (r: string)
    ensures IsDigitString(r)
    ensures r[0] != '0' || r == "0"
    ensures n < 10 <==> |r| == 1
  {
    if n < 10 then [DigitChar(n)] else NatToString(n / 10) + [DigitChar(n % 10)]
  }

  /** The number a string of decimal digits denotes. */
  function DigitsValue(s: string): nat
    requires AllDigits(s)
  {
    if s == [] then 0 else 10 * DigitsValue(s[..|s| - 1]) + DigitValue(s[|s| - 1])
  }

  /** Reading a rendered count back gives the count: `str` loses nothing. */
  lemma {:induction false} DecimalRoundTrip(n: nat)
    ensures DigitsValue(NatToString(n)) == n
  {
    var r := NatToString(n);
    if n >= 10 {
      DecimalRoundTrip(n / 10);
      assert r[..|r| - 1] == NatToString(n / 10);
    }
  }

  /** The longest run of digits at the end of `s`. */
  function TrailingDigits(s: string): (r: string)
    ensures AllDigits(r) && |r| <= |s| && r == s[|s| - |r|..]
    ensures |r| == |s| || !IsDigit(s[|s| - |r| - 1])
  {
    if s != [] && IsDigit(s[|s| - 1]) then TrailingDigits(s[..|s| - 1]) + [s[|s| - 1]] else []
  }

  /** Digits written after a non-digit are exactly the trailing digit run. */
  lemma {:induction false} TrailingDigitsOfSuffix(p: string, d: string)
    requires AllDigits(d)
    requires p == [] || !IsDigit(p[|p| - 1])
    ensures TrailingDigits(p + d) == d
  {
    if d != [] {
      var d' := d[..|d| - 1];
      assert (p + d)[..|p + d| - 1] == p + d';
      TrailingDigitsOfSuffix(p, d');
    } else {
      assert p + d == p;
    }
  }
}
