/**
 * Character classes and small string operations that the Python code gets
 * from its regular-expression syntax and from `str`/`int` built-ins.
 */
module Text {
  import opened Wrappers

  type byte = x: int | 0 <= x < 256

  /** The regex class `[0-9]` (also used for `\d`, restricted to ASCII digits). */
  predicate IsDigit(c: char) {
    '0' <= c <= '9'
  }

  /**
   * The regex class `\s` for `str` patterns, which is also the set of
   * characters `str.strip()` removes: Python's Unicode whitespace.
   */
  predicate IsSpace(c: char) {
    var n := c as int;
    n == 0x20 || 0x09 <= n <= 0x0D || 0x1C <= n <= 0x1F || n == 0x85 || n == 0xA0
    || n == 0x1680 || 0x2000 <= n <= 0x200A || n == 0x2028 || n == 0x2029
    || n == 0x202F || n == 0x205F || n == 0x3000
  }

  /** The regex class `[A-Za-z0-9+/=]` that every base64 capture uses. */
  predicate IsB64Char(c: char) {
    'A' <= c <= 'Z' || 'a' <= c <= 'z' || '0' <= c <= '9' || c == '+' || c == '/' || c == '='
  }

  /** Characters at which `str.splitlines()` ends a line. */
  predicate IsLineBoundary(c: char) {
    var n := c as int;
    0x0A <= n <= 0x0D || 0x1C <= n <= 0x1E || n == 0x85 || n == 0x2028 || n == 0x2029
  }

  predicate AllDigits(s: string) {
    forall k | 0 <= k < |s| :: IsDigit(s[k])
  }

  predicate AllB64(s: string) {
    forall k | 0 <= k < |s| :: IsB64Char(s[k])
  }

  predicate StartsWith(s: string, prefix: string) {
    |prefix| <= |s| && s[..|prefix|] == prefix
  }

  /** `c * n` in Python. */
  function Repeat(c: char, n: nat): (r: string)
    ensures |r| == n
    ensures forall k | 0 <= k < n :: r[k] == c
  {
    if n == 0 then [] else Repeat(c, n - 1) + [c]
  }

  function DigitValue(c: char): (v: nat)
    requires IsDigit(c)
    ensures v < 10
  {
    c as int - '0' as int
  }

  function DigitChar(v: nat): (c: char)
    requires v < 10
    ensures IsDigit(c) && DigitValue(c) == v
  {
    ('0' as int + v) as char
  }

  /** The value of a decimal digit string, as `int(d)` computes it. */
  function DigitsValue(d: string): nat
    requires AllDigits(d)
  {
    if d == [] then 0 else DigitsValue(d[..|d| - 1]) * 10 + DigitValue(d[|d| - 1])
  }

  /** `str(n)` for a non-negative integer: the canonical decimal numeral. */
  function ShowNat(n: nat): (s: string)
    ensures |s| > 0 && AllDigits(s)
    ensures DigitsValue(s) == n
    ensures s[0] == '0' ==> n == 0
  {
    if n < 10 then [DigitChar(n)]
    else
      var p := ShowNat(n / 10);
      var s := p + [DigitChar(n % 10)];
      assert s[..|s| - 1] == p;
      s
  }

  /** `str(n)` for any integer, with a leading `-` for negative values. */
  function ShowInt(n: int): (s: string)
    ensures |s| > 0
    ensures n >= 0 ==> s == ShowNat(n)
    ensures n < 0 ==> s == "-" + ShowNat(-n)
  {
    if n < 0 then "-" + ShowNat(-n) else ShowNat(n)
  }

  /** Whitespace removed from both ends, as `str.strip()` does. */
  function Strip(s: string): (r: string)
    ensures exists i, j | 0 <= i <= j <= |s| ::
              (r == s[i..j]
               && (forall k | 0 <= k < i :: IsSpace(s[k]))
               && (forall k | j <= k < |s| :: IsSpace(s[k])))
    ensures r == [] || (!IsSpace(r[0]) && !IsSpace(r[|r| - 1]))
  {
    var i := LeadingSpaces(s, 0);
    var j := TrailingStart(s, i, |s|);
    s[i..j]
  }

  function LeadingSpaces(s: string, i: nat): (j: nat)
    requires i <= |s|
    requires forall k | 0 <= k < i :: IsSpace(s[k])
    ensures i <= j <= |s|
    ensures forall k | 0 <= k < j :: IsSpace(s[k])
    ensures j == |s| || !IsSpace(s[j])
    decreases |s| - i
  {
    if i == |s| || !IsSpace(s[i]) then i else LeadingSpaces(s, i + 1)
  }

  function TrailingStart(s: string, lo: nat, j: nat): (e: nat)
    requires lo <= j <= |s|
    requires lo == |s| || !IsSpace(s[lo])
    requires forall k | j <= k < |s| :: IsSpace(s[k])
    ensures lo <= e <= j
    ensures forall k | e <= k < |s| :: IsSpace(s[k])
    ensures e == lo || !IsSpace(s[e - 1])
    ensures lo < |s| ==> lo < e
    decreases j
  {
    if j == lo || !IsSpace(s[j - 1]) then j else TrailingStart(s, lo, j - 1)
  }

  /**
   * Python's `int(s)` for base 10: surrounding whitespace, an optional sign,
   * then digits where single underscores may separate two digits.
   */
  function ParseInt(s: string): (r: Option<int>)
    ensures var t := Strip(s);
            r.Some? <==> t != [] && IsGroupedDigits(if t[0] == '-' || t[0] == '+' then t[1..] else t)
    ensures var t := Strip(s);
            r.Some? ==> && t != []
                        && var v: int := DigitsValue(DropSeparators(if t[0] == '-' || t[0] == '+' then t[1..] else t));
                           r.value == if t[0] == '-' then -v else v
  {
    var t := Strip(s);
    if t == [] then None
    else if t[0] == '-' then
      match ParseGroupedDigits(t[1..])
      case Some(v) => Some(-(v as int))
      case None => None
    else if t[0] == '+' then ParseGroupedDigits(t[1..])
    else ParseGroupedDigits(t)
  }

  /**
   * The digit part of an integer literal: digits, where a single `_` may
   * stand between two digits.
   */
  predicate IsGroupedDigits(t: string) {
    && t != []
    && IsDigit(t[0])
    && IsDigit(t[|t| - 1])
    && forall k | 0 <= k < |t| ::
         IsDigit(t[k]) || (t[k] == '_' && k + 1 < |t| && IsDigit(t[k + 1]))
  }

  /** The digits of `t` in order, separators dropped. */
  function DropSeparators(t: string): (r: string)
    ensures AllDigits(r)
    ensures AllDigits(t) ==> r == t
    ensures |r| <= |t|
  {
    if t == [] then []
    else (if IsDigit(t[0]) then [t[0]] else []) + DropSeparators(t[1..])
  }

  function ParseGroupedDigits(t: string): (r: Option<nat>)
    ensures r.Some? <==> IsGroupedDigits(t)
    ensures r.Some? ==> r.value == DigitsValue(DropSeparators(t))
    ensures AllDigits(t) && t != [] ==> r == Some(DigitsValue(t))
  {
    if IsGroupedDigits(t) then Some(DigitsValue(DropSeparators(t))) else None
  }

  /**
   * The first element of `s.splitlines()` for a non-empty `s`: everything
   * before the first line boundary.
   */
  function FirstLine(s: string): (r: string)
    ensures StartsWith(s, r)
    ensures forall k | 0 <= k < |r| :: !IsLineBoundary(r[k])
    ensures |r| == |s| || IsLineBoundary(s[|r|])
  {
    if s == [] || IsLineBoundary(s[0]) then []
    else [s[0]] + FirstLine(s[1..])
  }

  /** A text with no whitespace at either end is left as it is by `strip`. */
  lemma StripTrimmed(s: string)
    requires s == [] || (!IsSpace(s[0]) && !IsSpace(s[|s| - 1]))
    ensures Strip(s) == s
  {
    var i := LeadingSpaces(s, 0);
    if s != [] {
      assert i == 0;
      var j := TrailingStart(s, i, |s|);
      assert j == |s|;
    }
  }

  /** `strip` is idempotent. */
  lemma StripIdempotent(s: string)
    ensures Strip(Strip(s)) == Strip(s)
  {
    StripTrimmed(Strip(s));
  }

  /** `int(str(n)) == n`: the numeral written in a banner parses back to its identifier. */
  lemma ParseShowInt(n: int)
    ensures ParseInt(ShowInt(n)) == Some(n)
  {
    var s := ShowInt(n);
    var digits := ShowNat(if n < 0 then -n else n);
    assert !IsSpace(digits[|digits| - 1]);
    assert s[|s| - 1] == digits[|digits| - 1];
    StripTrimmed(s);
    if n < 0 {
      assert s[1..] == digits;
    }
  }
}
