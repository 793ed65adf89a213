/** Python string operations the backend relies on, stated on `string` (a
    sequence of Unicode scalar values, like a Python `str`). */
module Text {

  datatype Option<+T> = None | Some(value: T)

  datatype Result<+T, +E> = Ok(value: T) | Err(error: E)

  lemma ConcatAssoc<T>(a: seq<T>, b: seq<T>, c: seq<T>)
    ensures (a + b) + c == a + (b + c)
  {
  }

  /* ---------------------------------------------------------------------
     Characters
     --------------------------------------------------------------------- */

  predicate IsAsciiUpper(c: char) { 'A' <= c <= 'Z' }
  predicate IsAsciiLower(c: char) { 'a' <= c <= 'z' }
  predicate IsDigit(c: char) { '0' <= c <= '9' }

  /** The characters for which Python's `str.isspace()` holds; these are
      what `str.strip()` without an argument removes. */
  predicate IsPySpace(c: char) {
    c == ' ' || ('\t' <= c <= '\r') || ('\U{1C}' <= c <= '\U{1F}')
    || c == '\U{85}' || c == '\U{A0}' || c == '\U{1680}'
    || ('\U{2000}' <= c <= '\U{200A}')
    || c == '\U{2028}' || c == '\U{2029}' || c == '\U{202F}' || c == '\U{205F}' || c == '\U{3000}'
  }

  function Lower(c: char): (r: char)
    ensures IsAsciiUpper(c) ==> IsAsciiLower(r) && r as int == c as int + 32
    ensures !IsAsciiUpper(c) ==> r == c
  {
    if IsAsciiUpper(c) then (c as int + 32) as char else c
  }

  function Upper(c: char): (r: char)
    ensures IsAsciiLower(c) ==> IsAsciiUpper(r) && r as int == c as int - 32
    ensures !IsAsciiLower(c) ==> r == c
  {
    if IsAsciiLower(c) then (c as int - 32) as char else c
  }

  function LowerStr(s: string): (r: string)
    ensures |r| == |s| && forall k :: 0 <= k < |s| ==> r[k] == Lower(s[k])
  {
    seq(|s|, k requires 0 <= k < |s| => Lower(s[k]))
  }

  function UpperStr(s: string): (r: string)
    ensures |r| == |s| && forall k :: 0 <= k < |s| ==> r[k] == Upper(s[k])
  {
    seq(|s|, k requires 0 <= k < |s| => Upper(s[k]))
  }

  /* ---------------------------------------------------------------------
     Prefixes, containment, search
     --------------------------------------------------------------------- */

  predicate StartsWith(s: string, p: string) {
    |p| <= |s| && s[..|p|] == p
  }

  predicate EndsWith(s: string, p: string) {
    |p| <= |s| && s[|s| - |p|..] == p
  }

  /** Python's `sub in s`. */
  predicate Contains(s: string, sub: string) {
    exists i :: 0 <= i <= |s| - |sub| && StartsWith(s[i..], sub)
  }

  /** One character of a case-insensitive regular expression (`re.IGNORECASE`)
      matched against the lower-case ASCII pattern character `p`. Python's `re`
      also treats U+017F (long s) as a case variant of `s` and U+212A (Kelvin
      sign) as one of `k`. */
  predicate IgnoreCaseEq(c: char, p: char) {
    c == p || (IsAsciiLower(p) && c == Upper(p))
    || (p == 's' && c == '\U{17F}') || (p == 'k' && c == '\U{212A}')
  }

  /** `re.match("^" + p, s, re.IGNORECASE)` for a literal pattern `p`. */
  predicate StartsWithIgnoreCase(s: string, p: string) {
    |p| <= |s| && forall k :: 0 <= k < |p| ==> IgnoreCaseEq(s[k], p[k])
  }

  lemma StartsWithIgnoreCaseOfLower(s: string, p: string)
    requires forall k :: 0 <= k < |p| ==> IsAsciiLower(p[k]) || p[k] == ':' || p[k] == '/'
    ensures StartsWith(LowerStr(s), p) ==> StartsWithIgnoreCase(s, p)
  {
    if StartsWith(LowerStr(s), p) {
      forall k | 0 <= k < |p| ensures IgnoreCaseEq(s[k], p[k]) {
        assert LowerStr(s)[k] == p[k];
      }
    }
  }

  /** Index of the first occurrence of `c` in `s`. */
  function IndexOf(s: string, c: char): (r: Option<nat>)
    ensures r.None? <==> c !in s
    ensures r.Some? ==> r.value < |s| && s[r.value] == c && c !in s[..r.value]
  {
    if |s| == 0 then None
    else if s[0] == c then Some(0)
    else match IndexOf(s[1..], c)
      case None => None
      case Some(i) => assert s[1..][..i] == s[1..i + 1]; Some(i + 1)
  }

  /* ---------------------------------------------------------------------
     Splitting (Python's `str.split(sep)` for a one-character separator)
     --------------------------------------------------------------------- */

  function Split(s: string, c: char): (r: seq<string>)
    ensures |r| >= 1 && forall k :: 0 <= k < |r| ==> c !in r[k]
    decreases |s|
  {
    match IndexOf(s, c)
    case None => [s]
    case Some(i) => [s[..i]] + Split(s[i + 1..], c)
  }

  /** `sep.join(parts)` */
  function Join(parts: seq<string>, c: char): string
    requires |parts| >= 1
  {
    if |parts| == 1 then parts[0] else parts[0] + [c] + Join(parts[1..], c)
  }

  function Count(s: string, c: char): nat {
    if s == [] then 0 else (if s[0] == c then 1 else 0) + Count(s[1..], c)
  }

  lemma {:induction false} CountAppend(a: string, b: string, c: char)
    ensures Count(a + b, c) == Count(a, c) + Count(b, c)
  {
    if a == [] {
      assert a + b == b;
    } else {
      assert (a + b)[1..] == a[1..] + b;
      CountAppend(a[1..], b, c);
    }
  }

  lemma {:induction false} CountAbsent(a: string, c: char)
    requires c !in a
    ensures Count(a, c) == 0
  {
    if a != [] {
      assert c !in a[1..];
      CountAbsent(a[1..], c);
    }
  }

  /** Joining the parts again gives back the original string. */
  lemma {:induction false} JoinSplit(s: string, c: char)
    ensures Join(Split(s, c), c) == s
    decreases |s|
  {
    match IndexOf(s, c)
    case None =>
    case Some(i) =>
      var rest := Split(s[i + 1..], c);
      assert Split(s, c) == [s[..i]] + rest;
      assert ([s[..i]] + rest)[1..] == rest;
      JoinSplit(s[i + 1..], c);
      calc {
        Join(Split(s, c), c);
        s[..i] + [c] + Join(rest, c);
        s[..i] + [c] + s[i + 1..];
        s;
      }
  }

  /** There is one more part than there are separators. */
  lemma {:induction false} SplitCount(s: string, c: char)
    ensures |Split(s, c)| == Count(s, c) + 1
    decreases |s|
  {
    match IndexOf(s, c)
    case None => CountAbsent(s, c);
    case Some(i) =>
      SplitCount(s[i + 1..], c);
      assert s == s[..i] + ([c] + s[i + 1..]);
      CountAppend(s[..i], [c] + s[i + 1..], c);
      CountAbsent(s[..i], c);
      assert ([c] + s[i + 1..])[1..] == s[i + 1..];
  }

  /** Splitting `a + [c] + b` where `a` holds no separator. */
  lemma SplitCons(a: string, b: string, c: char)
    requires c !in a
    ensures Split(a + [c] + b, c) == [a] + Split(b, c)
  {
    var s := a + [c] + b;
    assert s[|a|] == c && s[..|a|] == a;
    assert IndexOf(s, c) == Some(|a|);
    assert s[|a| + 1..] == b;
  }

  lemma SplitNone(a: string, c: char)
    requires c !in a
    ensures Split(a, c) == [a]
  {
  }

  /* ---------------------------------------------------------------------
     Stripping
     --------------------------------------------------------------------- */

  /** Number of leading characters satisfying `inSet`. */
  function LeadingCount(s: string, inSet: char -> bool): (n: nat)
    ensures n <= |s|
    ensures forall k :: 0 <= k < n ==> inSet(s[k])
    ensures n < |s| ==> !inSet(s[n])
  {
    if |s| == 0 || !inSet(s[0]) then 0 else 1 + LeadingCount(s[1..], inSet)
  }

  /** Number of trailing characters satisfying `inSet`. */
  function TrailingCount(s: string, inSet: char -> bool): (n: nat)
    ensures n <= |s|
    ensures forall k :: |s| - n <= k < |s| ==> inSet(s[k])
    ensures n < |s| ==> !inSet(s[|s| - 1 - n])
  {
    if |s| == 0 || !inSet(s[|s| - 1]) then 0 else 1 + TrailingCount(s[..|s| - 1], inSet)
  }

  /** `s.strip(chars)`: drop the longest prefix and then the longest suffix
      made of characters satisfying `inSet`. What is left is a slice of `s`
      with only such characters around it and none at its own ends. */
  function StripBy(s: string, inSet: char -> bool): (r: string)
    ensures |r| <= |s|
    ensures r != [] ==> !inSet(r[0]) && !inSet(r[|r| - 1])
    ensures exists i :: StrippedAt(s, inSet, i, r)
    ensures Contains(s, r)
  {
    var i := LeadingCount(s, inSet);
    var t := s[i..];
    var r := t[..|t| - TrailingCount(t, inSet)];
    assert r == s[i..i + |r|];
    assert forall k :: i + |r| <= k < |s| ==> s[k] == t[k - i];
    assert StrippedAt(s, inSet, i, r);
    assert StartsWith(s[i..], r);
    r
  }

  /** `r` sits at offset `i` of `s`, and every character of `s` before and
      after it satisfies `inSet`. */
  predicate StrippedAt(s: string, inSet: char -> bool, i: int, r: string) {
    0 <= i <= |s| - |r| && r == s[i..i + |r|]
    && (forall k :: 0 <= k < i ==> inSet(s[k]))
    && (forall k :: i + |r| <= k < |s| ==> inSet(s[k]))
  }

  /** Only one slice of `s` can be what stripping leaves: any slice with
      only stripped characters around it and none at its ends is it. */
  lemma StripByUnique(s: string, inSet: char -> bool, i: int, j: int)
    requires 0 <= i <= j <= |s|
    requires forall k :: 0 <= k < i ==> inSet(s[k])
    requires forall k :: j <= k < |s| ==> inSet(s[k])
    requires i < j ==> !inSet(s[i]) && !inSet(s[j - 1])
    ensures StripBy(s, inSet) == s[i..j]
  {
    var lead := LeadingCount(s, inSet);
    if i < j {
      assert lead == i;
      var t := s[i..];
      var trail := TrailingCount(t, inSet);
      assert forall k :: j - i <= k < |t| ==> t[k] == s[i + k];
      assert t[j - i - 1] == s[j - 1];
      assert trail == |s| - j;
      assert t[..|t| - trail] == s[i..j];
    } else {
      assert lead == |s|;
    }
  }

  /** Stripping twice strips nothing more. */
  lemma StripByIdempotent(s: string, inSet: char -> bool)
    ensures StripBy(StripBy(s, inSet), inSet) == StripBy(s, inSet)
  {
    var r := StripBy(s, inSet);
    assert LeadingCount(r, inSet) == 0;
    assert r[0..] == r;
    assert TrailingCount(r, inSet) == 0;
  }

  /** With no stripped character at either end, stripping changes nothing. */
  lemma StripByUntouched(s: string, inSet: char -> bool)
    requires s != [] && !inSet(s[0]) && !inSet(s[|s| - 1])
    ensures StripBy(s, inSet) == s
  {
    assert LeadingCount(s, inSet) == 0;
    assert s[0..] == s;
    assert TrailingCount(s, inSet) == 0;
  }

  /** `s.strip()`: Python whitespace is removed from both ends, and only there. */
  function Strip(s: string): (r: string)
    ensures |r| <= |s|
    ensures r != [] ==> !IsPySpace(r[0]) && !IsPySpace(r[|r| - 1])
    ensures exists i :: StrippedAt(s, IsPySpace, i, r)
    ensures Contains(s, r)
  {
    StripBy(s, IsPySpace)
  }

  /* ---------------------------------------------------------------------
     Decimal rendering (`str(n)`) and its inverse
     --------------------------------------------------------------------- */

  function DigitChar(d: nat): (c: char)
    requires d < 10
    ensures IsDigit(c) && c as int - '0' as int == d
  {
    ('0' as int + d) as char
  }

  function DigitValue(c: char): nat
    requires IsDigit(c)
  {
    c as int - '0' as int
  }

  predicate AllDigits(s: string) {
    forall k :: 0 <= k < |s| ==> IsDigit(s[k])
  }

  /** `str(n)` for a natural number: its decimal digits, no leading zero. */
  function NatToString(n: nat): (r: string)
    ensures |r| >= 1 && AllDigits(r)
    ensures |r| > 1 ==> r[0] != '0'
    decreases n
  {
    if n < 10 then [DigitChar(n)] else NatToString(n / 10) + [DigitChar(n % 10)]
  }

  /** A three-digit number renders as its three digits. */
  lemma NatToStringThree(n: nat)
    requires 100 <= n < 1000
    ensures NatToString(n) == [DigitChar(n / 100), DigitChar(n / 10 % 10), DigitChar(n % 10)]
  {
    assert n / 10 / 10 == n / 100;
    assert NatToString(n / 10) == [DigitChar(n / 100), DigitChar(n / 10 % 10)];
  }

  /** A four-digit number renders as its four digits. */
  lemma NatToStringFour(n: nat)
    requires 1000 <= n < 10000
    ensures NatToString(n) == [DigitChar(n / 1000), DigitChar(n / 100 % 10), DigitChar(n / 10 % 10), DigitChar(n % 10)]
  {
    assert n / 10 / 100 == n / 1000 && n / 10 / 10 % 10 == n / 100 % 10;
    NatToStringThree(n / 10);
  }

  /** `str(i)` for any integer. */
  function IntToString(i: int): (r: string)
    ensures |r| >= 1
    ensures i >= 0 ==> AllDigits(r)
    ensures i < 0 ==> r[0] == '-' && AllDigits(r[1..])
  {
    if i >= 0 then NatToString(i) else "-" + NatToString(-i)
  }

  /** `f"{n:02d}"` for `n < 100`. */
  function TwoDigits(n: nat): (r: string)
    requires n < 100
    ensures |r| == 2 && AllDigits(r)
  {
    [DigitChar(n / 10), DigitChar(n % 10)]
  }

  /** A string of digits holds no other character. */
  lemma DigitsOnly(s: string, c: char)
    requires AllDigits(s) && !IsDigit(c)
    ensures c !in s
  {
  }

  /** Python's `int(x)` on a float: truncation toward zero. */
  function Trunc(x: real): (r: int)
    ensures x >= 0.0 ==> r >= 0 && r as real <= x < r as real + 1.0
    ensures x < 0.0 ==> r <= 0 && r as real - 1.0 < x <= r as real
  {
    if x >= 0.0 then x.Floor else -((-x).Floor)
  }

  /** Value of a string of decimal digits. */
  function DigitsValue(s: string): nat
    requires AllDigits(s)
  {
    if s == [] then 0 else 10 * DigitsValue(s[..|s| - 1]) + DigitValue(s[|s| - 1])
  }

  /** `int(s)` restricted to non-empty strings of ASCII digits. */
  function ParseNat(s: string): Option<nat> {
    if s != [] && AllDigits(s) then Some(DigitsValue(s)) else None
  }

  lemma {:induction false} DigitsValueOfNat(n: nat)
    ensures DigitsValue(NatToString(n)) == n
    decreases n
  {
    if n >= 10 {
      var r := NatToString(n);
      assert r[..|r| - 1] == NatToString(n / 10);
      DigitsValueOfNat(n / 10);
    }
  }

  /** Reading back what `str(n)` wrote gives `n`. */
  lemma ParseNatToString(n: nat)
    ensures ParseNat(NatToString(n)) == Some(n)
  {
    DigitsValueOfNat(n);
  }

  lemma ParseTwoDigits(n: nat)
    requires n < 100
    ensures ParseNat(TwoDigits(n)) == Some(n)
  {
    var r := TwoDigits(n);
    assert r[..1] == [DigitChar(n / 10)];
    assert r[..1][..0] == [];
    assert DigitsValue(r[..1]) == n / 10;
    assert DigitsValue(r) == 10 * (n / 10) + n % 10;
  }
}
