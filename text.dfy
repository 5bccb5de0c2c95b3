/**
 * The string formatting the cleaning script relies on: decimal rendering of
 * natural numbers, two-digit zero padding of months and days, the last two
 * characters of the year, and the "<tender>_<k>" block tag, together with the
 * whitespace stripping, ASCII upper-casing and case-insensitive search used
 * by the row selection. Strings are sequences of characters.
 */
module Text {

  predicate IsDigit(c: char) {
    '0' <= c <= '9'
  }

  predicate AllDigits(s: string) {
    forall i :: 0 <= i < |s| ==> IsDigit(s[i])
  }

  /** The character of decimal digit `d`. */
  function Digit(d: nat): (c: char)
    requires d < 10
    ensures IsDigit(c) && c as int - '0' as int == d
  {
    (d + '0' as int) as char
  }

  /** The decimal rendering of a natural number: digits only, no leading zero. */
  function Decimal(n: nat): (s: string)
    ensures |s| >= 1 && AllDigits(s)
    ensures |s| == 1 <==> n < 10
    ensures s[0] == '0' ==> n == 0
    ensures s[|s| - 1] == Digit(n % 10)
  {
    if n < 10 then [Digit(n)] else Decimal(n / 10) + [Digit(n % 10)]
  }

  /** The value of a string of decimal digits (the inverse of `Decimal`). */
  function ParseDecimal(s: string): nat
    requires AllDigits(s)
  {
    if s == [] then 0 else ParseDecimal(s[..|s| - 1]) * 10 + (s[|s| - 1] as int - '0' as int)
  }

  lemma {:induction false} DecimalRoundTrip(n: nat)
    ensures ParseDecimal(Decimal(n)) == n
  {
    if n >= 10 {
      var s := Decimal(n);
      assert s[..|s| - 1] == Decimal(n / 10);
      DecimalRoundTrip(n / 10);
    }
  }

  /** Different numbers are rendered differently. */
  lemma DecimalInjective(m: nat, n: nat)
    requires Decimal(m) == Decimal(n)
    ensures m == n
  {
    DecimalRoundTrip(m);
    DecimalRoundTrip(n);
  }

  /** Two-digit zero padding for 0 <= n < 100: exactly two digits, reading back as `n`. */
  function Pad2(n: nat): (s: string)
    requires n < 100
    ensures |s| == 2 && AllDigits(s)
    ensures ParseDecimal(s) == n
  {
    var s := [Digit(n / 10), Digit(n % 10)];
    assert s[..1][..0] == [];
    assert ParseDecimal(s[..1]) == n / 10;
    s
  }

  /** Zero padding only adds a leading '0' below ten; otherwise it is plain decimal. */
  lemma Pad2IsPaddedDecimal(n: nat)
    requires n < 100
    ensures n < 10 ==> Pad2(n) == "0" + Decimal(n)
    ensures n >= 10 ==> Pad2(n) == Decimal(n)
  {
    if n >= 10 {
      assert Decimal(n / 10) == [Digit(n / 10)];
    }
  }

  lemma Pad2Injective(m: nat, n: nat)
    requires m < 100 && n < 100
    requires Pad2(m) == Pad2(n)
    ensures m == n
  {
  }

  /**
   * The last two characters of the year's decimal rendering, or the whole
   * rendering when it is shorter: one or two digits, two from year 10 on, and
   * a one-digit year as it is.
   */
  function YearSuffix(year: nat): (r: string)
    ensures 1 <= |r| <= 2 && AllDigits(r)
    ensures |r| == 2 <==> year >= 10
    ensures year < 10 ==> ParseDecimal(r) == year
  {
    var s := Decimal(year);
    DecimalRoundTrip(year);
    if |s| >= 2 then s[|s| - 2..] else s
  }

  /** For every year from 10 on, the suffix is the two-digit year of the century. */
  lemma YearSuffixIsTwoDigitYear(year: nat)
    requires year >= 10
    ensures YearSuffix(year) == Pad2(year % 100)
  {
    var q, r := year / 100, year % 100;
    assert year == 100 * q + r;
    assert year / 10 == 10 * q + r / 10;
    assert (year / 10) % 10 == r / 10;
    assert year % 10 == r % 10;
    var s := Decimal(year);
    var t := Decimal(year / 10);
    assert s == t + [Digit(year % 10)];
    assert s[|s| - 2] == t[|t| - 1];
  }

  /** No string occurs twice in `s`. */
  predicate Distinct(s: seq<string>) {
    forall i, j :: 0 <= i < j < |s| ==> s[i] != s[j]
  }

  /**
   * The numbered tender id: the tender id, an underscore, then the number.
   * The id is kept as a prefix and the part after the underscore reads back
   * as the number.
   */
  function BlockTag(tender: string, k: nat): (r: string)
    ensures |r| > |tender| + 1 && r[..|tender|] == tender && r[|tender|] == '_'
    ensures AllDigits(r[|tender| + 1..]) && ParseDecimal(r[|tender| + 1..]) == k
    ensures r[|tender| + 1..] == Decimal(k)
  {
    var r := tender + "_" + Decimal(k);
    assert r[|tender| + 1..] == Decimal(k);
    DecimalRoundTrip(k);
    r
  }

  /**
   * A string ending in a separator followed by a separator-free tail splits
   * in one way only: at its last separator.
   */
  lemma SplitAtLastSeparator(a1: string, d1: string, a2: string, d2: string, sep: char)
    requires sep !in d1 && sep !in d2
    requires a1 + [sep] + d1 == a2 + [sep] + d2
    ensures a1 == a2 && d1 == d2
  {
    var s := a1 + [sep] + d1;
    if |d1| < |d2| {
      SeparatorInLongerTail(a1, d1, a2, d2, sep);
      assert false;
    } else if |d2| < |d1| {
      SeparatorInLongerTail(a2, d2, a1, d1, sep);
      assert false;
    }
    assert a1 == s[..|a1|] && a2 == s[..|a2|];
    assert d1 == s[|a1| + 1..] && d2 == s[|a2| + 1..];
  }

  /** When the tails differ in length, the shorter one's separator falls inside the longer tail. */
  lemma SeparatorInLongerTail(a1: string, d1: string, a2: string, d2: string, sep: char)
    requires a1 + [sep] + d1 == a2 + [sep] + d2
    requires |d1| < |d2|
    ensures sep in d2
  {
    var s := a1 + [sep] + d1;
    var p := |s| - |d1| - 1;
    assert s[p] == sep;
    assert (a2 + [sep] + d2)[p] == d2[p - |a2| - 1];
  }

  /** Numbered ids determine both the tender id and the occurrence number. */
  lemma BlockTagInjective(v1: string, k1: nat, v2: string, k2: nat)
    requires BlockTag(v1, k1) == BlockTag(v2, k2)
    ensures v1 == v2 && k1 == k2
  {
    var d1, d2 := Decimal(k1), Decimal(k2);
    SplitAtLastSeparator(v1, d1, v2, d2, '_');
    DecimalInjective(k1, k2);
  }

  /* ---- character classes and case folding used by the row selection ---- */

  /**
   * Python's `str.isspace`: the characters `str.strip()` removes when called
   * without arguments.
   */
  predicate IsPythonSpace(c: char) {
    ('\t' <= c <= '\r') || ('\U{1C}' <= c <= ' ') || c == '\U{85}' || c == '\U{A0}'
    || c == '\U{1680}' || ('\U{2000}' <= c <= '\U{200A}') || c == '\U{2028}' || c == '\U{2029}'
    || c == '\U{202F}' || c == '\U{205F}' || c == '\U{3000}'
  }

  /** Number of leading whitespace characters. */
  function LeadingSpaces(s: string): (n: nat)
    ensures n <= |s|
    ensures forall i :: 0 <= i < n ==> IsPythonSpace(s[i])
    ensures n < |s| ==> !IsPythonSpace(s[n])
  {
    if s != [] && IsPythonSpace(s[0]) then 1 + LeadingSpaces(s[1..]) else 0
  }

  /** Number of trailing whitespace characters. */
  function TrailingSpaces(s: string): (n: nat)
    ensures n <= |s|
    ensures forall i :: |s| - n <= i < |s| ==> IsPythonSpace(s[i])
    ensures n < |s| ==> !IsPythonSpace(s[|s| - 1 - n])
  {
    if s != [] && IsPythonSpace(s[|s| - 1]) then 1 + TrailingSpaces(s[..|s| - 1]) else 0
  }

  /**
   * Stripping whitespace from both ends: the slice between the leading and the
   * trailing whitespace, empty exactly when the string is all whitespace.
   */
  function Strip(s: string): (r: string)
    ensures |r| <= |s|
    ensures r == [] <==> forall i :: 0 <= i < |s| ==> IsPythonSpace(s[i])
  {
    var lead := LeadingSpaces(s);
    var rest := s[lead..];
    var trail := TrailingSpaces(rest);
    assert lead < |s| ==> rest[0] == s[lead];
    rest[..|rest| - trail]
  }

  /**
   * The stripped string is the slice of `s` starting after its leading
   * whitespace; everything around it is whitespace and it neither starts nor
   * ends with whitespace.
   */
  lemma StripShape(s: string)
    ensures var lead, r := LeadingSpaces(s), Strip(s);
      && lead + |r| <= |s|
      && r == s[lead..lead + |r|]
      && (forall k :: lead + |r| <= k < |s| ==> IsPythonSpace(s[k]))
      && (r != [] ==> !IsPythonSpace(r[0]) && !IsPythonSpace(r[|r| - 1]))
  {
    StripSlice(s);
    StripFirst(s);
    StripLast(s);
  }

  /** The stripped string is a slice of `s`, and everything after it is whitespace. */
  lemma StripSlice(s: string)
    ensures var lead, r := LeadingSpaces(s), Strip(s);
      && lead + |r| <= |s| && r == s[lead..lead + |r|]
      && forall k :: lead + |r| <= k < |s| ==> IsPythonSpace(s[k])
  {
    var lead := LeadingSpaces(s);
    var rest := s[lead..];
    var m := |rest| - TrailingSpaces(rest);
    DropThenTake(s, lead, m);
    forall k | lead + m <= k < |s| ensures IsPythonSpace(s[k]) {
      DropAt(s, lead, k);
    }
  }

  /** A non-empty stripped string does not start with whitespace. */
  lemma StripFirst(s: string)
    ensures Strip(s) != [] ==> !IsPythonSpace(Strip(s)[0])
  {
    var lead := LeadingSpaces(s);
    var rest := s[lead..];
    var m := |rest| - TrailingSpaces(rest);
    if m > 0 {
      DropAt(s, lead, lead);
      TakeAt(rest, m, 0);
    }
  }

  /** A non-empty stripped string does not end with whitespace. */
  lemma StripLast(s: string)
    ensures Strip(s) != [] ==> !IsPythonSpace(Strip(s)[|Strip(s)| - 1])
  {
    var rest := s[LeadingSpaces(s)..];
    var trail := TrailingSpaces(rest);
    var m := |rest| - trail;
    if m > 0 {
      TakeAt(rest, m, m - 1);
    }
  }

  /** Position `k` below `m` is unchanged by taking the first `m`. */
  lemma TakeAt<T>(s: seq<T>, m: nat, k: nat)
    requires k < m <= |s|
    ensures s[..m][k] == s[k]
  {
  }

  /** Taking `m` after dropping `a` is the slice from `a` of length `m`. */
  lemma DropThenTake<T>(s: seq<T>, a: nat, m: nat)
    requires a + m <= |s|
    ensures s[a..][..m] == s[a..a + m]
  {
  }

  /** Position `k` of `s` is position `k - a` once the first `a` are dropped. */
  lemma DropAt<T>(s: seq<T>, a: nat, k: nat)
    requires a <= k < |s|
    ensures s[a..][k - a] == s[k]
  {
  }

  function UpperAscii(c: char): char {
    if 'a' <= c <= 'z' then (c as int - 32) as char else c
  }

  function LowerAscii(c: char): char {
    if 'A' <= c <= 'Z' then (c as int + 32) as char else c
  }

  /** Upper-casing, restricted to ASCII letters. */
  function Upper(s: string): (r: string)
    ensures |r| == |s|
    ensures forall i :: 0 <= i < |s| ==> !('a' <= r[i] <= 'z')
    ensures forall i :: 0 <= i < |s| ==> r[i] == s[i] || ('a' <= s[i] <= 'z' && r[i] == s[i] - 'a' + 'A')
  {
    seq(|s|, i requires 0 <= i < |s| => UpperAscii(s[i]))
  }

  /** `pat` occurs in `s` at position `i`, ignoring the case of ASCII letters. */
  predicate MatchesAt(s: string, pat: string, i: nat) {
    i + |pat| <= |s| && forall k :: 0 <= k < |pat| ==> LowerAscii(s[i + k]) == LowerAscii(pat[k])
  }

  function SearchFrom(s: string, pat: string, i: nat): (found: bool)
    requires i <= |s|
    ensures found <==> exists j :: i <= j && MatchesAt(s, pat, j)
    decreases |s| - i
  {
    if i + |pat| > |s| then false else MatchesAt(s, pat, i) || SearchFrom(s, pat, i + 1)
  }

  /**
   * Case-insensitive containment, for a pattern with no regular-expression
   * metacharacters.
   */
  function ContainsIgnoringCase(s: string, pat: string): (found: bool)
    ensures found <==> exists j :: MatchesAt(s, pat, j)
  {
    SearchFrom(s, pat, 0)
  }

}
