/** The few string operations the service relies on, on strings as sequences of characters. */
module Text {

  predicate IsDigit(c: char) {
    '0' <= c <= '9'
  }

  function DigitChar(d: int): (c: char)
    requires 0 <= d < 10
    ensures IsDigit(c) && c as int - '0' as int == d
  {
    ('0' as int + d) as char
  }

  /** The value of a string of decimal digits. */
  function DigitsValue(s: string): nat
    requires forall i :: 0 <= i < |s| ==> IsDigit(s[i])
  {
    if s == [] then 0
    else
      var last := s[|s| - 1];
      assert IsDigit(last);
      DigitsValue(s[..|s| - 1]) * 10 + (last as int - '0' as int)
  }

  /** Python's str() of a non-negative int: decimal digits without leading zeros. */
  function Decimal(n: nat): (s: string)
    ensures |s| > 0 && (forall i :: 0 <= i < |s| ==> IsDigit(s[i]))
    ensures s[0] == '0' ==> s == "0"
  {
    if n < 10 then [DigitChar(n)] else Decimal(n / 10) + [DigitChar(n % 10)]
  }

  /** Reading the digits back gives the number. */
  lemma {:induction false} DecimalRoundTrip(n: nat)
    ensures DigitsValue(Decimal(n)) == n
  {
    if n >= 10 {
      DecimalRoundTrip(n / 10);
      var s := Decimal(n);
      assert s[..|s| - 1] == Decimal(n / 10);
    }
  }

  /** Different numbers are printed differently. */
  lemma DecimalInjective(m: nat, n: nat)
    requires Decimal(m) == Decimal(n)
    ensures m == n
  {
    DecimalRoundTrip(m);
    DecimalRoundTrip(n);
  }

  /** Python's str() of any int: the sign when negative, then the digits of the magnitude. */
  function IntText(i: int): (s: string)
    ensures |s| > 0
    ensures s[0] == '-' <==> i < 0
  {
    if i < 0 then "-" + Decimal(-i) else Decimal(i)
  }

  /** Reading the text back gives the int: the digits after any sign denote its magnitude. */
  lemma IntTextRoundTrip(i: int)
    ensures var s := IntText(i);
      && (i >= 0 ==> (forall k :: 0 <= k < |s| ==> IsDigit(s[k])) && DigitsValue(s) == i)
      && (i < 0 ==> (forall k :: 1 <= k < |s| ==> IsDigit(s[k])) && DigitsValue(s[1..]) == -i)
  {
    if i < 0 {
      DecimalRoundTrip(-i);
      assert IntText(i)[1..] == Decimal(-i);
    } else {
      DecimalRoundTrip(i);
    }
  }

  /** Different ints are printed differently. */
  lemma IntTextInjective(i: int, j: int)
    requires IntText(i) == IntText(j)
    ensures i == j
  {
    IntTextRoundTrip(i);
    IntTextRoundTrip(j);
  }

  /** sep.join(parts) */
  function Join(parts: seq<string>, sep: string): (s: string)
    ensures |parts| == 1 ==> s == parts[0]
  {
    if parts == [] then ""
    else if |parts| == 1 then parts[0]
    else Join(parts[..|parts| - 1], sep) + sep + parts[|parts| - 1]
  }

  /**
   * The join read from the front: the first part, one separator, then the join of
   * the rest, so neighbouring parts are separated by exactly one `sep`.
   */
  lemma {:induction false} JoinFirst(parts: seq<string>, sep: string)
    requires |parts| >= 2
    ensures Join(parts, sep) == parts[0] + sep + Join(parts[1..], sep)
  {
    var init, last := parts[..|parts| - 1], parts[|parts| - 1];
    var rest := parts[1..];
    assert rest[..|rest| - 1] == init[1..];
    if |parts| > 2 {
      JoinFirst(init, sep);
      calc {
        Join(parts, sep);
        Join(init, sep) + sep + last;
        (init[0] + sep + Join(init[1..], sep)) + sep + last;
        parts[0] + sep + (Join(init[1..], sep) + sep + last);
        parts[0] + sep + Join(rest, sep);
      }
    }
  }

  /** Indexing into a concatenation. */
  lemma AppendAt(s: string, t: string, i: int)
    ensures 0 <= i < |s| ==> (s + t)[i] == s[i]
    ensures |s| <= i < |s| + |t| ==> (s + t)[i] == t[i - |s|]
  {
  }

  /** Concatenation is associative. */
  lemma Assoc(a: string, b: string, c: string)
    ensures (a + b) + c == a + (b + c)
  {
  }

  /** Five pieces concatenated left to right, regrouped from the right. */
  lemma Regroup5(a: string, b: string, c: string, d: string, e: string)
    ensures a + b + c + d + e == a + (b + (c + (d + e)))
  {
    Assoc(a + b + c, d, e);
    Assoc(a + b, c, d + e);
    Assoc(a, b, c + (d + e));
  }

  /** Seven pieces concatenated left to right, regrouped from the right. */
  lemma Regroup7(a: string, b: string, c: string, d: string, e: string, f: string, g: string)
    ensures a + b + c + d + e + f + g == a + (b + (c + (d + (e + (f + g)))))
  {
    Assoc(a + b + c + d + e, f, g);
    Regroup5(a, b, c, d, e + (f + g));
    Assoc(a + b + c + d, e, f + g);
  }

  /** Removing a common prefix. */
  lemma StripPrefix(p: string, s: string, t: string)
    requires p + s == p + t
    ensures s == t
  {
    assert s == (p + s)[|p|..];
  }

  /** Removing a common suffix. */
  lemma StripSuffix(s: string, t: string, p: string)
    requires s + p == t + p
    ensures s == t
  {
    assert s == (s + p)[..|s|];
  }

  /**
   * A run of digits followed by a non-digit is read unambiguously: the digits end
   * exactly where the first non-digit begins.
   */
  lemma DigitsThenNonDigit(a: string, x: string, b: string, y: string)
    requires forall i :: 0 <= i < |a| ==> IsDigit(a[i])
    requires forall i :: 0 <= i < |b| ==> IsDigit(b[i])
    requires x != [] && !IsDigit(x[0]) && y != [] && !IsDigit(y[0])
    requires a + x == b + y
    ensures a == b && x == y
  {
    if |a| < |b| {
      AppendAt(a, x, |a|);
      AppendAt(b, y, |a|);
      assert false;
    } else if |b| < |a| {
      AppendAt(a, x, |b|);
      AppendAt(b, y, |b|);
      assert false;
    } else {
      assert a == (a + x)[..|a|] && b == (b + y)[..|b|];
      StripPrefix(a, x, y);
    }
  }

  /** A printed number followed by a separator that starts with a non-digit is read back unambiguously. */
  lemma LeadingNumber(m: nat, sep: string, x: string, n: nat, y: string)
    requires sep != [] && !IsDigit(sep[0])
    requires Decimal(m) + (sep + x) == Decimal(n) + (sep + y)
    ensures m == n && x == y
  {
    assert (sep + x)[0] == sep[0] && (sep + y)[0] == sep[0];
    DigitsThenNonDigit(Decimal(m), sep + x, Decimal(n), sep + y);
    DecimalInjective(m, n);
    StripPrefix(sep, x, y);
  }

  /** The same, reading a trailing run of digits from the end. */
  lemma NonDigitThenDigits(x: string, a: string, y: string, b: string)
    requires forall i :: 0 <= i < |a| ==> IsDigit(a[i])
    requires forall i :: 0 <= i < |b| ==> IsDigit(b[i])
    requires x != [] && !IsDigit(x[|x| - 1]) && y != [] && !IsDigit(y[|y| - 1])
    requires x + a == y + b
    ensures a == b && x == y
  {
    var n := |x + a|;
    if |a| < |b| {
      AppendAt(x, a, n - 1 - |a|);
      AppendAt(y, b, n - 1 - |a|);
      assert false;
    } else if |b| < |a| {
      AppendAt(x, a, n - 1 - |b|);
      AppendAt(y, b, n - 1 - |b|);
      assert false;
    } else {
      assert a == (x + a)[|x|..] && b == (y + b)[|y|..];
      StripSuffix(x, y, a);
    }
  }

  /** ASCII lower-casing of one character; every other character is unchanged. */
  function LowerChar(c: char): char {
    if 'A' <= c <= 'Z' then (c as int - 'A' as int + 'a' as int) as char else c
  }

  /** str.lower(), restricted to ASCII letters. */
  function Lower(s: string): string {
    seq(|s|, i requires 0 <= i < |s| => LowerChar(s[i]))
  }

  /** str.endswith(suffix) */
  predicate EndsWith(s: string, suffix: string) {
    |suffix| <= |s| && s[|s| - |suffix|..] == suffix
  }

  /** Lower-casing commutes with taking a suffix. */
  lemma LowerSuffix(s: string, k: nat)
    requires k <= |s|
    ensures Lower(s)[k..] == Lower(s[k..])
  {
    var a, b := Lower(s)[k..], Lower(s[k..]);
    forall i | 0 <= i < |a|
      ensures a[i] == b[i]
    {
      assert a[i] == LowerChar(s[k + i]);
      assert s[k..][i] == s[k + i];
    }
    assert a == b;
  }
}
