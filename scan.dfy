/**
 * Lexical building blocks shared by the two timestamp formatters: reading a
 * run of decimal digits the way Joda-Time's numeric field parsers do (greedy,
 * between a minimum and a maximum count), matching one literal character, and,
 * as their partner, rendering a number as zero-padded decimal text.
 */
module Scan {
  import opened Options

  predicate IsDigit(c: char) {
    '0' <= c <= '9'
  }

  predicate AllDigits(s: string) {
    forall k | 0 <= k < |s| :: IsDigit(s[k])
  }

  function Pow10(n: nat): (p: nat)
    ensures p >= 1
  {
    if n == 0 then 1 else 10 * Pow10(n - 1)
  }

  function DigitValue(c: char): (v: nat)
    requires IsDigit(c)
    ensures v <= 9
  {
    (c as int) - ('0' as int)
  }

  function DigitChar(v: nat): (c: char)
    requires v <= 9
    ensures IsDigit(c) && DigitValue(c) == v
  {
    (('0' as int) + v) as char
  }

  /** The number that a string of decimal digits denotes, most significant digit first. */
  function ValueOf(ds: string): (v: nat)
    requires AllDigits(ds)
    ensures v < Pow10(|ds|)
  {
    if ds == [] then 0 else 10 * ValueOf(ds[..|ds| - 1]) + DigitValue(ds[|ds| - 1])
  }

  /** Appending a digit shifts the value one decimal place and adds the digit. */
  lemma ValueOfPush(ds: string, c: char)
    requires AllDigits(ds) && IsDigit(c)
    ensures AllDigits(ds + [c]) && ValueOf(ds + [c]) == 10 * ValueOf(ds) + DigitValue(c)
  {
    assert (ds + [c])[..|ds|] == ds;
  }

  /** Digit strings of the same length denote the same number only when they are the same string. */
  lemma {:induction false} ValueOfInjective(x: string, y: string)
    requires AllDigits(x) && AllDigits(y) && |x| == |y| && ValueOf(x) == ValueOf(y)
    ensures x == y
  {
    if x != [] {
      var n := |x| - 1;
      assert x[..n] == y[..n] && x[n] == y[n] by {
        assert AllDigits(x[..n]) && AllDigits(y[..n]);
        LastDigit(ValueOf(x[..n]), DigitValue(x[n]), ValueOf(y[..n]), DigitValue(y[n]));
        ValueOfInjective(x[..n], y[..n]);
      }
      assert x == x[..n] + [x[n]] && y == y[..n] + [y[n]];
    }
  }

  /** A number's last decimal digit and the number before it are determined by the number. */
  lemma LastDigit(p: int, a: int, q: int, b: int)
    requires 0 <= a < 10 && 0 <= b < 10 && 10 * p + a == 10 * q + b
    ensures p == q && a == b
  {
  }

  /** The values of short digit strings, spelled out digit by digit. */
  lemma ValueOfTwo(a: char, b: char)
    requires IsDigit(a) && IsDigit(b)
    ensures ValueOf([a]) == DigitValue(a)
    ensures ValueOf([a, b]) == 10 * DigitValue(a) + DigitValue(b)
  {
    assert [a, b][..1] == [a];
    assert [a][..0] == [];
  }

  lemma ValueOfFour(a: char, b: char, c: char, d: char)
    requires IsDigit(a) && IsDigit(b) && IsDigit(c) && IsDigit(d)
    ensures ValueOf([a, b, c, d]) == 1000 * DigitValue(a) + 100 * DigitValue(b) + 10 * DigitValue(c) + DigitValue(d)
  {
    ValueOfTwo(a, b);
    assert [a, b, c][..2] == [a, b];
    assert [a, b, c, d][..3] == [a, b, c];
  }

  /** The length of the longest run of at most `max` digits at the start of `s`. */
  function DigitRun(s: string, max: nat): (n: nat)
    ensures n <= |s| && n <= max
    ensures AllDigits(s[..n])
    ensures n < |s| && n < max ==> !IsDigit(s[n])
  {
    if max == 0 || s == [] || !IsDigit(s[0]) then 0
    else
      var n := 1 + DigitRun(s[1..], max - 1);
      assert s[..n] == [s[0]] + s[1..][..n - 1];
      n
  }

  /** A run of digits read from the front of a text, and the text that follows it. */
  datatype Token = Token(digits: string, rest: string)

  /**
   * Reads a run of digits from the front of `s`: as many as there are, up to
   * `max`, and fails when there are fewer than `min`.
   */
  function Number(s: string, min: nat, max: nat): (r: Option<Token>)
    ensures r.Some? ==>
              s == r.value.digits + r.value.rest && AllDigits(r.value.digits)
              && min <= |r.value.digits| <= max
    // Greedy: a run shorter than `max` stops at a non-digit or at the end of the text.
    ensures r.Some? && |r.value.digits| < max ==> r.value.rest == [] || !IsDigit(r.value.rest[0])
  {
    var n := DigitRun(s, max);
    assert s == s[..n] + s[n..];
    if n < min then None else Some(Token(s[..n], s[n..]))
  }

  /** Matches the single character `c` at the front of `s`. */
  function Literal(s: string, c: char): (r: Option<string>)
    ensures r.Some? ==> s == [c] + r.value
    ensures r.None? ==> s == [] || s[0] != c
  {
    if |s| > 0 && s[0] == c then Some(s[1..]) else None
  }

  /** A greedy digit run stops exactly at the end of the digits that are put in front of `rest`. */
  lemma {:induction false} DigitRunOf(ds: string, rest: string, max: nat)
    requires AllDigits(ds) && |ds| <= max
    requires |ds| == max || rest == [] || !IsDigit(rest[0])
    ensures DigitRun(ds + rest, max) == |ds|
  {
    if ds != [] {
      assert (ds + rest)[1..] == ds[1..] + rest;
      DigitRunOf(ds[1..], rest, max - 1);
    }
  }

  /** Reading back a run of digits that is followed by a non-digit (or by nothing) gives its value and the rest. */
  lemma ReadNumber(ds: string, rest: string, min: nat, max: nat)
    requires AllDigits(ds) && min <= |ds| <= max
    requires |ds| == max || rest == [] || !IsDigit(rest[0])
    ensures Number(ds + rest, min, max) == Some(Token(ds, rest))
  {
    DigitRunOf(ds, rest, max);
    assert (ds + rest)[..|ds|] == ds;
    assert (ds + rest)[|ds|..] == rest;
  }

  lemma ReadLiteral(c: char, rest: string)
    ensures Literal([c] + rest, c) == Some(rest)
  {
    assert ([c] + rest)[1..] == rest;
  }

  /** The shortest decimal text of `n`. */
  function Decimal(n: nat): (s: string)
    ensures AllDigits(s) && 1 <= |s| && ValueOf(s) == n
  {
    if n < 10 then [DigitChar(n)]
    else
      var s := Decimal(n / 10) + [DigitChar(n % 10)];
      assert s[..|s| - 1] == Decimal(n / 10);
      s
  }

  lemma {:induction false} DecimalLength(n: nat, k: nat)
    requires 1 <= k && n < Pow10(k)
    ensures |Decimal(n)| <= k
  {
    if n >= 10 {
      DecimalLength(n / 10, k - 1);
    }
  }

  function Zeros(k: nat): (s: string)
    ensures |s| == k && AllDigits(s)
  {
    if k == 0 then [] else ['0'] + Zeros(k - 1)
  }

  lemma {:induction false} LeadingZero(ds: string)
    requires AllDigits(ds)
    ensures AllDigits(['0'] + ds) && ValueOf(['0'] + ds) == ValueOf(ds)
  {
    if ds != [] {
      var s := ['0'] + ds;
      assert s[..|s| - 1] == ['0'] + ds[..|ds| - 1];
      LeadingZero(ds[..|ds| - 1]);
    }
  }

  lemma {:induction false} LeadingZeros(k: nat, ds: string)
    requires AllDigits(ds)
    ensures AllDigits(Zeros(k) + ds) && ValueOf(Zeros(k) + ds) == ValueOf(ds)
  {
    if k == 0 {
      assert Zeros(k) + ds == ds;
    } else {
      LeadingZeros(k - 1, ds);
      assert Zeros(k) + ds == ['0'] + (Zeros(k - 1) + ds);
      LeadingZero(Zeros(k - 1) + ds);
    }
  }

  /** `n` in decimal, left-padded with zeros to at least `width` digits. */
  function Padded(n: nat, width: nat): (s: string)
    ensures AllDigits(s) && ValueOf(s) == n
    ensures |s| == if |Decimal(n)| < width then width else |Decimal(n)|
  {
    var d := Decimal(n);
    var s := Zeros(if |d| < width then width - |d| else 0) + d;
    LeadingZeros(if |d| < width then width - |d| else 0, d);
    s
  }

  /** A number below 10^width is padded to exactly `width` digits. */
  lemma PaddedWidth(n: nat, width: nat)
    requires 1 <= width && n < Pow10(width)
    ensures |Padded(n, width)| == width
  {
    DecimalLength(n, width);
  }
}
