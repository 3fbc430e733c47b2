/**
 * Decimal digits as Go's `time` package writes and reads the numeric fields
 * of a layout, and as `fmt.Sprintf("%d")` prints a counter.
 */
module Digits {

  predicate IsDigit(c: char) {
    '0' <= c <= '9'
  }

  predicate AllDigits(s: string) {
    forall i :: 0 <= i < |s| ==> IsDigit(s[i])
  }

  /** Every character is ASCII, so it is one byte in UTF-8. */
  predicate Ascii(s: string) {
    forall i :: 0 <= i < |s| ==> s[i] as int < 128
  }

  lemma AsciiConcat(a: string, b: string)
    requires Ascii(a) && Ascii(b)
    ensures Ascii(a + b)
  {
    forall i | 0 <= i < |a + b| ensures (a + b)[i] as int < 128 {
      if i >= |a| { assert (a + b)[i] == b[i - |a|]; }
    }
  }

  function DigitValue(c: char): (d: nat)
    requires IsDigit(c)
    ensures d < 10
  {
    c as int - '0' as int
  }

  function DigitChar(d: nat): (c: char)
    requires d < 10
    ensures IsDigit(c) && DigitValue(c) == d
  {
    ('0' as int + d) as char
  }

  function Pow10(k: nat): (p: nat)
    ensures p >= 1
  {
    if k == 0 then 1 else 10 * Pow10(k - 1)
  }

  /** The number a string of decimal digits denotes, most significant digit first. */
  function Value(s: string): nat
    requires AllDigits(s)
  {
    if s == [] then 0 else Value(s[..|s| - 1]) * 10 + DigitValue(s[|s| - 1])
  }

  /** The shortest decimal representation of `n`, as `%d` prints it. */
  function Decimal(n: nat): (s: string)
    ensures |s| >= 1 && AllDigits(s) && Value(s) == n
  {
    if n < 10 then [DigitChar(n)]
    else
      var s := Decimal(n / 10) + [DigitChar(n % 10)];
      assert s[..|s| - 1] == Decimal(n / 10);
      s
  }

  /** The last `w` decimal digits of `n`, zero-padded to exactly `w` characters. */
  function Fixed(n: nat, w: nat): (s: string)
    ensures |s| == w && AllDigits(s)
    ensures n < Pow10(w) ==> Value(s) == n
  {
    if w == 0 then []
    else
      var s := Fixed(n / 10, w - 1) + [DigitChar(n % 10)];
      assert s[..|s| - 1] == Fixed(n / 10, w - 1);
      s
  }

  /**
   * Go's `appendInt(b, n, w)` for a non-negative `n`: zero-padded to width
   * `w` when `n` has at most `w` digits, else all of its digits.
   */
  function Padded(n: nat, w: nat): (s: string)
    ensures AllDigits(s) && Value(s) == n && |s| >= w
    ensures |s| == w <==> n < Pow10(w)
  {
    if n < Pow10(w) then Fixed(n, w)
    else
      DecimalLong(n, w);
      Decimal(n)
  }

  /** A number of at least 10^w has more than `w` digits. */
  lemma {:induction false} DecimalLong(n: nat, w: nat)
    requires n >= Pow10(w)
    ensures |Decimal(n)| > w
  {
    if w > 0 {
      assert n / 10 >= Pow10(w - 1);
      DecimalLong(n / 10, w - 1);
    }
  }

  /** A digit string of length `w` denotes a number below 10^w. */
  lemma {:induction false} ValueBound(s: string)
    requires AllDigits(s)
    ensures Value(s) < Pow10(|s|)
  {
    if s != [] {
      ValueBound(s[..|s| - 1]);
    }
  }

  /** Writing back the value of a `w`-digit string with `Fixed` gives the string itself. */
  lemma {:induction false} FixedOfValue(s: string)
    requires AllDigits(s)
    ensures Fixed(Value(s), |s|) == s
  {
    if s != [] {
      var init := s[..|s| - 1];
      FixedOfValue(init);
      var v := Value(s);
      assert v / 10 == Value(init) && v % 10 == DigitValue(s[|s| - 1]);
      assert s == init + [s[|s| - 1]];
    }
  }

  /** Distinct numbers have distinct shortest representations. */
  lemma DecimalInjective(m: nat, n: nat)
    requires Decimal(m) == Decimal(n)
    ensures m == n
  {
    assert Value(Decimal(m)) == m && Value(Decimal(n)) == n;
  }
}
