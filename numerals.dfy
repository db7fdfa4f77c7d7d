/** Decimal numerals: Python's `str(n)`, the `:04d` zero padding of the page file names,
    and `int(s)` on strings of ASCII digits. */
module Numerals {
  import opened Wrappers
  import opened Text

  predicate IsDigit(c: char) {
    '0' <= c <= '9'
  }

  predicate AllDigits(s: string) {
    forall i :: 0 <= i < |s| ==> IsDigit(s[i])
  }

  function DigitValue(c: char): (d: nat)
    requires IsDigit(c)
    ensures d < 10
  {
    c as int - '0' as int
  }

  function DigitChar(d: nat): (c: char)
    requires d < 10
    ensures IsDigit(c) && DigitValue(c) == d
  {
    ('0' as int + d) as char
  }

  /** The number a string of decimal digits denotes; leading zeros are allowed, as `int()` allows them. */
  function Value(s: string): nat
    requires AllDigits(s)
  {
    if |s| == 0 then 0 else 10 * Value(s[..|s| - 1]) + DigitValue(s[|s| - 1])
  }

  /** A canonical numeral: at least one digit, and no leading zero unless it is `0` itself. */
  predicate Canonical(s: string) {
    |s| >= 1 && AllDigits(s) && (|s| > 1 ==> s[0] != '0')
  }

  /** `str(n)` for a non-negative `n`. */
  function Decimal(n: nat): (r: string)
    ensures Canonical(r)
  {
    if n < 10 then [DigitChar(n)] else Decimal(n / 10) + [DigitChar(n % 10)]
  }

  /** `str` is a right inverse of the digit value: the numeral denotes `n`. */
  lemma {:induction false} ValueOfDecimal(n: nat)
    ensures Value(Decimal(n)) == n
  {
    if n >= 10 {
      ValueOfDecimal(n / 10);
      var r := Decimal(n);
      assert r[..|r| - 1] == Decimal(n / 10);
    }
  }

  lemma {:induction false} PositiveValue(s: string)
    requires |s| >= 1 && AllDigits(s) && s[0] != '0'
    ensures Value(s) >= 1
  {
    if |s| > 1 {
      PositiveValue(s[..|s| - 1]);
    }
  }

  /** ... and a left inverse on canonical numerals: every canonical numeral is `str` of its value. */
  lemma {:induction false} DecimalOfValue(s: string)
    requires Canonical(s)
    ensures Decimal(Value(s)) == s
  {
    var last := s[|s| - 1];
    if |s| == 1 {
      assert DigitChar(DigitValue(last)) == last;
      assert [last] == s;
    } else {
      var init := s[..|s| - 1];
      PositiveValue(init);
      DecimalOfValue(init);
      var v := Value(s);
      assert v / 10 == Value(init) && v % 10 == DigitValue(last);
      assert DigitChar(DigitValue(last)) == last;
      assert init + [last] == s;
    }
  }

  function Zeros(k: nat): (r: string)
    ensures |r| == k && forall i :: 0 <= i < k ==> r[i] == '0'
  {
    seq(k, _ => '0')
  }

  lemma {:induction false} LeadingZero(s: string)
    requires AllDigits(s)
    ensures AllDigits(['0'] + s) && Value(['0'] + s) == Value(s)
  {
    var t := ['0'] + s;
    if |s| > 0 {
      assert t[..|t| - 1] == ['0'] + s[..|s| - 1];
      LeadingZero(s[..|s| - 1]);
    }
  }

  /** Leading zeros do not change the value of a numeral. */
  lemma {:induction false} LeadingZeros(k: nat, s: string)
    requires AllDigits(s)
    ensures AllDigits(Zeros(k) + s) && Value(Zeros(k) + s) == Value(s)
  {
    if k == 0 {
      assert Zeros(k) + s == s;
    } else {
      LeadingZeros(k - 1, s);
      assert Zeros(k) + s == ['0'] + (Zeros(k - 1) + s);
      LeadingZero(Zeros(k - 1) + s);
    }
  }

  /** `f"{n:0{width}d}"` for a non-negative `n`: `str(n)` left-padded with zeros to at least
      `width` characters; a longer numeral is kept whole. */
  function Padded(n: nat, width: nat): (r: string)
    ensures AllDigits(r) && Value(r) == n
    ensures |r| == if |Decimal(n)| >= width then |Decimal(n)| else width
  {
    var d := Decimal(n);
    ValueOfDecimal(n);
    LeadingZeros(if |d| >= width then 0 else width - |d|, d);
    assert Zeros(0) + d == d;
    if |d| >= width then d else Zeros(width - |d|) + d
  }

  /** Python's `int(s)` in base 10, for optional surrounding whitespace around ASCII digits. */
  function PyInt(s: string): Option<nat> {
    var t := Strip(s);
    if |t| > 0 && AllDigits(t) then Some(Value(t)) else None
  }

  /** A non-empty string of digits is read by `int()` as its value. */
  lemma PyIntOfDigits(s: string)
    requires |s| >= 1 && AllDigits(s)
    ensures PyInt(s) == Some(Value(s))
  {
    assert !IsSpace(s[0]) && !IsSpace(s[|s| - 1]);
    StripUnchanged(s);
  }

  /** `int()` reads back what `str()` wrote. */
  lemma PyIntOfDecimal(n: nat)
    ensures PyInt(Decimal(n)) == Some(n)
  {
    ValueOfDecimal(n);
    PyIntOfDigits(Decimal(n));
  }

  /** `int()` reads back what `str()` wrote, and what the zero padding wrote. */
  lemma PyIntOfPadded(n: nat, width: nat)
    ensures PyInt(Decimal(n)) == Some(n)
    ensures PyInt(Padded(n, width)) == Some(n)
  {
    ValueOfDecimal(n);
    PyIntOfDigits(Decimal(n));
    PyIntOfDigits(Padded(n, width));
  }

  /** `int()` rejects the empty string, blank strings, and any token with a character other than
      a digit between its first and last non-blank character. */
  lemma PyIntRejects(s: string)
    requires Strip(s) == [] || exists i :: 0 <= i < |Strip(s)| && !IsDigit(Strip(s)[i])
    ensures PyInt(s) == None
  {
  }

  function Pow10(k: nat): (r: nat)
    ensures r >= 1
  {
    if k == 0 then 1 else 10 * Pow10(k - 1)
  }

  /** A numeral of `k` digits denotes less than `10^k`. */
  lemma {:induction false} ValueBelowPow(s: string)
    requires AllDigits(s)
    ensures Value(s) < Pow10(|s|)
  {
    if |s| > 0 {
      ValueBelowPow(s[..|s| - 1]);
    }
  }

  /** Reading a numeral from the front: the first digit weighs `10^(k-1)`. */
  lemma {:induction false} ValueFront(s: string)
    requires AllDigits(s) && |s| >= 1
    ensures Value(s) == DigitValue(s[0]) * Pow10(|s| - 1) + Value(s[1..])
  {
    var init := s[..|s| - 1];
    var last := DigitValue(s[|s| - 1]);
    if |s| == 1 {
      assert init == [];
    } else {
      ValueFront(init);
      assert init[0] == s[0];
      var tail := s[1..];
      assert tail[..|tail| - 1] == init[1..];
      assert Value(tail) == 10 * Value(init[1..]) + last;
      var d, w, v := DigitValue(s[0]), Pow10(|s| - 2), Value(init[1..]);
      assert Value(s) == 10 * (d * w + v) + last;
      Regroup(d, w, v, last);
      assert Pow10(|s| - 1) == 10 * w;
    }
  }

  lemma Regroup(d: int, w: int, v: int, last: int)
    ensures 10 * (d * w + v) + last == d * (10 * w) + (10 * v + last)
  {
  }

  /** `str(n)` has at most `k` digits when `n < 10^k`. */
  lemma {:induction false} DecimalWidth(n: nat, k: nat)
    requires k >= 1 && n < Pow10(k)
    ensures |Decimal(n)| <= k
  {
    if n >= 10 {
      DecimalWidth(n / 10, k - 1);
    }
  }
}
