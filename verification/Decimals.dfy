/**
 The extractor's comparison of decimal keys: coefficient and exponent, by the position of the
 most significant digit and then by padded digits, without forming 10^exponent.
 */
module Decimals {
  import opened Prelude

  type digit = d: int | 0 <= d < 10

  /** str(n) */
  function Digits(n: nat): (s: seq<digit>)
    ensures |s| > 0
  {
    if n < 10 then [n] else Digits(n / 10) + [n % 10]
  }

  /** int(s) */
  function FromDigits(s: seq<digit>): nat {
    if |s| == 0 then 0 else FromDigits(s[..|s| - 1]) * 10 + s[|s| - 1]
  }

  /** s.ljust(width, "0") */
  function PadRight(s: seq<digit>, width: nat): seq<digit> {
    if |s| < width then s + seq(width - |s|, _ => 0) else s
  }

  function Abs(n: int): nat { if n < 0 then -n else n }

  /** A zero has exponent zero; any other coefficient ends in a non-zero digit. */
  predicate Normalised(c: int, e: int) {
    (c == 0 ==> e == 0) && (c != 0 ==> c % 10 != 0)
  }

  function CompareMagnitude(a: nat, ea: int, b: nat, eb: int): int {
    var da, db := Digits(a), Digits(b);
    if |da| + ea != |db| + eb then Sign((|da| + ea) - (|db| + eb))
    else
      var width := Max(|da|, |db|);
      Sign(FromDigits(PadRight(da, width)) - FromDigits(PadRight(db, width)))
  }

  function Compare(c1: int, e1: int, c2: int, e2: int): int {
    var s1, s2 := Sign(c1), Sign(c2);
    if s1 != s2 || s1 == 0 then Sign(s1 - s2)
    else CompareMagnitude(Abs(c1), e1, Abs(c2), e2) * s1
  }

  // ----- Digits -----

  lemma {:induction false} DigitsBounds(n: nat)
    requires n > 0
    ensures Pow(10, |Digits(n)| - 1) <= n < Pow(10, |Digits(n)|)
  {
    if n >= 10 {
      DigitsBounds(n / 10);
      var k := |Digits(n / 10)|;
      assert Pow(10, k + 1) == 10 * Pow(10, k) && Pow(10, k) == 10 * Pow(10, k - 1);
    } else {
      assert Pow(10, 1) == 10;
    }
  }

  lemma {:induction false} FromDigitsRoundTrip(n: nat)
    ensures FromDigits(Digits(n)) == n
  {
    if n >= 10 {
      FromDigitsRoundTrip(n / 10);
      assert Digits(n)[..|Digits(n)| - 1] == Digits(n / 10);
    } else {
      assert FromDigits([n]) == FromDigits([]) * 10 + n;
    }
  }

  lemma {:induction false} FromDigitsZeros(s: seq<digit>, k: nat)
    ensures FromDigits(s + seq(k, _ => 0)) == FromDigits(s) * Pow(10, k)
  {
    var t := s + seq(k, _ => 0);
    if k == 0 {
      assert t == s;
    } else {
      FromDigitsZeros(s, k - 1);
      assert t[..|t| - 1] == s + seq(k - 1, _ => 0);
      assert Pow(10, k) == 10 * Pow(10, k - 1);
      assert FromDigits(s) * Pow(10, k - 1) * 10 == FromDigits(s) * Pow(10, k);
    }
  }

  lemma PaddedDigits(n: nat, width: nat)
    requires |Digits(n)| <= width
    ensures FromDigits(PadRight(Digits(n), width)) == n * Pow(10, width - |Digits(n)|)
  {
    FromDigitsRoundTrip(n);
    FromDigitsZeros(Digits(n), width - |Digits(n)|);
    if |Digits(n)| == width { assert Pow(10, 0) == 1; }
  }

  // ----- The comparison is the sign of the difference of the two numbers -----

  lemma SignScaled(x: nat, y: nat, p: nat)
    requires p > 0
    ensures Sign(x * p - y * p) == Sign(x - y)
  {
    if x > y {
      MulStrict(y, x, p);
    } else if x < y {
      MulStrict(x, y, p);
    }
  }

  /** Fewer leading positions means a smaller number. */
  lemma LowerPosition(a: nat, ea: int, b: nat, eb: int, m: int)
    requires a > 0 && b > 0 && m <= ea && m <= eb
    requires |Digits(a)| + ea < |Digits(b)| + eb
    ensures a * Pow(10, ea - m) < b * Pow(10, eb - m)
  {
    hide Pow, Digits;
    var la, lb := |Digits(a)|, |Digits(b)|;
    DigitsBounds(a);
    DigitsBounds(b);
    PowPositive(10, ea - m);
    PowAdd(10, la, ea - m);
    PowAdd(10, lb - 1, eb - m);
    PowMonotone(10, la + (ea - m), lb - 1 + (eb - m));
    MulStrict(a, Pow(10, la), Pow(10, ea - m));
    MulMonotone(Pow(10, lb - 1), b, Pow(10, eb - m));
  }

  /** Equal leading positions: padding to one width scales both numbers alike. */
  lemma EqualPosition(a: nat, ea: int, b: nat, eb: int, m: int)
    requires a > 0 && b > 0 && m <= ea && m <= eb
    requires |Digits(a)| + ea == |Digits(b)| + eb
    ensures CompareMagnitude(a, ea, b, eb) == Sign(a * Pow(10, ea - m) - b * Pow(10, eb - m))
  {
    hide Pow, Digits, FromDigits, PadRight;
    var la, lb := |Digits(a)|, |Digits(b)|;
    var width := Max(la, lb);
    var p := Min(ea, eb) - m;
    PaddedDigits(a, width);
    PaddedDigits(b, width);
    PowAdd(10, width - la, p);
    PowAdd(10, width - lb, p);
    PowPositive(10, p);
    MulAssociative(a, Pow(10, width - la), Pow(10, p));
    MulAssociative(b, Pow(10, width - lb), Pow(10, p));
    SignScaled(a * Pow(10, width - la), b * Pow(10, width - lb), Pow(10, p));
    assert width - la + p == ea - m && width - lb + p == eb - m;
  }

  lemma MagnitudeExact(a: nat, ea: int, b: nat, eb: int, m: int)
    requires a > 0 && b > 0 && m <= ea && m <= eb
    ensures CompareMagnitude(a, ea, b, eb) == Sign(a * Pow(10, ea - m) - b * Pow(10, eb - m))
  {
    hide Pow, Digits, FromDigits, PadRight;
    if |Digits(a)| + ea < |Digits(b)| + eb {
      LowerPosition(a, ea, b, eb, m);
    } else if |Digits(a)| + ea > |Digits(b)| + eb {
      LowerPosition(b, eb, a, ea, m);
    } else {
      EqualPosition(a, ea, b, eb, m);
    }
  }

  /**
   * The comparison orders c1·10^e1 and c2·10^e2 exactly, for coefficients and exponents of either
   * sign: both are multiplied by 10^-m for any m at or below both exponents.
   */
  lemma CompareExact(c1: int, e1: int, c2: int, e2: int, m: int)
    requires m <= e1 && m <= e2
    ensures Compare(c1, e1, c2, e2) == Sign(c1 * Pow(10, e1 - m) - c2 * Pow(10, e2 - m))
  {
    var p, q := Pow(10, e1 - m), Pow(10, e2 - m);
    PowPositive(10, e1 - m);
    PowPositive(10, e2 - m);
    SignProduct(c1, p);
    SignProduct(c2, q);
    if c1 != 0 && c2 != 0 {
      MagnitudeExact(Abs(c1), e1, Abs(c2), e2, m);
      assert (-c1) * p == -(c1 * p) && (-c2) * q == -(c2 * q);
    }
    hide Pow, CompareMagnitude;
  }

  lemma SignProduct(c: int, p: nat)
    requires p > 0
    ensures Sign(c * p) == Sign(c)
  {
    if c > 0 {
      MulAtLeast(c, p);
    } else if c < 0 {
      MulAtLeast(-c, p);
      assert c * p == -((-c) * p);
    }
  }

  // ----- Order laws -----

  lemma CompareAntisymmetric(c1: int, e1: int, c2: int, e2: int)
    ensures Compare(c2, e2, c1, e1) == -Compare(c1, e1, c2, e2)
  {
    var m := Min(e1, e2);
    CompareExact(c1, e1, c2, e2, m);
    CompareExact(c2, e2, c1, e1, m);
  }

  /** Normalised decimals compare equal only when they are written the same. */
  lemma CompareZero(c1: int, e1: int, c2: int, e2: int)
    requires Normalised(c1, e1) && Normalised(c2, e2) && Compare(c1, e1, c2, e2) == 0
    ensures c1 == c2 && e1 == e2
  {
    if e1 >= e2 {
      CompareZeroAbove(c1, e1, c2, e2);
    } else {
      CompareAntisymmetric(c1, e1, c2, e2);
      CompareZeroAbove(c2, e2, c1, e1);
    }
  }

  lemma TrailingZero(c: int, k: nat)
    requires k > 0
    ensures (c * Pow(10, k)) % 10 == 0 && (c * Pow(10, k) == 0 ==> c == 0)
  {
    PowPositive(10, k);
    SignProduct(c, Pow(10, k));
    var q := Pow(10, k - 1);
    assert c * Pow(10, k) == 10 * (c * q);
  }

  lemma CompareZeroAbove(c1: int, e1: int, c2: int, e2: int)
    requires e1 >= e2
    requires Normalised(c1, e1) && Normalised(c2, e2) && Compare(c1, e1, c2, e2) == 0
    ensures c1 == c2 && e1 == e2
  {
    CompareExact(c1, e1, c2, e2, e2);
    assert Pow(10, 0) == 1;
    if e1 > e2 { TrailingZero(c1, e1 - e2); }
  }

  lemma CompareTransitive(c1: int, e1: int, c2: int, e2: int, c3: int, e3: int)
    requires Compare(c1, e1, c2, e2) <= 0 && Compare(c2, e2, c3, e3) <= 0
    ensures Compare(c1, e1, c3, e3) == Min(Compare(c1, e1, c2, e2), Compare(c2, e2, c3, e3))
  {
    var m := Min(e1, Min(e2, e3));
    CompareExact(c1, e1, c2, e2, m);
    CompareExact(c2, e2, c3, e3, m);
    CompareExact(c1, e1, c3, e3, m);
    hide Compare, Pow;
  }

  // ----- Normal forms -----

  /** Every decimal has a normal form, the only one of its value by `CompareZero`. */
  lemma {:induction false} NormalForm(c: int, e: int) returns (c': int, e': int)
    ensures Normalised(c', e') && Compare(c, e, c', e') == 0
    decreases Abs(c)
  {
    if c == 0 {
      c', e' := 0, 0;
    } else if c % 10 != 0 {
      c', e' := c, e;
      CompareExact(c, e, c, e, e);
    } else {
      c', e' := NormalForm(c / 10, e + 1);
      CompareExact(c, e, c / 10, e + 1, e);
      assert Pow(10, 0) == 1 && Pow(10, 1) == 10;
      hide Compare, Pow;
      CompareTransitive(c, e, c / 10, e + 1, c', e');
    }
  }
}
