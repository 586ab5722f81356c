/** Decimal fractions (tag 4, section 3.4.4 of RFC 8949): exact change of scale, or refusal. */
module Exact {
  import opened Base
  import opened Values
  import opened Bignum

  function Pow10(k: nat): (r: nat)
    ensures r > 0
  {
    if k == 0 then 1 else 10 * Pow10(k - 1)
  }

  /** `10i128.checked_pow(k)` */
  function CheckedPow10(k: nat): Option<I128> {
    if IsI128(Pow10(k)) then Some(Pow10(k)) else None
  }

  /** `mantissa * 10^exponent` as the unscaled integer of a column with `scale` fractional digits. */
  function Rescale(mantissa: I128, exponent: int, scale: int): Outcome<I128> {
    var shift := exponent + scale;
    if shift >= 0 then
      match CheckedPow10(shift)
      case None => Refused
      case Some(factor) => if IsI128(mantissa * factor) then Ok(mantissa * factor) else Refused
    else
      match CheckedPow10(-shift)
      case None => Refused
      case Some(factor) =>
        if mantissa % factor != 0 then Refused else
          QuotientFits(mantissa, factor);
          Ok(TruncDiv(mantissa, factor))
  }

  lemma QuotientFits(m: I128, factor: int)
    requires factor > 0
    ensures IsI128(TruncDiv(m, factor))
  {
    QuotientBound(if m >= 0 then m else -(m as int), factor);
  }

  lemma QuotientBound(a: nat, f: int)
    requires f > 0
    ensures 0 <= a / f <= a
  {
    var q := a / f;
    assert a == f * q + a % f;
    NonNegative(f - 1, q);
    assert (f - 1) * q == f * q - q;
  }

  /** The mantissa and exponent of a tag-4 decimal fraction, or of the bare array a tagless format leaves of it. */
  function DecimalParts(v: Cbor): Option<(I128, int)> {
    var content := if v.Tag? && v.tag == 4 then v.inner else v;
    if !content.Array? || |content.items| != 2 then None else
      match FromValue(content.items[0])
      case None => None
      case Some(exponent) =>
        if !IsI32(exponent) then None else
          match FromValue(content.items[1])
          case None => None
          case Some(mantissa) => Some((mantissa, exponent))
  }

  /** A decimal fraction is an array of two integers, the exponent and the mantissa, under a tag 4 or no tag; the
      exponent must have 32 bits. Nothing else is one. */
  lemma FractionIff(v: Cbor, m: I128, e: int)
    ensures DecimalParts(v) == Some((m, e))
            <==> exists x, y ::
                   && (v == Array([x, y]) || v == Tag(4, Array([x, y])))
                   && FromValue(x) == Some(e) && -2_147_483_648 <= e <= 2_147_483_647 && FromValue(y) == Some(m)
  {
    hide FromValue;
    var content := if v.Tag? && v.tag == 4 then v.inner else v;
    if content.Array? && |content.items| == 2 {
      var x, y := content.items[0], content.items[1];
      assert content == Array([x, y]);
    }
  }

  // ---- What the integers denote ----

  /** 10^k as a rational number. */
  ghost function TenTo(k: int): (r: real)
    ensures r > 0.0
  {
    if k >= 0 then Pow10(k) as real else 1.0 / (Pow10(-k) as real)
  }

  /** `r * 10^-scale` and `mantissa * 10^exponent` are the same number. */
  ghost predicate SameNumber(mantissa: int, exponent: int, scale: int, r: int) {
    mantissa as real * TenTo(exponent) == r as real * TenTo(-scale)
  }

  lemma {:induction false} Pow10Sum(a: nat, b: nat)
    ensures Pow10(a + b) == Pow10(a) * Pow10(b)
  {
    if a > 0 {
      Pow10Sum(a - 1, b);
      assert Pow10(a + b) == 10 * (Pow10(a - 1) * Pow10(b));
    }
  }

  lemma {:induction false} Pow10Monotone(a: nat, b: nat)
    requires a <= b
    ensures Pow10(a) <= Pow10(b)
    decreases b
  {
    if a < b {
      Pow10Monotone(a, b - 1);
    }
  }

  lemma Pow10Around127()
    ensures Pow10(38) < TWO_127 < Pow10(39)
  {
    assert Pow10(8) == 100_000_000;
    Pow10Sum(8, 8);
    Pow10Sum(16, 16);
    Pow10Sum(32, 6);
    Pow10Sum(38, 1);
    assert Pow10(6) == 1_000_000;
  }

  /** 10^38 is the largest power of ten that 128 bits hold. */
  lemma CheckedPow10Range(k: nat)
    ensures CheckedPow10(k) == if k <= 38 then Some(Pow10(k)) else None
  {
    Pow10Around127();
    if k <= 38 {
      Pow10Monotone(k, 38);
    } else {
      Pow10Monotone(39, k);
    }
  }

  lemma TenToStep(a: int)
    ensures TenTo(a + 1) == 10.0 * TenTo(a)
  {
    if a < -1 {
      assert Pow10(-a) == 10 * Pow10(-a - 1);
      InverseOfTenTimes(Pow10(-a - 1) as real);
    }
  }

  lemma InverseOfTenTimes(p: real)
    requires p > 0.0
    ensures 10.0 * (1.0 / (10.0 * p)) == 1.0 / p
  {
  }

  lemma Regroup(t: real, p: real)
    ensures 10.0 * (t * p) == t * (10.0 * p)
  {
  }

  /** Powers of ten multiply by adding exponents. */
  lemma {:induction false} TenToSum(a: int, b: nat)
    ensures TenTo(a + b) == TenTo(a) * (Pow10(b) as real)
    decreases b
  {
    hide TenTo;
    if b > 0 {
      TenToSum(a, b - 1);
      TenToStep(a + b - 1);
      var p := Pow10(b - 1) as real;
      assert Pow10(b) as real == 10.0 * p;
      Regroup(TenTo(a), p);
    }
  }

  lemma IntProduct(m: int, f: int)
    ensures (m * f) as real == (m as real) * (f as real)
  {
  }

  /** The rational equation, cleared of fractions. */
  lemma SameNumberInteger(mantissa: int, exponent: int, scale: int, r: int)
    ensures var shift := exponent + scale;
            SameNumber(mantissa, exponent, scale, r)
            <==> if shift >= 0 then r == mantissa * Pow10(shift) else mantissa == r * Pow10(-shift)
  {
    hide TenTo, Pow10;
    var shift := exponent + scale;
    var m, n := mantissa as real, r as real;
    if shift >= 0 {
      TenToSum(-scale, shift);
      Cancel(m, Pow10(shift) as real, n, TenTo(-scale));
      IntProduct(mantissa, Pow10(shift));
    } else {
      TenToSum(exponent, -shift);
      Cancel(n, Pow10(-shift) as real, m, TenTo(exponent));
      IntProduct(r, Pow10(-shift));
    }
  }

  lemma Cancel(m: real, f: real, n: real, t: real)
    requires t > 0.0
    ensures m * (t * f) == n * t <==> m * f == n
  {
    assert m * (t * f) == (m * f) * t;
    if m * f != n {
      assert (m * f - n) * t != 0.0;
    }
  }

  lemma ExactQuotient(m: int, f: int, r: int)
    requires f > 0
    ensures m == r * f <==> m % f == 0 && r == TruncDiv(m, f)
  {
    if m % f == 0 {
      assert m == (m / f) * f;
      assert -m == -(m / f) * f;
      DivUnique(-m, f, -(m / f));
      if m == r * f {
        DivUnique(m, f, r);
      }
    } else if m == r * f {
      DivUnique(m, f, r);
    }
  }

  /** A result is the one integer that denotes the input exactly. A refusal means that no 128-bit integer does, except
      for a zero mantissa moved by more than 38 digits, which is refused although zero denotes it. */
  lemma RescaleExact(mantissa: I128, exponent: int, scale: int)
    ensures var r := Rescale(mantissa, exponent, scale);
            && (r.Ok? ==> SameNumber(mantissa, exponent, scale, r.value))
            && (r.Ok? <==> (exists n: I128 :: SameNumber(mantissa, exponent, scale, n))
                           && (mantissa == 0 ==> -38 <= exponent + scale <= 38))
            && (forall n: I128 | SameNumber(mantissa, exponent, scale, n) :: r.Ok? ==> n == r.value)
  {
    hide *;
    if exponent + scale >= 0 {
      ScaleUp(mantissa, exponent, scale);
    } else {
      ScaleDown(mantissa, exponent, scale);
    }
  }

  lemma ScaleUp(mantissa: I128, exponent: int, scale: int)
    requires exponent + scale >= 0
    ensures var r := Rescale(mantissa, exponent, scale);
            && (r.Ok? ==> SameNumber(mantissa, exponent, scale, r.value))
            && (r.Ok? <==> (exists n: I128 :: SameNumber(mantissa, exponent, scale, n))
                           && (mantissa == 0 ==> -38 <= exponent + scale <= 38))
            && (forall n: I128 | SameNumber(mantissa, exponent, scale, n) :: r.Ok? ==> n == r.value)
  {
    hide Pow10, CheckedPow10, SameNumber, TenTo;
    var shift := exponent + scale;
    var product := mantissa * Pow10(shift);
    forall n: int
      ensures SameNumber(mantissa, exponent, scale, n) <==> n == product
    {
      SameNumberInteger(mantissa, exponent, scale, n);
    }
    CheckedPow10Range(shift);
    if mantissa == 0 {
      assert product == 0;
      var zero: I128 := 0;
      assert SameNumber(mantissa, exponent, scale, zero);
    } else if shift > 38 {
      TooBig(mantissa, Pow10(shift), shift);
    } else if IsI128(product) {
      var n: I128 := product;
      assert SameNumber(mantissa, exponent, scale, n);
    }
  }

  lemma ScaleDown(mantissa: I128, exponent: int, scale: int)
    requires exponent + scale < 0
    ensures var r := Rescale(mantissa, exponent, scale);
            && (r.Ok? ==> SameNumber(mantissa, exponent, scale, r.value))
            && (r.Ok? <==> (exists n: I128 :: SameNumber(mantissa, exponent, scale, n))
                           && (mantissa == 0 ==> -38 <= exponent + scale <= 38))
            && (forall n: I128 | SameNumber(mantissa, exponent, scale, n) :: r.Ok? ==> n == r.value)
  {
    hide Pow10, CheckedPow10, SameNumber, TenTo, TruncDiv, Multiple;
    var shift := -exponent - scale;
    var factor := Pow10(shift);
    forall n: int
      ensures SameNumber(mantissa, exponent, scale, n) <==> Multiple(mantissa, n, factor)
    {
      MultipleOfPower(mantissa, exponent, scale, n);
    }
    CheckedPow10Range(shift);
    ScaledDownExact(mantissa, factor, shift);
    QuotientFits(mantissa, factor);
    if mantissa == 0 {
      ZeroDown(factor);
      var zero: I128 := 0;
      assert SameNumber(mantissa, exponent, scale, zero);
    } else if mantissa % factor == 0 && shift <= 38 {
      var n: I128 := TruncDiv(mantissa, factor);
      assert SameNumber(mantissa, exponent, scale, n);
    }
  }

  lemma MultipleOfPower(mantissa: int, exponent: int, scale: int, n: int)
    requires exponent + scale < 0
    ensures SameNumber(mantissa, exponent, scale, n) <==> Multiple(mantissa, n, Pow10(-exponent - scale))
  {
    hide Pow10, SameNumber;
    SameNumberInteger(mantissa, exponent, scale, n);
  }

  lemma ZeroDown(f: int)
    requires f > 0
    ensures 0 % f == 0 && TruncDiv(0, f) == 0 && Multiple(0, 0, f)
  {
  }

  lemma Factor(x: real, t: real)
    requires t > 0.0
    ensures x * t == 0.0 ==> x == 0.0
  {
  }

  /** At one scale, a number is denoted by one integer at most. */
  lemma OneNumber(mantissa: int, exponent: int, scale: int, a: int, b: int)
    ensures SameNumber(mantissa, exponent, scale, a) && SameNumber(mantissa, exponent, scale, b) ==> a == b
  {
    hide TenTo;
    Factor(a as real - b as real, TenTo(-scale));
    assert (a as real - b as real) * TenTo(-scale) == a as real * TenTo(-scale) - b as real * TenTo(-scale);
  }

  ghost predicate Multiple(m: int, n: int, f: int) {
    m == n * f
  }

  lemma ScaledDownExact(m: I128, f: int, k: nat)
    requires f == Pow10(k)
    ensures forall n: int :: Multiple(m, n, f) <==> m % f == 0 && n == TruncDiv(m, f)
    ensures k > 38 && m != 0 ==> forall n: I128 :: !Multiple(m, n, f)
  {
    forall n: int
      ensures Multiple(m, n, f) <==> m % f == 0 && n == TruncDiv(m, f)
    {
      ExactQuotient(m, f, n);
    }
    forall n: I128 | k > 38 && m != 0
      ensures !Multiple(m, n, f)
    {
      if n != 0 {
        TooBig(n, f, k);
      }
    }
  }

  lemma Grows(m: int, p: nat)
    ensures m > 0 ==> m * p >= p
    ensures m < 0 ==> m * p <= 0 - p
  {
    if m > 0 {
      NonNegative(m - 1, p);
      assert (m - 1) * p == m * p - p;
    } else if m < 0 {
      NonNegative(-m - 1, p);
      assert (-m - 1) * p == -(m * p) - p;
    }
  }

  lemma TooBig(m: int, p: int, k: nat)
    requires m != 0 && k > 38 && p == Pow10(k)
    ensures !IsI128(m * p)
  {
    Pow10Around127();
    Pow10Monotone(39, k);
    Grows(m, p);
  }

  /** The same scale on both sides changes nothing. */
  lemma RescaleSameScale(mantissa: I128, scale: int)
    ensures Rescale(mantissa, -scale, scale) == Ok(mantissa)
  {
    assert Pow10(0) == 1;
  }
}
