/** Exact instants carried through MessagePack, whose timestamps hold whole nanoseconds. */
module InstantRoundTrip {
  import opened Base
  import opened Values
  import opened Bignum
  import opened Exact
  import opened Columns
  import opened Msgpack
  import opened ReadCells
  import opened RoundTrip

  /** The mantissa and exponent of a tag-1 content that is exact: a decimal fraction or an integer. */
  function ExactInstant(inner: Cbor): Option<(I128, int)> {
    match DecimalParts(inner)
    case Some(parts) => Some(parts)
    case None => if inner.Integer? then Some((inner.n, 0)) else None
  }

  ghost predicate WholeNanos(m: int, e: int) {
    exists t: int :: SameNumber(m, e, 9, t)
  }

  /** `t` nanoseconds are `m * 10^e` seconds, cut towards the epoch. */
  predicate CutNanos(m: int, e: int, t: int) {
    if e >= -9 then t == m * Pow10(e + 9)
    else
      var f := Pow10(-9 - e);
      if m >= 0 then t * f <= m < (t + 1) * f else (t - 1) * f < m <= t * f
  }

  lemma TruncBounds(m: int, f: int)
    requires f > 0
    ensures var t := TruncDiv(m, f); if m >= 0 then t * f <= m < (t + 1) * f else (t - 1) * f < m <= t * f
  {
    if m >= 0 {
      assert m == f * (m / f) + m % f;
    } else {
      assert -m == f * (-m / f) + -m % f;
    }
  }

  /** The nanosecond count is exact when any is, and otherwise cut. */
  lemma NanosExact(m: I128, e: int)
    requires TotalNanos(m, e).Some?
    ensures var total := TotalNanos(m, e).value;
            CutNanos(m, e, total) && (WholeNanos(m, e) <==> SameNumber(m, e, 9, total))
            && (WholeNanos(m, e) <==> e >= -9 || m % Pow10(-9 - e) == 0)
  {
    hide Pow10, SameNumber, TruncDiv, CheckedPow10;
    var total := TotalNanos(m, e).value;
    SameNumberInteger(m, e, 9, total);
    if e >= -9 {
      CheckedPow10Range(e + 9);
    } else {
      var f := Pow10(-9 - e);
      CheckedPow10Range(-9 - e);
      TruncBounds(m, f);
      ExactQuotient(m, f, total);
      if t: int :| SameNumber(m, e, 9, t) {
        SameNumberInteger(m, e, 9, t);
        ExactQuotient(m, f, t);
      }
    }
  }

  /** What an instant is accepted as: an exact one is cut to nanoseconds, when its exponent is from -47 to 29 and its
      seconds have 64 bits; a float is split by the platform; nothing else is an instant. */
  lemma InstantAccepted(pf: Platform, inner: Cbor, secs: I64, nanos: Nanos)
    ensures InstantParts(pf, inner) == Some((secs, nanos))
            <==> match ExactInstant(inner)
                 case Some((m, e)) => -47 <= e <= 29 && CutNanos(m, e, secs * 1_000_000_000 + nanos)
                 case None => inner.Float? && pf.instant(inner.f) == Some((secs, nanos))
  {
    hide Pow10, CutNanos, CheckedPow10, TotalNanos, SplitNanos, DecimalParts;
    match DecimalParts(inner)
    case Some(parts) => FractionAccepted(parts.0, parts.1, secs, nanos);
    case None =>
      if inner.Integer? {
        WholeSecond(inner.n);
        OneCut(inner.n, 0, inner.n * NANOS_PER_SEC, secs * NANOS_PER_SEC + nanos);
        if inner.n * NANOS_PER_SEC == secs * NANOS_PER_SEC + nanos {
          SplitTotal(inner.n, 0);
          SplitTotal(secs, nanos);
        }
      }
  }

  lemma FractionAccepted(m: I128, e: int, secs: I64, nanos: Nanos)
    ensures (TotalNanos(m, e).Some? && SplitNanos(TotalNanos(m, e).value) == Some((secs, nanos)))
            <==> -47 <= e <= 29 && CutNanos(m, e, secs * 1_000_000_000 + nanos)
  {
    hide Pow10, CutNanos, CheckedPow10, SplitNanos, TotalNanos;
    var total := secs * 1_000_000_000 + nanos;
    SplitTotal(secs, nanos);
    TotalAccepted(m, e, total);
    if TotalNanos(m, e).Some? {
      NanosExact(m, e);
      OneCut(m, e, TotalNanos(m, e).value, total);
      SplitIs(TotalNanos(m, e).value, secs, nanos);
    }
  }

  lemma SplitIs(total: I128, secs: I64, nanos: Nanos)
    ensures SplitNanos(total) == Some((secs, nanos)) <==> total == secs * 1_000_000_000 + nanos
  {
    SplitTotal(secs, nanos);
  }

  /** Whatever has a nanosecond count of 128 bits is accepted as one, within the powers of ten at hand. */
  lemma TotalAccepted(m: I128, e: int, total: I128)
    ensures TotalNanos(m, e).Some? ==> -47 <= e <= 29
    ensures -47 <= e <= 29 && CutNanos(m, e, total) ==> TotalNanos(m, e).Some?
  {
    hide Pow10;
    if e >= -9 {
      CheckedPow10Range(e + 9);
    } else {
      CheckedPow10Range(-9 - e);
    }
  }

  /** An instant is cut to one count. */
  lemma OneCut(m: int, e: int, s: int, t: int)
    requires CutNanos(m, e, s)
    ensures CutNanos(m, e, t) <==> s == t
  {
    hide Pow10;
    if e < -9 {
      OneQuotient(m, Pow10(-9 - e), s, t);
    }
  }

  lemma OneQuotient(m: int, f: int, s: int, t: int)
    requires f > 0
    requires if m >= 0 then s * f <= m < (s + 1) * f else (s - 1) * f < m <= s * f
    ensures (if m >= 0 then t * f <= m < (t + 1) * f else (t - 1) * f < m <= t * f) <==> s == t
  {
    if s < t {
      NonNegative(t - s - 1, f);
      assert (t - s - 1) * f == t * f - (s + 1) * f == (t - 1) * f - s * f;
    } else if t < s {
      NonNegative(s - t - 1, f);
      assert (s - t - 1) * f == s * f - (t + 1) * f == (s - 1) * f - t * f;
    }
  }

  /** All nanoseconds of an accepted instant. */
  function NanosOf(pf: Platform, inner: Cbor): int
    requires InstantParts(pf, inner).Some?
  {
    InstantParts(pf, inner).value.0 * NANOS_PER_SEC + InstantParts(pf, inner).value.1
  }

  lemma NanosOfExact(pf: Platform, inner: Cbor)
    requires ExactInstant(inner).Some? && InstantParts(pf, inner).Some?
    ensures var (m, e) := ExactInstant(inner).value;
            CutNanos(m, e, NanosOf(pf, inner)) && (WholeNanos(m, e) <==> SameNumber(m, e, 9, NanosOf(pf, inner)))
  {
    hide Pow10, SameNumber, TotalNanos, CutNanos, WholeNanos, DecimalParts;
    if DecimalParts(inner).Some? {
      var (m, e) := DecimalParts(inner).value;
      NanosExact(m, e);
      assert NanosOf(pf, inner) == TotalNanos(m, e).value;
    } else {
      WholeSecond(inner.n);
    }
  }

  lemma WholeSecond(n: int)
    ensures CutNanos(n, 0, n * NANOS_PER_SEC) && SameNumber(n, 0, 9, n * NANOS_PER_SEC) && WholeNanos(n, 0)
  {
    Pow10OfUnit(Second);
    SameNumberInteger(n, 0, 9, n * NANOS_PER_SEC);
  }

  /** What arrives is the instant cut to nanoseconds: the same instant exactly when it is a whole number of them. */
  lemma InstantArrives(pf: Platform, inner: Cbor)
    requires ExactInstant(inner).Some? && InstantParts(pf, inner).Some?
    ensures var (m, e) := ExactInstant(inner).value;
            var arrived := Carried(pf, Tag(1, inner));
            && arrived.Tag? && arrived.tag == 1 && ExactInstant(arrived.inner).Some?
            && var (m', e') := ExactInstant(arrived.inner).value;
               && (exists t: int :: SameNumber(m', e', 9, t) && CutNanos(m, e, t))
               && (SameNumber(m, e, -e', m') <==> WholeNanos(m, e))
  {
    hide Pow10, SameNumber, CutNanos, WholeNanos, ExactInstant, InstantParts, InstantContent;
    var (secs, nanos) := InstantParts(pf, inner).value;
    var (m, e) := ExactInstant(inner).value;
    CarriedInstant(pf, inner);
    NanosOfExact(pf, inner);
    ContentDenotes(m, e, secs, nanos);
  }

  lemma ContentDenotes(m: int, e: int, secs: I64, nanos: Nanos)
    ensures var content, total := InstantContent(secs, nanos), secs * NANOS_PER_SEC + nanos;
            && ExactInstant(content).Some?
            && var (m', e') := ExactInstant(content).value;
               SameNumber(m', e', 9, total) && (SameNumber(m, e, -e', m') <==> SameNumber(m, e, 9, total))
  {
    hide Pow10, SameNumber, FromValue, ToValue;
    if nanos == 0 {
      WholeSecond(secs);
      Pow10OfUnit(Second);
      Finer(m, e, 0, secs);
    } else {
      var total := secs * NANOS_PER_SEC + nanos;
      FractionParts(-9, total, true);
      SelfNumber(total);
    }
  }

  lemma SelfNumber(total: int)
    ensures SameNumber(total, -9, 9, total)
  {
  }

  /** The same number in nanoseconds. */
  lemma Finer(m: int, e: int, digits: nat, n: int)
    requires digits <= 9
    ensures SameNumber(m, e, digits, n) <==> SameNumber(m, e, 9, n * Pow10(9 - digits))
  {
    hide Pow10, TenTo;
    var p := Pow10(9 - digits);
    TenToSum(-9, 9 - digits);
    assert -9 + (9 - digits) == -(digits as int);
    IntProduct(n, p);
    Shift(n as real, p as real, TenTo(-9));
  }

  lemma Shift(n: real, p: real, t: real)
    ensures n * (t * p) == (n * p) * t
  {
  }

  /** A TIMESTAMP that is accepted before the trip is read the same after it; before the trip, an instant between two
      nanoseconds is refused in every unit. All other instants are read the same, accepted or not, but for a zero that
      is refused because of its exponent. */
  lemma InstantReadAfter(pf: Platform, inner: Cbor, unit: TimeUnit)
    requires ExactInstant(inner).Some? && InstantParts(pf, inner).Some?
    ensures var (m, e) := ExactInstant(inner).value;
            var before := TimestampAt(pf, Tag(1, inner), unit);
            var after := TimestampAt(pf, Carried(pf, Tag(1, inner)), unit);
            && (before.Ok? ==> WholeNanos(m, e) && after == before)
            && (WholeNanos(m, e) && (m == 0 ==> -38 <= e + Digits(unit) <= 38) ==> after == before)
  {
    hide TimestampAt, SameNumber, WholeNanos, ExactInstant, InstantParts, Carried, Pow10, Digits, CutNanos;
    var (m, e) := ExactInstant(inner).value;
    var before := TimestampAt(pf, Tag(1, inner), unit);
    var after := TimestampAt(pf, Carried(pf, Tag(1, inner)), unit);
    AtMostNine(unit);
    NanosOfExact(pf, inner);
    ReadExactly(pf, inner, unit);
    if before.Ok? {
      Finer(m, e, Digits(unit), before.value);
      Whole(m, e, before.value * Pow10(9 - Digits(unit)));
      OneNumber(m, e, 9, NanosOf(pf, inner), before.value * Pow10(9 - Digits(unit)));
      ArrivesRead(pf, inner, unit, before.value);
    } else if after.Ok? && WholeNanos(m, e) {
      NanosRead(pf, inner, unit, after.value);
      Finer(m, e, Digits(unit), after.value);
    }
  }

  lemma AtMostNine(unit: TimeUnit)
    ensures Digits(unit) <= 9
  {
  }

  lemma Whole(m: int, e: int, t: int)
    ensures SameNumber(m, e, 9, t) ==> WholeNanos(m, e)
  {
    hide SameNumber;
  }

  lemma ReadExactly(pf: Platform, inner: Cbor, unit: TimeUnit)
    requires ExactInstant(inner).Some?
    ensures var (m, e) := ExactInstant(inner).value;
            var r := TimestampAt(pf, Tag(1, inner), unit);
            && (r.Ok? ==> SameNumber(m, e, Digits(unit), r.value))
            && (forall n: I64 | SameNumber(m, e, Digits(unit), n) ::
                  (m == 0 ==> -38 <= e + Digits(unit) <= 38) ==> r.Ok?)
  {
    hide TimestampAt, SameNumber, Rescale;
    assert ExactParts(inner) == Some(ExactInstant(inner).value);
    ExactIsNotFloat(inner);
    assert Content(Tag(1, inner)) == Content(inner);
    TimestampExact(pf, Tag(1, inner), unit);
  }

  lemma ArrivesRead(pf: Platform, inner: Cbor, unit: TimeUnit, n: I64)
    requires InstantParts(pf, inner).Some? && Digits(unit) <= 9
    requires NanosOf(pf, inner) == n * Pow10(9 - Digits(unit))
    ensures TimestampAt(pf, Carried(pf, Tag(1, inner)), unit) == Ok(n)
  {
    hide InstantParts, Pow10, TimestampAt;
    var (secs, nanos) := InstantParts(pf, inner).value;
    CarriedInstant(pf, inner);
    InstantRead(pf, unit, n, secs, nanos);
  }

  /** A reading after the trip accounts for all the nanoseconds. */
  lemma NanosRead(pf: Platform, inner: Cbor, unit: TimeUnit, n: I64)
    requires InstantParts(pf, inner).Some? && Digits(unit) <= 9
    requires TimestampAt(pf, Carried(pf, Tag(1, inner)), unit) == Ok(n)
    ensures NanosOf(pf, inner) == n * Pow10(9 - Digits(unit))
  {
    hide InstantParts, Pow10, TimestampAt, SameNumber, ExactInstant, InstantContent;
    var (secs, nanos) := InstantParts(pf, inner).value;
    CarriedInstant(pf, inner);
    ContentDenotes(0, 0, secs, nanos);
    var content := InstantContent(secs, nanos);
    var (m, e) := ExactInstant(content).value;
    ReadExactly(pf, content, unit);
    Finer(m, e, Digits(unit), n);
    OneNumber(m, e, 9, NanosOf(pf, inner), n * Pow10(9 - Digits(unit)));
  }

  /** An instant of 1500 picoseconds is refused as a nanosecond TIMESTAMP, but accepted as one nanosecond after the
      trip. */
  lemma PicosecondsCut(pf: Platform)
    ensures var v := Tag(1, Tag(4, Array([Integer(-12), Integer(1_500)])));
            && ReadCell(pf, TimestampType(Nanosecond), v) == Refused
            && ReadCell(pf, TimestampType(Nanosecond), Carried(pf, v)) == Ok(NumCell(1))
  {
    var fraction := Tag(4, Array([Integer(-12), Integer(1_500)]));
    assert ExactInstant(fraction) == Some((1_500, -12));
    assert Pow10(3) == 1_000 && Pow10(0) == 1;
    CheckedPow10Range(3);
    assert TotalNanos(1_500, -12) == Some(1);
    assert InstantParts(pf, fraction) == Some((0, 1));
    hide InstantParts, ExactInstant, ToValue;
    CarriedInstant(pf, fraction);
    InstantRead(pf, Nanosecond, 1, 0, 1);
    InstantNotNull(0, 1);
  }
}
