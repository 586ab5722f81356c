/** Instants: the reserved MessagePack timestamp payload in its three layouts, and the civil date of an epoch second. */
module Instant {
  import opened Base
  import opened Values

  const TWO_34: int := 0x4_0000_0000
  const U32_WIDTH: nat := 4
  const U64_WIDTH: nat := 8

  /** The signed 64-bit word of eight big-endian bytes, and back. */
  function SignedWord(n: I64): U64 {
    if n >= 0 then n else n + TWO_64
  }

  function FromSignedWord(w: U64): I64 {
    if w < TWO_63 then w else w - TWO_64
  }

  /** `encode_timestamp`: the narrowest layout that holds the instant. */
  function EncodeTimestamp(secs: I64, nanos: Nanos): Bytes {
    if nanos == 0 && 0 <= secs < TWO_32 then BE(secs, U32_WIDTH)
    else if 0 <= secs < TWO_34 then BE(nanos * TWO_34 + secs, U64_WIDTH)
    else BE(nanos, U32_WIDTH) + BE(SignedWord(secs), U64_WIDTH)
  }

  /** `decode_timestamp`: the layout is told by the length; a foreign payload may carry any 32-bit nanosecond count. */
  function DecodeTimestamp(data: Bytes): (r: Option<(I64, int)>)
    ensures r.Some? ==> 0 <= r.value.1 < TWO_32
  {
    WordBounds(data);
    if |data| == 4 then Some((FromBE(data), 0))
    else if |data| == 8 then
      var v := FromBE(data);
      Some((v % TWO_34, v / TWO_34))
    else if |data| == 12 then
      WordBounds(data[..4]);
      WordBounds(data[4..]);
      Some((FromSignedWord(FromBE(data[4..])), FromBE(data[..4])))
    else None
  }

  lemma WordBounds(data: Bytes)
    ensures |data| == 4 ==> FromBE(data) < TWO_32
    ensures |data| == 8 ==> FromBE(data) < TWO_64
  {
    Pow256Values();
  }

  /** Decoding an encoded instant gives the instant back, for every second and nanosecond count. */
  lemma TimestampRoundTrip(secs: I64, nanos: Nanos)
    ensures DecodeTimestamp(EncodeTimestamp(secs, nanos)) == Some((secs, nanos))
  {
    Pow256Values();
    if nanos == 0 && 0 <= secs < TWO_32 {
      FromBEofBE(secs, U32_WIDTH);
    } else if 0 <= secs < TWO_34 {
      FromBEofBE(nanos * TWO_34 + secs, U64_WIDTH);
    } else {
      var data := EncodeTimestamp(secs, nanos);
      FromBEofBE(nanos, U32_WIDTH);
      FromBEofBE(SignedWord(secs), U64_WIDTH);
      assert data[..4] == BE(nanos, U32_WIDTH) && data[4..] == BE(SignedWord(secs), U64_WIDTH);
    }
  }

  /** No payload that denotes the instant is shorter than the one chosen. */
  lemma TimestampShortest(secs: I64, nanos: Nanos, other: Bytes)
    requires DecodeTimestamp(other) == Some((secs, nanos))
    ensures |EncodeTimestamp(secs, nanos)| <= |other|
  {
    WordBounds(other);
  }

  /** The layouts of any payload, a foreign one included: four bytes of seconds; a 30-bit count of nanoseconds above 34
      bits of seconds; or four bytes of nanoseconds before eight of seconds, in two's complement. */
  lemma TimestampLayouts(data: Bytes)
    ensures DecodeTimestamp(data).Some? <==> |data| == 4 || |data| == 8 || |data| == 12
    ensures |data| == 4 ==> DecodeTimestamp(data) == Some((FromBE(data), 0))
    ensures |data| == 8 ==> var (secs, nanos) := DecodeTimestamp(data).value;
                            0 <= secs < 17_179_869_184 && FromBE(data) == nanos * 17_179_869_184 + secs
    ensures |data| == 12 ==> var (secs, nanos) := DecodeTimestamp(data).value;
                             && nanos == FromBE(data[..4])
                             && (FromBE(data[4..]) - secs) % 18_446_744_073_709_551_616 == 0
  {
    hide FromBE;
    WordBounds(data);
    if |data| == 12 {
      WordBounds(data[4..]);
    }
  }

  /** The layout an instant is written in. */
  lemma TimestampWidth(secs: I64, nanos: Nanos)
    ensures |EncodeTimestamp(secs, nanos)| == if nanos == 0 && 0 <= secs <= 4_294_967_295 then 4
                                              else if 0 <= secs < 17_179_869_184 then 8
                                              else 12
  {
    hide BE;
  }

  // ---- Civil date ----

  datatype Civil = Civil(year: int, month: int, day: int, hour: int, minute: int, second: int)

  const SECS_PER_DAY: int := 86_400
  const DAYS_PER_ERA: int := 146_097

  /** The date arithmetic of `rfc3339`: years start in March, and an era is 400 years. */
  function CivilFromSeconds(secs: int): Civil {
    var days := secs / SECS_PER_DAY;
    var rem := secs % SECS_PER_DAY;
    var z := days + 719_468;
    var era := z / DAYS_PER_ERA;
    var doe := z % DAYS_PER_ERA;
    var yoe := YearOfEra(doe);
    var y := yoe + era * 400;
    var doy := doe - YearStart(yoe);
    var mp := (5 * doy + 2) / 153;
    var d := doy - (153 * mp + 2) / 5 + 1;
    var m := if mp < 10 then mp + 3 else mp - 9;
    Civil(if m <= 2 then y + 1 else y, m, d, rem / 3600, rem % 3600 / 60, rem % 60)
  }

  function YearOfEra(doe: int): int {
    (doe - doe / 1460 + doe / 36_524 - doe / 146_096) / 365
  }

  function YearStart(yoe: int): int {
    365 * yoe + yoe / 4 - yoe / 100
  }

  // ---- The calendar, independently ----

  predicate IsLeap(year: int) {
    year % 4 == 0 && (year % 100 != 0 || year % 400 == 0)
  }

  function DaysInMonth(year: int, month: int): int {
    if month == 2 then (if IsLeap(year) then 29 else 28)
    else if month == 4 || month == 6 || month == 9 || month == 11 then 30
    else 31
  }

  predicate ValidCivil(c: Civil) {
    && 1 <= c.month <= 12
    && 1 <= c.day <= DaysInMonth(c.year, c.month)
    && 0 <= c.hour < 24 && 0 <= c.minute < 60 && 0 <= c.second < 60
  }

  /** Days in the months of `year` before `month`. */
  function DaysBeforeMonth(year: int, month: int): int
    decreases month
  {
    if month <= 1 then 0 else DaysBeforeMonth(year, month - 1) + DaysInMonth(year, month - 1)
  }

  /** Days from the start of year 0 to the start of `year`, counting each year's length. */
  function DaysBeforeYear(year: int): int
    decreases if year >= 0 then year else -year
  {
    if year == 0 then 0
    else if year > 0 then DaysBeforeYear(year - 1) + YearLength(year - 1)
    else DaysBeforeYear(year + 1) - YearLength(year)
  }

  function YearLength(year: int): int {
    if IsLeap(year) then 366 else 365
  }

  /** Seconds since 1970-01-01T00:00:00 by counting calendar days. */
  function SecondsFromCivil(c: Civil): int {
    var days := DaysBeforeYear(c.year) - DaysBeforeYear(1970) + DaysBeforeMonth(c.year, c.month) + c.day - 1;
    ((days * 24 + c.hour) * 60 + c.minute) * 60 + c.second
  }

  /** The number of leap days before a year, in closed form. */
  lemma {:induction false} DaysBeforeYearClosed(year: int)
    ensures DaysBeforeYear(year) == 365 * year + (year + 3) / 4 - (year + 99) / 100 + (year + 399) / 400
    decreases if year >= 0 then year else -year
  {
    hide YearLength;
    if year > 0 {
      DaysBeforeYearClosed(year - 1);
      LeapDays(year - 1);
    } else if year < 0 {
      DaysBeforeYearClosed(year + 1);
      LeapDays(year);
    }
  }

  lemma LeapDays(year: int)
    ensures YearLength(year) == 365
            + ((year + 4) / 4 - (year + 3) / 4) - ((year + 100) / 100 - (year + 99) / 100)
            + ((year + 400) / 400 - (year + 399) / 400)
  {
    Ceiling4(year);
    Ceiling100(year);
    Ceiling400(year);
  }

  lemma Ceiling4(n: int)
    ensures (n + 4) / 4 == n / 4 + 1
    ensures (n + 3) / 4 == n / 4 + (if n % 4 == 0 then 0 else 1)
  {
  }

  lemma Ceiling100(n: int)
    ensures (n + 100) / 100 == n / 100 + 1
    ensures (n + 99) / 100 == n / 100 + (if n % 100 == 0 then 0 else 1)
    ensures n % 100 == 0 ==> n % 4 == 0
  {
    hide *;
    var h, r := n / 100, n % 100;
    assert n == 100 * h + r;
    assert (n + 100) / 100 == h + 1;
    assert (n + 99) / 100 == if r == 0 then h else h + 1;
    if r == 0 {
      DivUnique(n, 4, 25 * h);
    }
  }

  lemma Ceiling400(n: int)
    ensures (n + 400) / 400 == n / 400 + 1
    ensures (n + 399) / 400 == n / 400 + (if n % 400 == 0 then 0 else 1)
    ensures n % 400 == 0 ==> n % 100 == 0
  {
    hide *;
    var h, r := n / 400, n % 400;
    assert n == 400 * h + r;
    assert (n + 400) / 400 == h + 1;
    assert (n + 399) / 400 == if r == 0 then h else h + 1;
    if r == 0 {
      DivUnique(n, 100, 4 * h);
    }
  }

  lemma DaysBeforeMonthClosed(year: int, month: int)
    requires 1 <= month <= 12
    ensures DaysBeforeMonth(year, month)
            == var mp := if month > 2 then month - 3 else month + 9;
               if month > 2 then (153 * mp + 2) / 5 + 59 + (if IsLeap(year) then 1 else 0)
               else (153 * mp + 2) / 5 - 306
  {
    assert DaysBeforeMonth(year, 1) == 0;
    assert DaysBeforeMonth(year, 2) == 31;
    assert DaysBeforeMonth(year, 3) == 59 + (if IsLeap(year) then 1 else 0);
    assert DaysBeforeMonth(year, 4) == DaysBeforeMonth(year, 3) + 31;
    assert DaysBeforeMonth(year, 5) == DaysBeforeMonth(year, 3) + 61;
    assert DaysBeforeMonth(year, 6) == DaysBeforeMonth(year, 3) + 92;
    assert DaysBeforeMonth(year, 7) == DaysBeforeMonth(year, 3) + 122;
    assert DaysBeforeMonth(year, 8) == DaysBeforeMonth(year, 3) + 153;
    assert DaysBeforeMonth(year, 9) == DaysBeforeMonth(year, 3) + 184;
    assert DaysBeforeMonth(year, 10) == DaysBeforeMonth(year, 3) + 214;
    assert DaysBeforeMonth(year, 11) == DaysBeforeMonth(year, 3) + 245;
    assert DaysBeforeMonth(year, 12) == DaysBeforeMonth(year, 3) + 275;
  }

  /** The year of the era is the one whose days contain the day of the era. */
  lemma YearOfEraCorrect(doe: int)
    requires 0 <= doe < DAYS_PER_ERA
    ensures 0 <= YearOfEra(doe) < 400
    ensures var yoe := YearOfEra(doe);
            0 <= doe - YearStart(yoe)
            && doe - YearStart(yoe) < (if IsLeap(yoe + 1) then 366 else 365)
  {
    hide *;
    var c, q, a := EraDigits(doe);
    YearOfEraParts(doe, c, q, a);
    YearOfDigits(c, q, a);
  }

  /** Centuries of 36524 days, four-year spans of 1461 days and years of 365 days. */
  lemma EraDigits(doe: int) returns (c: int, q: int, a: int)
    requires 0 <= doe < DAYS_PER_ERA
    ensures 0 <= c < 4 && 0 <= q < 25 && 0 <= a < 4
    ensures var day := doe - 36_524 * c - 1461 * q - 365 * a;
            0 <= day <= (if a == 3 && (q < 24 || c == 3) then 365 else 364)
  {
    c := if doe == 146_096 then 3 else doe / 36_524;
    var inCentury := doe - 36_524 * c;
    q := if inCentury == 36_524 then 24 else inCentury / 1461;
    var inSpan := inCentury - 1461 * q;
    a := if inSpan == 1460 then 3 else inSpan / 365;
  }

  lemma YearOfDigits(c: int, q: int, a: int)
    requires 0 <= c < 4 && 0 <= q < 25 && 0 <= a < 4
    ensures YearStart(100 * c + 4 * q + a) == 36_524 * c + 1461 * q + 365 * a
    ensures IsLeap(100 * c + 4 * q + a + 1) <==> a == 3 && (q < 24 || c == 3)
  {
    var y := 100 * c + 4 * q + a;
    assert y / 4 == 25 * c + q && y / 100 == c;
    assert (y + 1) % 4 == (a + 1) % 4;
    assert a == 3 ==> (y + 1) / 4 == 25 * c + q + 1;
  }

  lemma YearOfEraParts(doe: int, c: int, q: int, a: int)
    requires 0 <= c < 4 && 0 <= q < 25 && 0 <= a < 4
    requires 0 <= doe < DAYS_PER_ERA
    requires var day := doe - 36_524 * c - 1461 * q - 365 * a;
             0 <= day <= (if a == 3 && (q < 24 || c == 3) then 365 else 364)
    ensures YearOfEra(doe) == 100 * c + 4 * q + a
  {
    var k, day := 25 * c + q, doe - 36_524 * c - 1461 * q - 365 * a;
    Quotient1460(doe, k, 24 * c + q + 365 * a + day, day);
    CenturyOf(doe, c);
    assert doe == 365 * (100 * c + 4 * q + a) + 24 * c + q + day;
  }

  lemma Quotient1460(n: int, k: int, r: int, day: int)
    requires n == 1460 * k + r && 0 <= r <= 1556 && 0 <= day <= 365
    requires r < 1460 * (day + 1) && (day == 365 ==> r >= 1460)
    ensures k + day - 364 <= n / 1460 <= k + day
  {
    var w := n / 1460;
    assert 1460 * w <= n < 1460 * w + 1460;
  }

  lemma CenturyOf(n: int, c: int)
    requires 0 <= c < 4 && 36_524 * c <= n <= 36_524 * (c + 1) && n < DAYS_PER_ERA
    requires n == 36_524 * (c + 1) ==> c == 3
    ensures n / 36_524 - n / 146_096 == c
  {
  }

  /** The month formula splits a March-based day of the year into a month and a day of it. */
  lemma MonthSplit(doy: int)
    requires 0 <= doy <= 365
    ensures var mp := (5 * doy + 2) / 153;
            var d := doy - (153 * mp + 2) / 5 + 1;
            var m := if mp < 10 then mp + 3 else mp - 9;
            && 0 <= mp < 12 && 1 <= d
            && (m != 2 ==> forall year :: d <= DaysInMonth(year, m))
            && (m == 2 ==> d <= 29 && (doy <= 364 ==> d <= 28))
  {
    var mp := (5 * doy + 2) / 153;
    assert 153 * mp <= 5 * doy + 2 < 153 * mp + 153;
    assert mp < 12;
    MonthEnd(mp, doy);
  }

  lemma MonthEnd(mp: int, doy: int)
    requires 0 <= mp < 12
    requires 153 * mp <= 5 * doy + 2 < 153 * mp + 153
    ensures (153 * mp + 2) / 5 <= doy < (153 * (mp + 1) + 2) / 5
  {
  }

  /** Years of the era and years of the calendar have the same leap days. */
  lemma EraShift(yoe: int, era: int)
    ensures var y := yoe + era * 400;
            && y / 4 == yoe / 4 + 100 * era && y / 100 == yoe / 100 + 4 * era
            && (0 <= yoe < 400 ==> y / 400 == era)
            && IsLeap(y + 1) == IsLeap(yoe + 1)
  {
    var y := yoe + era * 400;
    Shift4(yoe, era);
    Shift4(yoe + 1, era);
    Shift100(yoe, era);
    Shift100(yoe + 1, era);
    Shift400(yoe + 1, era);
    Shift400(yoe, era);
  }

  lemma Shift4(n: int, era: int)
    ensures (n + era * 400) / 4 == n / 4 + 100 * era && (n + era * 400) % 4 == n % 4
  {
  }

  lemma Shift100(n: int, era: int)
    ensures (n + era * 400) / 100 == n / 100 + 4 * era && (n + era * 400) % 100 == n % 100
  {
  }

  lemma Shift400(n: int, era: int)
    ensures (n + era * 400) / 400 == n / 400 + era && (n + era * 400) % 400 == n % 400
  {
  }

  /** Days before January or March of a year, from its leap-day counts. */
  lemma YearBoundary(y: int)
    ensures DaysBeforeYear(y) + 59 + (if IsLeap(y) then 1 else 0) == 365 * y + y / 4 - y / 100 + y / 400 + 60
    ensures DaysBeforeYear(y + 1) == 365 * y + y / 4 - y / 100 + y / 400 + 366
  {
    hide DaysBeforeYear;
    DaysBeforeYearClosed(y);
    DaysBeforeYearClosed(y + 1);
    Ceiling4(y);
    Ceiling100(y);
    Ceiling400(y);
  }

  /** For every epoch second the computed fields are a valid proleptic Gregorian date-time, and counting its calendar
      days and its clock gives the same second back; so no two seconds share a date-time. */
  lemma CivilCorrect(secs: int)
    ensures ValidCivil(CivilFromSeconds(secs))
    ensures SecondsFromCivil(CivilFromSeconds(secs)) == secs
  {
    hide DaysBeforeYear, DaysBeforeMonth, YearOfEra, YearStart;
    var days, rem := secs / SECS_PER_DAY, secs % SECS_PER_DAY;
    var z := days + 719_468;
    var era, doe := z / DAYS_PER_ERA, z % DAYS_PER_ERA;
    YearOfEraCorrect(doe);
    var yoe := YearOfEra(doe);
    var y, doy := yoe + era * 400, doe - YearStart(yoe);
    EraShift(yoe, era);
    MonthSplit(doy);
    var c := CivilFromSeconds(secs);
    ClockCorrect(rem);
    CivilDays(yoe, era, doy, c);
  }

  lemma ClockCorrect(rem: int)
    requires 0 <= rem < SECS_PER_DAY
    ensures 0 <= rem / 3600 < 24 && 0 <= rem % 3600 / 60 < 60
    ensures (rem / 3600 * 60 + rem % 3600 / 60) * 60 + rem % 60 == rem
  {
    var r := rem % 3600;
    assert rem == 3600 * (rem / 3600) + r;
    assert r == 60 * (r / 60) + r % 60;
    assert rem % 60 == r % 60;
  }

  lemma CivilDays(yoe: int, era: int, doy: int, c: Civil)
    requires 0 <= yoe < 400 && 0 <= doy <= 365
    requires var mp := (5 * doy + 2) / 153;
             && 0 <= mp < 12
             && c.month == (if mp < 10 then mp + 3 else mp - 9)
             && c.day == doy - (153 * mp + 2) / 5 + 1
    requires c.year == yoe + era * 400 + (if c.month <= 2 then 1 else 0)
    ensures DaysBeforeYear(c.year) - DaysBeforeYear(1970) + DaysBeforeMonth(c.year, c.month) + c.day - 1
            == era * DAYS_PER_ERA + YearStart(yoe) + doy - 719_468
  {
    hide DaysBeforeYear, DaysBeforeMonth;
    var y := yoe + era * 400;
    EraShift(yoe, era);
    YearBoundary(y);
    DaysBeforeYearClosed(1970);
    DaysBeforeMonthClosed(c.year, c.month);
  }

  /** Distinct seconds have distinct date-times. */
  lemma CivilInjective(a: int, b: int)
    requires CivilFromSeconds(a) == CivilFromSeconds(b)
    ensures a == b
  {
    CivilCorrect(a);
    CivilCorrect(b);
  }
}
