/** Calendar arithmetic: civil dates to day numbers in the verifier, day
    numbers to civil dates in the command line, and the timestamps between. */
module Calendar {
  import opened Bytes

  const MS_PER_DAY := 86_400_000

  /** Division as the source does it, truncating toward zero. */
  function TruncDiv(a: int, b: nat): int
    requires b > 0
  {
    if a >= 0 then a / b else -((-a) / b)
  }

  /** 32-bit arithmetic as a release build does it. */
  function U32(x: int): nat { x % 0x1_0000_0000 }

  datatype Date = Date(year: int, month: nat, day: nat)

  predicate Leap(y: int) { y % 4 == 0 && (y % 100 != 0 || y % 400 == 0) }

  function DaysInMonth(y: int, m: nat): nat {
    if m == 2 then (if Leap(y) then 29 else 28)
    else if m == 4 || m == 6 || m == 9 || m == 11 then 30
    else 31
  }

  predicate ValidDate(d: Date) { 1 <= d.month <= 12 && 1 <= d.day <= DaysInMonth(d.year, d.month) }

  /** `days_from_civil`. */
  function DaysFromCivil(year: int, month: nat, day: nat): int {
    var y := if month <= 2 then year - 1 else year;
    var era := TruncDiv(if y >= 0 then y else y - 399, 400);
    var yoe := U32(y - era * 400);
    var mp := U32(if month > 2 then month - 3 else month + 9);
    var doy := U32(U32(153 * mp + 2) / 5 + day - 1);
    var doe := U32(yoe * 365 + yoe / 4 - yoe / 100 + doy);
    era * 146_097 + doe - 719_468
  }

  /** `civil_from_days`. */
  function CivilFromDays(days: int): Date {
    var z := days + 719_468;
    var era := TruncDiv(if z >= 0 then z else z - 146_096, 146_097);
    var doe := z - era * 146_097;
    var yoe := (doe - doe / 1460 + doe / 36_524 - doe / 146_096) / 365;
    DateInYear(yoe + era * 400, doe - (365 * yoe + yoe / 4 - yoe / 100))
  }

  /** The date `doy` days after the first of March of year `y`. */
  function DateInYear(y: int, doy: int): Date {
    var mp := (5 * doy + 2) / 153;
    var d := doy - (153 * mp + 2) / 5 + 1;
    var m := if mp < 10 then mp + 3 else mp - 9;
    Date(if m <= 2 then y + 1 else y, if m < 0 then 0 else m, if d < 0 then 0 else d)
  }

  // ---- the two halves of a 400-year era ----

  /** Day of era of the first of March of year `yoe` of the era. */
  function YearStart(yoe: int): int { yoe * 365 + yoe / 4 - yoe / 100 }

  /** Length of the year that starts in March of year `yoe` of the era. */
  function YearLength(yoe: int): int { if Leap(yoe + 1) then 366 else 365 }

  /** Days before month `mp`, counted from March. */
  function MonthStart(mp: int): int { (153 * mp + 2) / 5 }

  lemma EraIsFloor(y: int)
    ensures TruncDiv(if y >= 0 then y else y - 399, 400) == y / 400
    ensures TruncDiv(if y >= 0 then y else y - 146_096, 146_097) == y / 146_097
  {
  }

  /** Four years of 365 days and a leap day, 25 times a century. */
  lemma YearStartParts(c: int, q: int, r: int)
    requires 0 <= c < 4 && 0 <= q < 25 && 0 <= r < 4
    ensures YearStart(100 * c + 4 * q + r) == 36_524 * c + 1_461 * q + 365 * r
    ensures YearLength(100 * c + 4 * q + r) == (if r == 3 && (q < 24 || c == 3) then 366 else 365)
  {
    var y := 100 * c + 4 * q + r;
    assert y / 4 == 25 * c + q && y / 100 == c;
    assert (y + 1) % 4 == 0 <==> r == 3;
    assert (y + 1) % 100 == 0 <==> q == 24 && r == 3;
  }

  lemma Century(c: int, t: int)
    requires 0 <= c < 4 && (0 <= t <= 36_523 || (c == 3 && t == 36_524))
    ensures var doe := 36_524 * c + t; doe / 36_524 - doe / 146_096 == c
  {
  }

  lemma Divides(n: int, year: int, rest: int)
    requires n == 365 * year + rest && 0 <= rest < 365
    ensures n / 365 == year
  {
  }

  lemma YearOfParts(c: int, q: int, r: int, doy: int)
    requires 0 <= c < 4 && 0 <= q < 25 && 0 <= r < 4
    requires 0 <= doy < if r == 3 && (q < 24 || c == 3) then 366 else 365
    ensures var doe := 36_524 * c + 1_461 * q + 365 * r + doy;
      0 <= doe < 146_097 && (doe - doe / 1460 + doe / 36_524 - doe / 146_096) / 365 == 100 * c + 4 * q + r
  {
    var t := 1_461 * q + 365 * r + doy;
    var doe := 36_524 * c + t;
    assert 0 <= t <= 36_523 || (c == 3 && t == 36_524);
    Century(c, t);
    var e := FourYears(c, q, r, doy);
    var n := doe - doe / 1460 + doe / 36_524 - doe / 146_096;
    assert n == 365 * (100 * c + 4 * q + r) + (doy - e);
    Divides(n, 100 * c + 4 * q + r, doy - e);
  }

  lemma YearParts(yoe: int) returns (c: int, q: int, r: int)
    requires 0 <= yoe < 400
    ensures 0 <= c < 4 && 0 <= q < 25 && 0 <= r < 4 && yoe == 100 * c + 4 * q + r
  {
    c, q, r := yoe / 100, yoe % 100 / 4, yoe % 4;
  }

  /** The quotient formula of `civil_from_days` recovers the year from any
      day of it. */
  lemma YearOfDay(yoe: int, doy: int)
    requires 0 <= yoe < 400 && 0 <= doy < YearLength(yoe)
    ensures var doe := YearStart(yoe) + doy;
      0 <= doe < 146_097 && (doe - doe / 1460 + doe / 36_524 - doe / 146_096) / 365 == yoe
  {
    hide YearStart, YearLength;
    var c, q, r := YearParts(yoe);
    YearStartParts(c, q, r);
    YearOfParts(c, q, r, doy);
  }

  lemma FourYears(c: int, q: int, r: int, doy: int) returns (e: int)
    requires 0 <= c < 4 && 0 <= q < 25 && 0 <= r < 4
    requires 0 <= doy < if r == 3 && (q < 24 || c == 3) then 366 else 365
    ensures (36_524 * c + 1_461 * q + 365 * r + doy) / 1460 == 25 * c + q + e && 0 <= doy - e < 365
  {
    var rest := 24 * c + q + 365 * r + doy;
    e := if rest >= 1460 then 1 else 0;
    assert 36_524 * c + 1_461 * q + 365 * r + doy == 1460 * (25 * c + q) + rest;
  }

  /** Every day of an era is a day of one of its years. */
  lemma DayHasYear(doe: int) returns (yoe: int, doy: int)
    requires 0 <= doe < 146_097
    ensures 0 <= yoe < 400 && 0 <= doy < YearLength(yoe) && doe == YearStart(yoe) + doy
  {
    var c := if doe / 36_524 < 3 then doe / 36_524 else 3;
    var t := doe - 36_524 * c;
    var q := if t / 1_461 < 24 then t / 1_461 else 24;
    var u := t - 1_461 * q;
    var r := if u / 365 < 3 then u / 365 else 3;
    YearStartParts(c, q, r);
    yoe, doy := 100 * c + 4 * q + r, u - 365 * r;
  }

  lemma MonthOfDay(mp: int, d: int)
    requires 0 <= mp < 12 && 0 <= d < MonthStart(mp + 1) - MonthStart(mp)
    ensures (5 * (MonthStart(mp) + d) + 2) / 153 == mp
  {
  }

  // ---- dates as (era, year of era, month from March, day) ----

  function EraYear(d: Date): int { if d.month <= 2 then d.year - 1 else d.year }
  function MarchMonth(m: nat): int { if m > 2 then m - 3 else m + 9 }

  lemma LeapShift(e: int, r: int)
    ensures Leap(400 * e + r) == Leap(r)
  {
    Mod4(100 * e, r);
    Mod100(4 * e, r);
    Mod400(e, r);
  }

  lemma Mod4(a: int, r: int)
    ensures (4 * a + r) % 4 == r % 4
  {
  }

  lemma Mod100(a: int, r: int)
    ensures (100 * a + r) % 100 == r % 100
  {
  }

  lemma Mod400(a: int, r: int)
    ensures (400 * a + r) % 400 == r % 400
  {
  }

  lemma LeapPeriod(y: int)
    ensures Leap(y + 1) == Leap(y % 400 + 1)
  {
    LeapShift(y / 400, y % 400 + 1);
    hide Leap;
    assert y == 400 * (y / 400) + y % 400;
  }

  lemma DayOfYearBounds(d: Date)
    requires ValidDate(d)
    ensures 0 <= MonthStart(MarchMonth(d.month)) + d.day - 1 < YearLength(EraYear(d) % 400)
    ensures 0 <= MarchMonth(d.month) < 12
    ensures d.day - 1 < MonthStart(MarchMonth(d.month) + 1) - MonthStart(MarchMonth(d.month))
  {
    LeapPeriod(EraYear(d));
    hide Leap;
  }

  lemma SmallU32(x: int)
    requires 0 <= x < 0x1_0000_0000
    ensures U32(x) == x
  {
  }

  /** For a valid date nothing wraps: the day number is the sum of its parts. */
  lemma DaysOfValidDate(d: Date)
    requires ValidDate(d)
    ensures var yoe, doy := EraYear(d) % 400, MonthStart(MarchMonth(d.month)) + d.day - 1;
      DaysFromCivil(d.year, d.month, d.day) == EraYear(d) / 400 * 146_097 + YearStart(yoe) + doy - 719_468
  {
    hide U32, TruncDiv, Leap, DaysInMonth;
    var y, mp := EraYear(d), MarchMonth(d.month);
    var yoe, doy := y % 400, MonthStart(mp) + d.day - 1;
    DayOfYearBounds(d);
    YearOfDay(yoe, doy);
    EraIsFloor(y);
    SmallU32(yoe);
    SmallU32(mp);
    SmallU32(153 * mp + 2);
    SmallU32(doy);
    SmallU32(YearStart(yoe) + doy);
  }

  /** What the command line makes of a day number, part by part. */
  lemma CivilOfParts(era: int, yoe: int, doy: int)
    requires 0 <= yoe < 400 && 0 <= doy < YearLength(yoe)
    ensures var mp, y := (5 * doy + 2) / 153, yoe + era * 400;
      && 0 <= mp < 12 && 0 <= doy - MonthStart(mp) < 31
      && CivilFromDays(era * 146_097 + YearStart(yoe) + doy - 719_468)
         == Date(if mp >= 10 then y + 1 else y, if mp < 10 then mp + 3 else mp - 9, doy - MonthStart(mp) + 1)
  {
    hide CivilFromDays, DateInYear, MonthStart, TruncDiv;
    var doe := YearStart(yoe) + doy;
    YearOfDay(yoe, doy);
    hide Leap;
    CivilInEra(era, doe);
    DateParts(yoe + era * 400, doy);
  }

  lemma CivilInEra(era: int, doe: int)
    requires 0 <= doe < 146_097
    ensures var yoe := (doe - doe / 1460 + doe / 36_524 - doe / 146_096) / 365;
      CivilFromDays(era * 146_097 + doe - 719_468) == DateInYear(yoe + era * 400, doe - YearStart(yoe))
  {
    hide DateInYear, TruncDiv;
    EraOf(era, doe);
  }

  lemma EraOf(era: int, doe: int)
    requires 0 <= doe < 146_097
    ensures var z := era * 146_097 + doe; TruncDiv(if z >= 0 then z else z - 146_096, 146_097) == era
  {
    var z := era * 146_097 + doe;
    EraIsFloor(z);
    hide TruncDiv;
    assert z / 146_097 == era;
  }

  lemma DateParts(y: int, doy: int)
    requires 0 <= doy < 366
    ensures var mp := (5 * doy + 2) / 153;
      && 0 <= mp < 12 && 0 <= doy - MonthStart(mp) < 31
      && DateInYear(y, doy) == Date(if mp >= 10 then y + 1 else y, if mp < 10 then mp + 3
          else mp - 9, doy - MonthStart(mp) + 1)
  {
    MonthParts(doy);
  }

  lemma MonthParts(doy: int)
    requires 0 <= doy < 366
    ensures var mp := (5 * doy + 2) / 153; 0 <= mp < 12 && 0 <= doy - MonthStart(mp) < 31
  {
  }

  /** A date survives the trip through its day number. */
  lemma CivilOfDays(d: Date)
    requires ValidDate(d)
    ensures CivilFromDays(DaysFromCivil(d.year, d.month, d.day)) == d
  {
    hide CivilFromDays, DaysFromCivil, Leap, YearStart, YearLength;
    var y, mp := EraYear(d), MarchMonth(d.month);
    DaysOfValidDate(d);
    DayOfYearBounds(d);
    MonthOfDay(mp, d.day - 1);
    CivilOfParts(y / 400, y % 400, MonthStart(mp) + d.day - 1);
  }

  /** A day number survives the trip through its date, which is valid. */
  lemma DaysOfCivil(days: int)
    ensures var d := CivilFromDays(days);
      ValidDate(d) && DaysFromCivil(d.year, d.month, d.day) == days
  {
    hide CivilFromDays, DaysFromCivil, YearStart;
    var z := days + 719_468;
    var era := z / 146_097;
    var yoe, doy := DayHasYear(z % 146_097);
    CivilOfParts(era, yoe, doy);
    var mp, y := (5 * doy + 2) / 153, yoe + era * 400;
    var d := CivilFromDays(days);
    assert z == era * 146_097 + z % 146_097;
    assert EraYear(d) == y && MarchMonth(d.month) == mp;
    assert y / 400 == era && y % 400 == yoe;
    PartsAreValid(y, doy, d);
    DaysOfValidDate(d);
  }

  lemma PartsAreValid(y: int, doy: int, d: Date)
    requires 0 <= doy < YearLength(y % 400)
    requires var mp := (5 * doy + 2) / 153;
      d == Date(if mp >= 10 then y + 1 else y, if mp < 10 then mp + 3 else mp - 9, doy - MonthStart(mp) + 1)
    ensures ValidDate(d)
  {
    LeapPeriod(y);
    hide Leap;
  }

  // ---- order of dates ----

  predicate DateLess(d: Date, e: Date) {
    d.year < e.year || (d.year == e.year && (d.month < e.month || (d.month == e.month && d.day < e.day)))
  }

  /** Day number of the first of March of year `y`. */
  function MarchFirst(y: int): int { y / 400 * 146_097 + YearStart(y % 400) - 719_468 }

  lemma YearStep(y: int)
    ensures MarchFirst(y + 1) == MarchFirst(y) + YearLength(y % 400)
  {
    var e, r := y / 400, y % 400;
    assert y == 400 * e + r;
    if r == 399 {
      assert (y + 1) / 400 == e + 1 && (y + 1) % 400 == 0;
    } else {
      assert (y + 1) / 400 == e && (y + 1) % 400 == r + 1;
      YearStartStep(r);
    }
  }

  lemma YearStartStep(r: int)
    requires 0 <= r < 399
    ensures YearStart(r + 1) == YearStart(r) + YearLength(r)
  {
    var c, q, k := r / 100, r % 100 / 4, r % 4;
    assert r == 100 * c + 4 * q + k;
    YearStartParts(c, q, k);
    if k < 3 {
      YearStartParts(c, q, k + 1);
    } else if q < 24 {
      YearStartParts(c, q + 1, 0);
    } else {
      YearStartParts(c + 1, 0, 0);
    }
  }

  lemma {:induction false} YearsIncrease(y: int, z: int)
    requires y < z
    ensures MarchFirst(y) + YearLength(y % 400) <= MarchFirst(z)
    decreases z - y
  {
    hide YearStart, Leap;
    YearStep(y);
    if y + 1 < z {
      YearsIncrease(y + 1, z);
    }
  }

  /** Day numbers order valid dates as the calendar does. */
  lemma DaysIncrease(d: Date, e: Date)
    requires ValidDate(d) && ValidDate(e) && DateLess(d, e)
    ensures DaysFromCivil(d.year, d.month, d.day) < DaysFromCivil(e.year, e.month, e.day)
  {
    hide DaysFromCivil, YearStart, Leap, DaysInMonth;
    DaysOfValidDate(d);
    DaysOfValidDate(e);
    DayOfYearBounds(d);
    DayOfYearBounds(e);
    if EraYear(d) < EraYear(e) {
      YearsIncrease(EraYear(d), EraYear(e));
    }
  }

  // ---- timestamps ----

  predicate IsDigit(b: byte) { 0x30 <= b <= 0x39 }

  function DigitValue(b: byte): nat
    requires IsDigit(b)
  {
    b - 0x30
  }

  predicate AllDigits(b: bytes) { forall i :: 0 <= i < |b| ==> IsDigit(b[i]) }

  function Decimal(b: bytes): nat
    requires AllDigits(b)
  {
    if b == [] then 0
    else
      assert IsDigit(b[|b| - 1]);
      10 * Decimal(b[..|b| - 1]) + DigitValue(b[|b| - 1])
  }

  /** `str::parse` for a signed integer, 0 when it fails. */
  function ParseInt(b: bytes): int {
    if b != [] && AllDigits(b) then Decimal(b)
    else if |b| > 1 && b[0] == 0x2d && AllDigits(b[1..]) then 0 - Decimal(b[1..]) as int
    else if |b| > 1 && b[0] == 0x2b && AllDigits(b[1..]) then Decimal(b[1..])
    else 0
  }

  /** `parse_ts_ms`: 0 for a string of another length, and 0 for any field
      that is not a number. */
  function ParseTsMs(s: bytes): int {
    if |s| != 24 then 0
    else
      DaysFromCivil(ParseInt(s[0..4]), U32(ParseInt(s[5..7])), U32(ParseInt(s[8..10]))) * MS_PER_DAY
      + ParseInt(s[11..13]) * 3_600_000
      + ParseInt(s[14..16]) * 60_000
      + ParseInt(s[17..19]) * 1_000
      + ParseInt(s[20..23])
  }

  /** Three decimal digits. */
  function Digits3(n: nat): bytes
    requires n < 1000
  {
    [0x30 + n / 100, 0x30 + n / 10 % 10, 0x30 + n % 10]
  }

  /** `str::parse` for an unsigned integer, 0 when it fails. */
  function ParseUint(b: bytes): nat {
    if b != [] && AllDigits(b) then Decimal(b)
    else if |b| > 1 && b[0] == 0x2b && AllDigits(b[1..]) then Decimal(b[1..])
    else 0
  }

  /** `bump_ts_ms`: adds a millisecond, except at .999. */
  function BumpTsMs(ts: bytes): (r: bytes)
    ensures |ts| == 24 ==> |r| == 24
  {
    if |ts| != 24 then ts
    else
      var ms := ParseUint(ts[20..23]);
      if ms < 999 then ts[..20] + Digits3(ms + 1) + [0x5a] else ts
  }

  /** YYYY-MM-DDTHH:MM:SS.mmmZ of RFC 3339 section 5.6, without leap seconds. */
  predicate WellFormedTs(s: bytes) {
    && |s| == 24
    && AllDigits(s[0..4]) && AllDigits(s[5..7]) && AllDigits(s[8..10])
    && AllDigits(s[11..13]) && AllDigits(s[14..16]) && AllDigits(s[17..19]) && AllDigits(s[20..23])
    && s[4] == s[7] == 0x2d && s[10] == 0x54 && s[13] == s[16] == 0x3a && s[19] == 0x2e && s[23] == 0x5a
    && ValidDate(DateOf(s))
    && Decimal(s[11..13]) < 24 && Decimal(s[14..16]) < 60 && Decimal(s[17..19]) < 60
  }

  function DateOf(s: bytes): Date
    requires |s| == 24 && AllDigits(s[0..4]) && AllDigits(s[5..7]) && AllDigits(s[8..10])
  {
    Date(Decimal(s[0..4]), Decimal(s[5..7]), Decimal(s[8..10]))
  }

  /** Milliseconds since midnight. */
  function TimeOf(s: bytes): nat
    requires WellFormedTs(s)
  {
    Decimal(s[11..13]) * 3_600_000 + Decimal(s[14..16]) * 60_000 + Decimal(s[17..19]) * 1_000 + Decimal(s[20..23])
  }

  lemma ParseWellFormed(s: bytes)
    requires WellFormedTs(s)
    ensures var d := DateOf(s);
      ParseTsMs(s) == DaysFromCivil(d.year, d.month, d.day) * MS_PER_DAY + TimeOf(s)
    ensures TimeOf(s) < MS_PER_DAY && Decimal(s[20..23]) < 1000
  {
    hide DaysFromCivil;
    SmallU32(DateOf(s).month);
    SmallU32(DateOf(s).day);
    DecimalBound(s[20..23]);
  }

  lemma DecimalBound(b: bytes)
    requires |b| == 3 && AllDigits(b)
    ensures IsDigit(b[0]) && IsDigit(b[1]) && IsDigit(b[2])
    ensures Decimal(b) == 100 * DigitValue(b[0]) + 10 * DigitValue(b[1]) + DigitValue(b[2])
  {
    assert IsDigit(b[0]) && IsDigit(b[1]) && IsDigit(b[2]);
    var b1, b2 := b[..1], b[..2];
    assert b2[..1] == b1 && b1[..0] == [];
    assert Decimal(b1) == DigitValue(b[0]);
    assert Decimal(b2) == 10 * Decimal(b1) + DigitValue(b[1]);
  }

  lemma Digits3Decimal(n: nat)
    requires n < 1000
    ensures AllDigits(Digits3(n)) && Decimal(Digits3(n)) == n
  {
    var a, b, c := n / 100, n / 10 % 10, n % 10;
    assert a < 10 && n == 100 * a + 10 * b + c;
    assert Digits3(n) == [0x30 + a, 0x30 + b, 0x30 + c];
    hide Digits3;
    DecimalBound(Digits3(n));
    hide Decimal;
  }

  /** Replacing the milliseconds of a well-formed timestamp. */
  lemma WithMilliseconds(ts: bytes, n: nat)
    requires WellFormedTs(ts) && n < 1000
    ensures var r := ts[..20] + Digits3(n) + [0x5a];
      WellFormedTs(r) && DateOf(r) == DateOf(ts) && TimeOf(r) - Decimal(r[20..23]) == TimeOf(ts) - Decimal(ts[20..23])
      && Decimal(r[20..23]) == n
  {
    hide Decimal, ValidDate, AllDigits;
    var r := ts[..20] + Digits3(n) + [0x5a];
    Digits3Decimal(n);
    assert r[20..23] == Digits3(n);
    assert r[0..4] == ts[0..4] && r[5..7] == ts[5..7] && r[8..10] == ts[8..10];
    assert r[11..13] == ts[11..13] && r[14..16] == ts[14..16] && r[17..19] == ts[17..19];
  }

  /** The bump is exact to the millisecond, except at .999, where the time
      does not move; either way the timestamp stays well formed. */
  lemma BumpAddsOne(ts: bytes)
    requires WellFormedTs(ts)
    ensures WellFormedTs(BumpTsMs(ts))
    ensures ParseTsMs(BumpTsMs(ts)) == ParseTsMs(ts) + (if Decimal(ts[20..23]) == 999 then 0 else 1)
  {
    hide Decimal, ValidDate, AllDigits, DaysFromCivil, ParseTsMs;
    var ms := Decimal(ts[20..23]);
    ParseWellFormed(ts);
    if ms < 999 {
      WithMilliseconds(ts, ms + 1);
    }
    ParseWellFormed(BumpTsMs(ts));
  }

  lemma {:induction false} DecimalLex(a: bytes, b: bytes)
    requires |a| == |b| && AllDigits(a) && AllDigits(b)
    ensures LexLess(a, b) <==> Decimal(a) < Decimal(b)
    ensures a == b <==> Decimal(a) == Decimal(b)
  {
    if a != [] {
      var n := |a| - 1;
      DecimalLex(a[..n], b[..n]);
      assert a == a[..n] + [a[n]] && b == b[..n] + [b[n]];
      LexConcat(a[..n], b[..n], [a[n]], [b[n]]);
    }
  }

  /** One field of the lexicographic comparison: digits, then an equal
      separator, then the rest. */
  lemma LexField(s: bytes, t: bytes, from: nat, len: nat)
    requires |s| == |t| == 24 && from + len < 24 && s[from + len] == t[from + len]
    requires AllDigits(s[from..from + len]) && AllDigits(t[from..from + len])
    ensures var x, y := Decimal(s[from..from + len]), Decimal(t[from..from + len]);
      LexLess(s[from..], t[from..]) <==> x < y || (x == y && LexLess(s[from + len + 1..], t[from + len + 1..]))
  {
    hide Decimal, LexLess, AllDigits;
    var m := from + len;
    assert s[from..] == s[from..m] + s[m..] && t[from..] == t[from..m] + t[m..];
    DecimalLex(s[from..m], t[from..m]);
    LexConcat(s[from..m], t[from..m], s[m..], t[m..]);
    SkipSeparator(s[m..], t[m..]);
    assert s[m..][1..] == s[m + 1..] && t[m..][1..] == t[m + 1..];
  }

  lemma SkipSeparator(s: bytes, t: bytes)
    requires s != [] && t != [] && s[0] == t[0]
    ensures LexLess(s, t) <==> LexLess(s[1..], t[1..])
  {
  }

  predicate TimeLess(s: bytes, t: bytes)
    requires WellFormedTs(s) && WellFormedTs(t)
  {
    var h, h' := Decimal(s[11..13]), Decimal(t[11..13]);
    var m, m' := Decimal(s[14..16]), Decimal(t[14..16]);
    var c, c' := Decimal(s[17..19]), Decimal(t[17..19]);
    h < h' || (h == h' && (m < m' || (m == m' && (c < c' || (c == c' && Decimal(s[20..23]) < Decimal(t[20..23]))))))
  }

  lemma LexOfParts(s: bytes, t: bytes)
    requires WellFormedTs(s) && WellFormedTs(t)
    ensures LexLess(s, t) <==> DateLess(DateOf(s), DateOf(t)) || (DateOf(s) == DateOf(t) && TimeLess(s, t))
  {
    hide Decimal, LexLess, AllDigits, ValidDate;
    LexField(s, t, 0, 4);
    LexField(s, t, 5, 2);
    LexField(s, t, 8, 2);
    LexField(s, t, 11, 2);
    LexField(s, t, 14, 2);
    LexField(s, t, 17, 2);
    LexField(s, t, 20, 3);
    assert s[0..] == s && t[0..] == t && s[24..] == [] && t[24..] == [];
    LexStrict([], []);
  }

  lemma TimeOrder(s: bytes, t: bytes)
    requires WellFormedTs(s) && WellFormedTs(t)
    ensures TimeLess(s, t) <==> TimeOf(s) < TimeOf(t)
  {
    hide ValidDate;
    ParseWellFormed(s);
    ParseWellFormed(t);
  }

  /** Parsing preserves and reflects order: well-formed timestamps compare as
      instants exactly as they compare as text. */
  lemma ParsePreservesOrder(s: bytes, t: bytes)
    requires WellFormedTs(s) && WellFormedTs(t)
    ensures LexLess(s, t) <==> ParseTsMs(s) < ParseTsMs(t)
  {
    hide DaysFromCivil, ValidDate, TimeLess, TimeOf, LexLess;
    LexOfParts(s, t);
    TimeOrder(s, t);
    ParseWellFormed(s);
    ParseWellFormed(t);
    if DateLess(DateOf(s), DateOf(t)) {
      DaysIncrease(DateOf(s), DateOf(t));
    } else if DateLess(DateOf(t), DateOf(s)) {
      DaysIncrease(DateOf(t), DateOf(s));
    }
  }

  // ---- printing an instant ----

  /** The low `w` decimal digits of `n`. */
  function Digits(n: nat, w: nat): (b: bytes)
    ensures |b| == w && AllDigits(b)
  {
    if w == 0 then [] else Digits(n / 10, w - 1) + [0x30 + n % 10]
  }

  /** `{n}`: no leading zeros. */
  function Shortest(n: nat): bytes {
    if n < 10 then [0x30 + n] else Shortest(n / 10) + [0x30 + n % 10]
  }

  /** `{y:04}`: the sign counts toward the width. */
  function FormatYear(y: int): bytes {
    if 0 <= y <= 9999 then Digits(y, 4)
    else if y > 9999 then Shortest(y)
    else if y >= -999 then [0x2d] + Digits(-y, 3)
    else [0x2d] + Shortest(-y)
  }

  /** `format_rfc3339`. */
  function FormatRfc3339(secs: int): bytes {
    var days, ofDay := secs / 86_400, secs % 86_400;
    var d := CivilFromDays(days);
    FormatYear(d.year) + [0x2d] + Digits(d.month, 2) + [0x2d] + Digits(d.day, 2) + [0x54]
    + Digits(ofDay / 3600, 2) + [0x3a] + Digits(ofDay % 3600 / 60, 2) + [0x3a] + Digits(ofDay % 60, 2) + [0x5a]
  }

  function Pow10(n: nat): nat { if n == 0 then 1 else 10 * Pow10(n - 1) }

  lemma {:induction false} DecimalOfDigits(n: nat, w: nat)
    requires n < Pow10(w)
    ensures Decimal(Digits(n, w)) == n
  {
    if w > 0 {
      DecimalOfDigits(n / 10, w - 1);
      assert Digits(n, w)[..w - 1] == Digits(n / 10, w - 1);
      assert DigitValue(Digits(n, w)[w - 1]) == n % 10;
    }
  }

  /** The printed time with zero milliseconds. */
  function WithZeroMs(r: bytes): bytes
    requires |r| == 20
  {
    r[..19] + [0x2e, 0x30, 0x30, 0x30, 0x5a]
  }

  lemma TwoDigits(n: nat)
    requires n < 100
    ensures Decimal(Digits(n, 2)) == n
  {
    assert Pow10(2) == 100 by { assert Pow10(1) == 10; }
    DecimalOfDigits(n, 2);
  }

  lemma FormatSlices(secs: int)
    requires 0 <= CivilFromDays(secs / 86_400).year <= 9999
    ensures var r, d, t := FormatRfc3339(secs), CivilFromDays(secs / 86_400), secs % 86_400;
      && |r| == 20
      && var s := WithZeroMs(r);
         && |s| == 24 && s[0..4] == Digits(d.year, 4) && s[5..7] == Digits(d.month, 2) && s[8..10] == Digits(d.day, 2)
         && s[11..13] == Digits(t / 3600, 2) && s[14..16] == Digits(t % 3600 / 60, 2) && s[17..19] == Digits(t % 60, 2)
         && s[20..23] == Digits3(0)
         && s[4] == s[7] == 0x2d && s[10] == 0x54 && s[13] == s[16] == 0x3a && s[19] == 0x2e && s[23] == 0x5a
  {
    hide Digits, CivilFromDays, Decimal;
  }

  lemma FormatParts(secs: int)
    requires 0 <= CivilFromDays(secs / 86_400).year <= 9999
    ensures var r, d, t := FormatRfc3339(secs), CivilFromDays(secs / 86_400), secs % 86_400;
      && |r| == 20
      && var s := WithZeroMs(r);
         WellFormedTs(s) && DateOf(s) == d && TimeOf(s) == t * 1000
  {
    hide Decimal, Digits, CivilFromDays, DaysFromCivil, DaysInMonth, FormatRfc3339, WithZeroMs, Digits3;
    var d, t := CivilFromDays(secs / 86_400), secs % 86_400;
    FormatSlices(secs);
    DaysOfCivil(secs / 86_400);
    DayAtMost31(d);
    FourDigits(d.year);
    TwoDigits(d.month);
    TwoDigits(d.day);
    TwoDigits(t / 3600);
    TwoDigits(t % 3600 / 60);
    TwoDigits(t % 60);
    Digits3Decimal(0);
  }

  lemma FourDigits(n: nat)
    requires n <= 9999
    ensures Decimal(Digits(n, 4)) == n
  {
    assert Pow10(4) == 10_000 by { assert Pow10(1) == 10 && Pow10(2) == 100 && Pow10(3) == 1000; }
    DecimalOfDigits(n, 4);
  }

  lemma DayAtMost31(d: Date)
    requires ValidDate(d)
    ensures d.day <= 31
  {
  }

  function NumberIn(b: bytes): nat { if AllDigits(b) then Decimal(b) else 0 }

  function SignedNumberIn(b: bytes): int { if b != [] && b[0] == 0x2d then -(NumberIn(b[1..]) as int) else NumberIn(b) }

  /** The instant that `YYYY-MM-DDTHH:MM:SSZ` denotes, where the year may have
      a sign and any number of digits. */
  function ReadRfc3339(r: bytes): int
    requires |r| >= 16
  {
    var n := |r| - 16;
    DaysFromCivil(SignedNumberIn(r[..n]), NumberIn(r[n + 1..n + 3]), NumberIn(r[n + 4..n + 6])) * 86_400
    + NumberIn(r[n + 7..n + 9]) * 3600 + NumberIn(r[n + 10..n + 12]) * 60 + NumberIn(r[n + 13..n + 15])
  }

  lemma {:induction false} DecimalOfShortest(n: nat)
    ensures NumberIn(Shortest(n)) == n && Shortest(n) != [] && Shortest(n)[0] != 0x2d && AllDigits(Shortest(n))
  {
    if n < 10 {
      var b := Shortest(n);
      assert b[..|b| - 1] == [] && Decimal([]) == 0;
      assert DigitValue(b[|b| - 1]) == n;
    } else {
      DecimalOfShortest(n / 10);
      OneMoreDigit(Shortest(n / 10), n % 10);
    }
  }

  lemma OneMoreDigit(b: bytes, d: nat)
    requires AllDigits(b) && b != [] && d < 10
    ensures var b' := b + [0x30 + d]; AllDigits(b') && b'[0] == b[0] && NumberIn(b') == 10 * NumberIn(b) + d
  {
    var b' := b + [0x30 + d];
    assert b'[..|b'| - 1] == b;
    assert DigitValue(b'[|b'| - 1]) == d;
  }

  lemma YearReads(y: int)
    ensures SignedNumberIn(FormatYear(y)) == y
  {
    assert Pow10(3) == 1000 && Pow10(4) == 10_000 by { assert Pow10(1) == 10 && Pow10(2) == 100; }
    if 0 <= y <= 9999 {
      DecimalOfDigits(y, 4);
      assert IsDigit(Digits(y, 4)[0]);
    } else if y > 9999 {
      DecimalOfShortest(y);
    } else {
      assert FormatYear(y)[1..] == if y >= -999 then Digits(-y, 3) else Shortest(-y);
      if y >= -999 {
        DecimalOfDigits(-y, 3);
      } else {
        DecimalOfShortest(-y);
      }
    }
  }

  /** What the command line prints for an instant, in whatever year, denotes
      that instant; so no two instants print alike. */
  lemma FormatReads(secs: int)
    ensures |FormatRfc3339(secs)| >= 17 && ReadRfc3339(FormatRfc3339(secs)) == secs
  {
    hide Decimal, Digits, SignedNumberIn, FormatYear, CivilFromDays, DaysFromCivil, DaysInMonth;
    var r, d, t := FormatRfc3339(secs), CivilFromDays(secs / 86_400), secs % 86_400;
    DaysOfCivil(secs / 86_400);
    DayAtMost31(d);
    YearReads(d.year);
    YearNonEmpty(d.year);
    TwoDigits(d.month);
    TwoDigits(d.day);
    TwoDigits(t / 3600);
    TwoDigits(t % 3600 / 60);
    TwoDigits(t % 60);
    var n := |FormatYear(d.year)|;
    assert |r| == n + 16 && r[..n] == FormatYear(d.year);
    assert r[n + 1..n + 3] == Digits(d.month, 2) && r[n + 4..n + 6] == Digits(d.day, 2);
    assert r[n + 7..n + 9] == Digits(t / 3600, 2) && r[n + 10..n + 12] == Digits(t % 3600 / 60, 2);
    assert r[n + 13..n + 15] == Digits(t % 60, 2);
  }

  lemma YearNonEmpty(y: int)
    ensures FormatYear(y) != []
  {
    if y > 9999 {
      DecimalOfShortest(y);
    }
  }

  /** In the form of a record's timestamp, which carries milliseconds too, the
      verifier's parser reads it back: an exported time compares with record
      times as its instant does. */
  lemma FormatParses(secs: int)
    requires 0 <= CivilFromDays(secs / 86_400).year <= 9999
    ensures |FormatRfc3339(secs)| == 20 && ParseTsMs(WithZeroMs(FormatRfc3339(secs))) == secs * 1000
  {
    hide CivilFromDays, DaysFromCivil, FormatRfc3339, ParseTsMs, WellFormedTs, TimeOf;
    FormatParts(secs);
    ParseWellFormed(WithZeroMs(FormatRfc3339(secs)));
    DaysOfCivil(secs / 86_400);
  }
}
