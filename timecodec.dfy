/** The protocol's timestamps: `time2iso` writes Unix seconds as
    `yyyyMMddTHHmmssZ` in UTC (a variant of the RFC 3339 format), `iso2time`
    reads the digit fields back and answers 0 when it cannot. Calendar
    arithmetic follows the proleptic Gregorian calendar of .NET's `DateTime`,
    which covers the years 1 to 9999, counted in days from 0001-01-01. */
module TimeCodec {
  import opened Text

  /** Days from 0001-01-01 to 1970-01-01. */
  const DaysTo1970: int := 719162
  /** Days from 0001-01-01 to 10000-01-01, one past DateTime's last day. */
  const DaysTo10000: int := 3652059

  predicate IsLeapYear(y: int)
  {
    y % 4 == 0 && (y % 100 != 0 || y % 400 == 0)
  }

  function DaysInYear(y: int): int
  {
    if IsLeapYear(y) then 366 else 365
  }

  function DaysInMonth(y: int, m: int): (n: int)
    requires 1 <= m <= 12
    ensures 28 <= n <= 31
  {
    if m == 2 then (if IsLeapYear(y) then 29 else 28)
    else if m == 4 || m == 6 || m == 9 || m == 11 then 30
    else 31
  }

  /** Days from 0001-01-01 to January 1st of year y. */
  function DaysBeforeYear(y: int): int
  {
    var p := y - 1;
    p * 365 + p / 4 - p / 100 + p / 400
  }

  /** Days from January 1st to the first day of month m. */
  function DaysBeforeMonth(y: int, m: int): (n: int)
    requires 1 <= m <= 12
    ensures 0 <= n <= 31 * (m - 1)
  {
    if m == 1 then 0 else DaysBeforeMonth(y, m - 1) + DaysInMonth(y, m - 1)
  }

  /** The date that `new DateTime(y, m, d, ...)` accepts. */
  predicate ValidDate(y: int, m: int, d: int)
  {
    1 <= y <= 9999 && 1 <= m <= 12 && 1 <= d <= DaysInMonth(y, m)
  }

  predicate ValidTime(h: int, mi: int, s: int)
  {
    0 <= h < 24 && 0 <= mi < 60 && 0 <= s < 60
  }

  /** Unix seconds that `DateTime(1970, 1, 1).AddSeconds` can represent. */
  predicate InDateRange(t: int)
  {
    0 <= t + DaysTo1970 * 86400 < DaysTo10000 * 86400
  }

  // ---------------------------------------------------------------------------
  // Days since 0001-01-01 to year, month and day (.NET's four-century cycles)
  // ---------------------------------------------------------------------------

  datatype Date = Date(year: int, month: int, day: int)

  /** Year of day number n and the 0-based day within that year. */
  function YearOf(n: int): (r: (int, int))
    requires 0 <= n < DaysTo10000
  {
    var y400 := n / 146097;
    var n1 := n % 146097;
    var y100 := if n1 / 36524 == 4 then 3 else n1 / 36524;
    var n2 := n1 - y100 * 36524;
    var y4 := n2 / 1461;
    var n3 := n2 % 1461;
    var y1 := if n3 / 365 == 4 then 3 else n3 / 365;
    (y400 * 400 + y100 * 100 + y4 * 4 + y1 + 1, n3 - y1 * 365)
  }

  /** Month and day for the 0-based day `doy` counted from the start of month m. */
  function MonthOf(y: int, m: int, doy: int): (r: (int, int))
    requires 1 <= m <= 12 && 0 <= doy
    decreases 12 - m
  {
    if m == 12 || doy < DaysInMonth(y, m) then (m, doy + 1)
    else MonthOf(y, m + 1, doy - DaysInMonth(y, m))
  }

  function DateOf(n: int): Date
    requires 0 <= n < DaysTo10000
  {
    var (y, doy) := YearOf(n);
    var (m, d) := MonthOf(y, 1, doy);
    Date(y, m, d)
  }

  /** Day number of a date: what `DateTime`'s constructor computes. */
  function DayNumber(y: int, m: int, d: int): int
    requires 1 <= m <= 12
  {
    DaysBeforeYear(y) + DaysBeforeMonth(y, m) + d - 1
  }

  // ---------------------------------------------------------------------------
  // time2iso
  // ---------------------------------------------------------------------------

  /** `time2iso(t)`: `DateTime(1970, 1, 1).AddSeconds(t)` formatted as
      "yyyyMMddTHHmmssZ". `AddSeconds` throws outside the DateTime range,
      which callers have to rule out first. */
  function Time2Iso(t: int): (s: string)
    requires InDateRange(t)
  {
    var c := Clock(t);
    Format(c.year, c.month, c.day, c.hour, c.minute, c.second)
  }

  /** The calendar date and time of day of Unix time t, in UTC. */
  function Clock(t: int): (f: Fields)
    requires InDateRange(t)
  {
    var date := DateOf(t / 86400 + DaysTo1970);
    var secs := t % 86400;
    Fields(date.year, date.month, date.day, secs / 3600, secs % 3600 / 60, secs % 60)
  }

  /** The "yyyyMMddTHHmmssZ" layout. */
  function Format(y: nat, m: nat, d: nat, h: nat, mi: nat, s: nat): string
  {
    PadDigits(y, 4) + PadDigits(m, 2) + PadDigits(d, 2) + "T"
    + PadDigits(h, 2) + PadDigits(mi, 2) + PadDigits(s, 2) + "Z"
  }

  // ---------------------------------------------------------------------------
  // iso2time
  // ---------------------------------------------------------------------------

  /** `(int)` of a double that is out of the 32-bit range: C# leaves the value
      unspecified; on x86 and x64 it is the "integer indefinite" value -2^31. */
  function CastToInt32(x: int): (r: int)
    ensures Int32Min <= r <= Int32Max
    ensures Int32Min <= x <= Int32Max ==> r == x
  {
    if Int32Min <= x <= Int32Max then x else Int32Min
  }

  datatype Fields = Fields(year: int, month: int, day: int, hour: int, minute: int, second: int)

  /** The six `Convert.ToInt32` calls on the fixed offsets; None when any throws. */
  function ReadFields(s: string): (r: Option<Fields>)
    requires |s| >= 15
  {
    match (ParseInt32(s[0..4]), ParseInt32(s[4..6]), ParseInt32(s[6..8]),
           ParseInt32(s[9..11]), ParseInt32(s[11..13]), ParseInt32(s[13..15]))
    case (Some(y), Some(m), Some(d), Some(h), Some(mi), Some(sec)) => Some(Fields(y, m, d, h, mi, sec))
    case _ => None
  }

  predicate ValidFields(f: Fields)
  {
    ValidDate(f.year, f.month, f.day) && ValidTime(f.hour, f.minute, f.second)
  }

  /** Seconds since 1970-01-01T00:00:00Z of a valid date and time. */
  function UnixSeconds(f: Fields): int
    requires ValidFields(f)
  {
    (DayNumber(f.year, f.month, f.day) - DaysTo1970) * 86400 + f.hour * 3600 + f.minute * 60 + f.second
  }

  /** `iso2time(t)`: reads year, month, day at offsets 0, 4, 6 and hour,
      minute, second at offsets 9, 11, 13 with `Convert.ToInt32`, builds the
      DateTime and returns the seconds since 1970 cast to `int`. Any exception
      on the way (null string, too short, a field that does not parse, an
      impossible date) gives 0. The characters at offset 8 and from offset 15
      on are never looked at. */
  function Iso2Time(t: NString): (r: int)
    ensures Int32Min <= r <= Int32Max
  {
    if t.Null? || |t.value| < 15 then 0
    else
      match ReadFields(t.value)
      case Some(f) => if ValidFields(f) then CastToInt32(UnixSeconds(f)) else 0
      case None => 0
  }

  // ---------------------------------------------------------------------------
  // Properties
  // ---------------------------------------------------------------------------

  /** DaysBeforeYear in closed form for a year written in four-century,
      century, four-year and single-year parts. */
  lemma DaysBeforeYearParts(a: int, b: int, c: int, d: int)
    requires 0 <= a && 0 <= b <= 3 && 0 <= c <= 24 && 0 <= d <= 3
    ensures DaysBeforeYear(a * 400 + b * 100 + c * 4 + d + 1) == 146097 * a + 36524 * b + 1461 * c + 365 * d
  {
    var p := a * 400 + b * 100 + c * 4 + d;
    assert p / 4 == a * 100 + b * 25 + c;
    assert p / 100 == a * 4 + b;
    assert p / 400 == a;
  }

  /** Leap years in the same parts: the fourth year of a four-year block,
      except the last block of a century that is not the fourth. */
  lemma LeapParts(a: int, b: int, c: int, d: int)
    requires 0 <= a && 0 <= b <= 3 && 0 <= c <= 24 && 0 <= d <= 3
    ensures IsLeapYear(a * 400 + b * 100 + c * 4 + d + 1) <==> d == 3 && (c != 24 || b == 3)
  {
    var y := a * 400 + b * 100 + c * 4 + d + 1;
    if d < 3 {
      Mod4OfParts(y, a * 100 + b * 25 + c, d + 1);
    } else {
      Mod4OfParts(y, a * 100 + b * 25 + c + 1, 0);
      if c < 24 {
        Mod100OfParts(y, a * 4 + b, 4 * (c + 1));
      } else {
        Mod100OfParts(y, a * 4 + b + 1, 0);
        Mod400OfParts(y, a, 100 * (b + 1));
      }
    }
  }

  /** The remainders of q * k + r by the moduli of the leap-year rule. */
  lemma Mod4OfParts(y: int, q: int, r: int)
    requires 0 <= r <= 4 && y == 4 * q + r
    ensures y % 4 == r % 4
  {
    if r == 4 { assert y == 4 * (q + 1); }
  }

  lemma Mod100OfParts(y: int, q: int, r: int)
    requires 0 <= r <= 100 && y == 100 * q + r
    ensures y % 100 == r % 100
  {
    if r == 100 { assert y == 100 * (q + 1); }
  }

  lemma Mod400OfParts(y: int, q: int, r: int)
    requires 0 <= r <= 400 && y == 400 * q + r
    ensures y % 400 == r % 400
  {
    if r == 400 { assert y == 400 * (q + 1); }
  }

  /** YearOf finds the year holding day n, and the day within it. */
  lemma YearOfCorrect(n: int)
    requires 0 <= n < DaysTo10000
    ensures var (y, doy) := YearOf(n);
      1 <= y <= 9999 && 0 <= doy < DaysInYear(y) && DaysBeforeYear(y) + doy == n
  {
    var a := n / 146097;
    var n1 := n % 146097;
    var b := if n1 / 36524 == 4 then 3 else n1 / 36524;
    var n2 := n1 - b * 36524;
    var c := n2 / 1461;
    var n3 := n2 % 1461;
    var d := if n3 / 365 == 4 then 3 else n3 / 365;
    assert 0 <= n2 <= 36524;
    assert c <= 24;
    assert n1 / 36524 == 4 ==> n1 == 146096;
    assert c == 24 && n3 / 365 == 4 ==> n2 == 36524 && b == 3;
    DaysBeforeYearParts(a, b, c, d);
    LeapParts(a, b, c, d);
    assert a <= 24;
  }

  /** MonthOf stays inside a valid month and accounts for every day. */
  lemma {:induction false} MonthOfCorrect(y: int, m: int, doy: int)
    requires 1 <= m <= 12 && 0 <= doy
    requires DaysBeforeMonth(y, m) + doy < DaysInYear(y)
    ensures var (m', d) := MonthOf(y, m, doy);
      1 <= m' <= 12 && 1 <= d <= DaysInMonth(y, m') && DaysBeforeMonth(y, m') + d - 1 == DaysBeforeMonth(y, m) + doy
    decreases 12 - m
  {
    if m == 12 {
      MonthsFillYear(y);
      assert MonthOf(y, m, doy) == (m, doy + 1);
    } else if doy < DaysInMonth(y, m) {
      assert MonthOf(y, m, doy) == (m, doy + 1);
    } else {
      var rest := doy - DaysInMonth(y, m);
      MonthOfCorrect(y, m + 1, rest);
      assert MonthOf(y, m, doy) == MonthOf(y, m + 1, rest);
      assert DaysBeforeMonth(y, m + 1) == DaysBeforeMonth(y, m) + DaysInMonth(y, m);
    }
  }

  lemma MonthsFillYear(y: int)
    ensures DaysBeforeMonth(y, 12) + DaysInMonth(y, 12) == DaysInYear(y)
  {
    var feb := DaysInMonth(y, 2);
    assert DaysBeforeMonth(y, 2) == 31;
    assert DaysBeforeMonth(y, 3) == 31 + feb;
    assert DaysBeforeMonth(y, 4) == 62 + feb;
    assert DaysBeforeMonth(y, 5) == 92 + feb;
    assert DaysBeforeMonth(y, 6) == 123 + feb;
    assert DaysBeforeMonth(y, 7) == 153 + feb;
    assert DaysBeforeMonth(y, 8) == 184 + feb;
    assert DaysBeforeMonth(y, 9) == 215 + feb;
    assert DaysBeforeMonth(y, 10) == 245 + feb;
    assert DaysBeforeMonth(y, 11) == 276 + feb;
    assert DaysBeforeMonth(y, 12) == 306 + feb;
  }

  /** DateOf gives a valid date whose day number is n. */
  lemma DateOfCorrect(n: int)
    requires 0 <= n < DaysTo10000
    ensures ValidDate(DateOf(n).year, DateOf(n).month, DateOf(n).day)
    ensures DayNumber(DateOf(n).year, DateOf(n).month, DateOf(n).day) == n
  {
    YearOfCorrect(n);
    var (y, doy) := YearOf(n);
    MonthOfCorrect(y, 1, doy);
  }

  lemma FormatShape(y: nat, m: nat, d: nat, h: nat, mi: nat, sec: nat)
    ensures var s := Format(y, m, d, h, mi, sec);
      |s| == 16 && s[8] == 'T' && s[15] == 'Z'
      && s[0..4] == PadDigits(y, 4) && s[4..6] == PadDigits(m, 2) && s[6..8] == PadDigits(d, 2)
      && s[9..11] == PadDigits(h, 2) && s[11..13] == PadDigits(mi, 2) && s[13..15] == PadDigits(sec, 2)
  {
  }

  /** Clock gives a valid date and time that counts back to t. */
  lemma ClockCorrect(t: int)
    requires InDateRange(t)
    ensures ValidFields(Clock(t)) && UnixSeconds(Clock(t)) == t
  {
    var n := t / 86400 + DaysTo1970;
    var secs := t % 86400;
    DayOfSeconds(t);
    var date := DateOf(n);
    DateOfCorrect(n);
    TimeOfDay(secs);
    var c := Fields(date.year, date.month, date.day, secs / 3600, secs % 3600 / 60, secs % 60);
    assert Clock(t) == c;
    ClockSum(c, date, n, secs, t);
  }

  /** Unix time t splits into a day number in DateTime's range and the
      seconds into that day. */
  lemma DayOfSeconds(t: int)
    requires InDateRange(t)
    ensures 0 <= t / 86400 + DaysTo1970 < DaysTo10000 && 0 <= t % 86400 < 86400
    ensures t == (t / 86400 + DaysTo1970 - DaysTo1970) * 86400 + t % 86400
  {
  }

  /** The sum UnixSeconds takes, from the day number and the time of day. */
  lemma ClockSum(c: Fields, date: Date, n: int, secs: int, t: int)
    requires c.year == date.year && c.month == date.month && c.day == date.day
    requires c.hour == secs / 3600 && c.minute == secs % 3600 / 60 && c.second == secs % 60
    requires ValidDate(date.year, date.month, date.day) && DayNumber(date.year, date.month, date.day) == n
    requires ValidTime(c.hour, c.minute, c.second)
    requires secs / 3600 * 3600 + secs % 3600 / 60 * 60 + secs % 60 == secs
    requires t == (n - DaysTo1970) * 86400 + secs
    ensures ValidFields(c) && UnixSeconds(c) == t
  {
  }

  lemma TimeOfDay(secs: int)
    requires 0 <= secs < 86400
    ensures ValidTime(secs / 3600, secs % 3600 / 60, secs % 60)
    ensures secs / 3600 * 3600 + secs % 3600 / 60 * 60 + secs % 60 == secs
  {
  }

  /** `time2iso` writes 16 characters: digits, with 'T' at offset 8 and 'Z' at 15. */
  lemma Time2IsoShape(t: int)
    requires InDateRange(t)
    ensures |Time2Iso(t)| == 16 && Time2Iso(t)[8] == 'T' && Time2Iso(t)[15] == 'Z'
    ensures forall i :: 0 <= i < 16 && i != 8 && i != 15 ==> IsDigit(Time2Iso(t)[i])
  {
    var c := Clock(t);
    FormatShape(c.year, c.month, c.day, c.hour, c.minute, c.second);
    var s := Time2Iso(t);
    forall i | 0 <= i < 16 && i != 8 && i != 15
      ensures IsDigit(s[i])
    {
      if i < 4 { assert s[i] == s[0..4][i]; }
      else if i < 6 { assert s[i] == s[4..6][i - 4]; }
      else if i < 8 { assert s[i] == s[6..8][i - 6]; }
      else if i < 11 { assert s[i] == s[9..11][i - 9]; }
      else if i < 13 { assert s[i] == s[11..13][i - 11]; }
      else { assert s[i] == s[13..15][i - 13]; }
    }
  }

  /** The six field readers find the numbers the layout wrote. */
  lemma ReadFieldsOfFormat(y: nat, m: nat, d: nat, h: nat, mi: nat, sec: nat)
    requires y < 10000 && m < 100 && d < 100 && h < 100 && mi < 100 && sec < 100
    ensures |Format(y, m, d, h, mi, sec)| == 16
    ensures ReadFields(Format(y, m, d, h, mi, sec)) == Some(Fields(y, m, d, h, mi, sec))
  {
    FormatShape(y, m, d, h, mi, sec);
    var s := Format(y, m, d, h, mi, sec);
    assert Pow10(2) == 100 && Pow10(4) == 10000;
    PadDigitsParse(y, 4);
    PadDigitsParse(m, 2);
    PadDigitsParse(d, 2);
    PadDigitsParse(h, 2);
    PadDigitsParse(mi, 2);
    PadDigitsParse(sec, 2);
    ReadFieldsOfSlices(s, Fields(y, m, d, h, mi, sec));
  }

  lemma ReadFieldsOfSlices(s: string, f: Fields)
    requires |s| >= 15
    requires ParseInt32(s[0..4]) == Some(f.year) && ParseInt32(s[4..6]) == Some(f.month)
    requires ParseInt32(s[6..8]) == Some(f.day) && ParseInt32(s[9..11]) == Some(f.hour)
    requires ParseInt32(s[11..13]) == Some(f.minute) && ParseInt32(s[13..15]) == Some(f.second)
    ensures ReadFields(s) == Some(f)
  {
  }

  /** `iso2time` reads back what `time2iso` wrote, up to the cast of the
      result to a 32-bit `int`. */
  lemma Iso2TimeOfTime2Iso(t: int)
    requires InDateRange(t)
    ensures Iso2Time(Str(Time2Iso(t))) == CastToInt32(t)
  {
    ClockCorrect(t);
    var c := Clock(t);
    ReadFieldsOfFormat(c.year, c.month, c.day, c.hour, c.minute, c.second);
  }

  /** The round trip the protocol relies on: exact for every time a 32-bit
      `int` can hold (1901-12-13 to 2038-01-19). */
  lemma TimeRoundTrip(t: int)
    requires Int32Min <= t <= Int32Max
    ensures InDateRange(t) && Iso2Time(Str(Time2Iso(t))) == t
  {
    Iso2TimeOfTime2Iso(t);
  }

  /** Past 2038-01-19T03:14:07Z the cast breaks the round trip: every later
      timestamp reads back as -2^31. */
  lemma TimeRoundTripFailsAfter2038(t: int)
    requires InDateRange(t) && t > Int32Max
    ensures Iso2Time(Str(Time2Iso(t))) == Int32Min
  {
    Iso2TimeOfTime2Iso(t);
  }

  /** `iso2time` answers 0 for a null or short string, for a field that does
      not parse, and for an impossible date or time. */
  lemma Iso2TimeZero(t: NString)
    requires t.Null? || Unreadable(t.value)
    ensures Iso2Time(t) == 0
  {
  }

  /** A text `iso2time` cannot read: too short, a field that does not
      parse, or an impossible date or time. */
  predicate Unreadable(t: string)
  {
    |t| < 15 || ReadFields(t).None? || !ValidFields(ReadFields(t).value)
  }
}
