/** Calendar dates and naive local date-times, as Python's datetime module
    represents them: the difference of two naive date-times is the difference
    of their proleptic Gregorian day numbers (toordinal) and of their times of
    day; strftime renders the fields zero-padded. */
module Clock {
  import opened Errors
  import opened Text

  datatype Date = Date(year: int, month: int, day: int)

  datatype DateTime = DateTime(date: Date, hour: int, minute: int, second: int)

  const SECONDS_PER_MINUTE := 60
  const SECONDS_PER_HOUR := 3600
  const SECONDS_PER_DAY := 86400

  predicate IsLeap(year: int)
  {
    year % 4 == 0 && (year % 100 != 0 || year % 400 == 0)
  }

  function DaysInMonth(year: int, month: int): (n: int)
    requires 1 <= month <= 12
    ensures 28 <= n <= 31
  {
    if month == 2 then (if IsLeap(year) then 29 else 28)
    else if month == 4 || month == 6 || month == 9 || month == 11 then 30
    else 31
  }

  /** What datetime.date accepts. */
  predicate ValidDate(d: Date)
  {
    1 <= d.year <= 9999 && 1 <= d.month <= 12 && 1 <= d.day <= DaysInMonth(d.year, d.month)
  }

  /** What datetime.datetime accepts (microseconds are not modelled). */
  predicate ValidDateTime(t: DateTime)
  {
    ValidDate(t.date) && 0 <= t.hour < 24 && 0 <= t.minute < 60 && 0 <= t.second < 60
  }

  function DaysInYear(year: int): int
  {
    if IsLeap(year) then 366 else 365
  }

  /** Days in the years before the given one, from year 1. */
  function DaysBeforeYear(year: int): int
    requires year >= 1
  {
    var y := year - 1;
    y * 365 + y / 4 - y / 100 + y / 400
  }

  /** Days in the months of the year before the given month (13 for the
      whole year): a table of cumulative month lengths plus the leap day. */
  function DaysBeforeMonth(year: int, month: int): int
    requires 1 <= month <= 13
  {
    var table := [0, 0, 31, 59, 90, 120, 151, 181, 212, 243, 273, 304, 334, 365];
    table[month] + if month > 2 && IsLeap(year) then 1 else 0
  }

  /** date.toordinal(): 1 for 1 January of year 1, one more for each following day. */
  function Ordinal(d: Date): int
    requires ValidDate(d)
  {
    DaysBeforeYear(d.year) + DaysBeforeMonth(d.year, d.month) + d.day
  }

  /** The position of a naive date-time on a scale of seconds; the
      difference of two of them is the timedelta Python computes. */
  function Seconds(t: DateTime): int
    requires ValidDateTime(t)
  {
    Ordinal(t.date) * SECONDS_PER_DAY + t.hour * SECONDS_PER_HOUR + t.minute * SECONDS_PER_MINUTE + t.second
  }

  /** The most days a timedelta holds, either way. */
  const MAX_DELTA_DAYS := 999999999

  /** The range of a C int, through which CPython passes a day count. */
  const C_INT_MIN := -0x8000_0000
  const C_INT_MAX := 0x7FFF_FFFF

  /** datetime.timedelta of a whole number of seconds: its length, or the
      OverflowError CPython raises when the day count (seconds // 86400)
      does not fit a C int, or fits one but exceeds the largest timedelta. */
  function Timedelta(seconds: int): (r: Result<int>)
    ensures r.Ok? ==> r.value == seconds
    ensures r.Err? ==> r.error.Overflow?
  {
    var days := seconds / SECONDS_PER_DAY;
    if days < C_INT_MIN || days > C_INT_MAX then Err(Overflow("Python int too large to convert to C int"))
    else if days < -MAX_DELTA_DAYS || days > MAX_DELTA_DAYS then
      Err(Overflow("days=" + IntToString(days) + "; must have magnitude <= 999999999"))
    else Ok(seconds)
  }

  /** timedelta(days=n) fits exactly when n has magnitude at most
      999999999; timedelta(hours=n) when n // 24 does, that is, for n from
      -23999999976 to 23999999999. */
  lemma TimedeltaRange(n: int)
    ensures Timedelta(n * SECONDS_PER_DAY).Ok? <==> -MAX_DELTA_DAYS <= n <= MAX_DELTA_DAYS
    ensures Timedelta(n * SECONDS_PER_HOUR).Ok? <==> -23999999976 <= n <= 23999999999
  {
    assert (n * SECONDS_PER_DAY) / SECONDS_PER_DAY == n;
    var d := (n * SECONDS_PER_HOUR) / SECONDS_PER_DAY;
    assert d == n / 24;
    assert -MAX_DELTA_DAYS <= d <= MAX_DELTA_DAYS <==> -23999999976 <= n <= 23999999999;
  }

  /** The message of a timedelta whose day count fits a C int but not a
      timedelta names that count. */
  lemma TimedeltaMessage(n: int)
    requires MAX_DELTA_DAYS < n <= C_INT_MAX
    ensures Timedelta(n * SECONDS_PER_DAY)
         == Err(Overflow("days=" + IntToString(n) + "; must have magnitude <= 999999999"))
  {
    assert (n * SECONDS_PER_DAY) / SECONDS_PER_DAY == n;
  }

  /** The calendar day after d. */
  function NextDay(d: Date): Date
    requires ValidDate(d)
  {
    if d.day < DaysInMonth(d.year, d.month) then Date(d.year, d.month, d.day + 1)
    else if d.month < 12 then Date(d.year, d.month + 1, 1)
    else Date(d.year + 1, 1, 1)
  }

  /** Counting the multiples of d up to y, for the divisors of the
      Gregorian rule: one more exactly when y + 1 is one. */
  lemma DivStep(y: int, d: int)
    requires y >= 0 && (d == 4 || d == 100 || d == 400)
    ensures (y + 1) / d == y / d + (if (y + 1) % d == 0 then 1 else 0)
  {
    if d == 4 {
      assert (y + 1) / 4 == y / 4 + (if (y + 1) % 4 == 0 then 1 else 0);
    } else if d == 100 {
      assert (y + 1) / 100 == y / 100 + (if (y + 1) % 100 == 0 then 1 else 0);
    } else {
      assert (y + 1) / 400 == y / 400 + (if (y + 1) % 400 == 0 then 1 else 0);
    }
  }

  /** A multiple of 100 is a multiple of 4, and one of 400 a multiple of 100. */
  lemma CenturyDivisors(year: int)
    ensures year % 100 == 0 ==> year % 4 == 0
    ensures year % 400 == 0 ==> year % 100 == 0
  {
    if year % 100 == 0 {
      var k := year / 100;
      assert year == 4 * (25 * k);
    }
    if year % 400 == 0 {
      var k := year / 400;
      assert year == 100 * (4 * k);
    }
  }

  lemma DaysBeforeYearStep(year: int)
    requires year >= 1
    ensures DaysBeforeYear(year + 1) == DaysBeforeYear(year) + DaysInYear(year)
  {
    DivStep(year - 1, 4);
    DivStep(year - 1, 100);
    DivStep(year - 1, 400);
    CenturyDivisors(year);
  }

  /** Day numbers count days: the day after d has the next ordinal. */
  lemma OrdinalOfNextDay(d: Date)
    requires ValidDate(d) && d.year < 9999
    ensures ValidDate(NextDay(d))
    ensures Ordinal(NextDay(d)) == Ordinal(d) + 1
  {
    if d.day == DaysInMonth(d.year, d.month) && d.month == 12 {
      DaysBeforeYearStep(d.year);
    }
  }

  function Pow10(n: nat): (p: nat)
    ensures p >= 1
  {
    if n == 0 then 1 else 10 * Pow10(n - 1)
  }

  /** The last `width` decimal digits of n, zero-padded: strftime's %Y, %m,
      %d, %H, %M and %S. */
  function Pad(n: nat, width: nat): (s: string)
    ensures |s| == width
    ensures forall i :: 0 <= i < |s| ==> IsDigit(s[i])
  {
    if width == 0 then [] else Pad(n / 10, width - 1) + [DigitChar(n % 10)]
  }

  /** A number that fits in the width is rendered exactly. */
  lemma {:induction false} PadValue(n: nat, width: nat)
    requires n < Pow10(width)
    ensures DigitsValue(Pad(n, width)) == n
  {
    if width > 0 {
      var s := Pad(n, width);
      assert s[..|s| - 1] == Pad(n / 10, width - 1);
      PadValue(n / 10, width - 1);
    }
  }

  /** strftime('%Y%m%d') */
  function DatePart(d: Date): (s: string)
    requires ValidDate(d)
    ensures |s| == 8
  {
    Pad(d.year, 4) + Pad(d.month, 2) + Pad(d.day, 2)
  }

  /** strftime('%H%M%S') */
  function TimePart(t: DateTime): (s: string)
    requires ValidDateTime(t)
    ensures |s| == 6
  {
    Pad(t.hour, 2) + Pad(t.minute, 2) + Pad(t.second, 2)
  }

  /** strftime('%Y%m%d_%H%M%S') */
  function Stamp(t: DateTime): (s: string)
    requires ValidDateTime(t)
    ensures |s| == 15
  {
    DatePart(t.date) + "_" + TimePart(t)
  }

  predicate AllDigits(s: string)
  {
    forall i :: 0 <= i < |s| ==> IsDigit(s[i])
  }

  lemma AllDigitsSlices(s: string)
    requires AllDigits(s)
    ensures forall i, j :: 0 <= i <= j <= |s| ==> DigitsOrUnderscores(s[i..j])
  {
  }

  /** Reads back three fixed-width digit fields. */
  function Fields(s: string, w1: nat, w2: nat): (r: (nat, nat, nat))
    requires AllDigits(s) && w1 + w2 <= |s|
  {
    AllDigitsSlices(s);
    (DigitsValue(s[..w1]), DigitsValue(s[w1..w1 + w2]), DigitsValue(s[w1 + w2..]))
  }

  /** Reads back the fields of a stamp; None when the text is not one. */
  function ParseStamp(s: string): (r: Option<DateTime>)
    ensures r.Some? ==> |s| == 15
  {
    if |s| == 15 && s[8] == '_' && AllDigits(s[..8]) && AllDigits(s[9..]) then
      var (y, mo, d) := Fields(s[..8], 4, 2);
      var (h, mi, se) := Fields(s[9..], 2, 2);
      Some(DateTime(Date(y, mo, d), h, mi, se))
    else None
  }

  lemma Parts(a: string, b: string, c: string)
    ensures (a + b + c)[..|a|] == a
    ensures (a + b + c)[|a|..|a| + |b|] == b
    ensures (a + b + c)[|a| + |b|..] == c
  {
  }

  /** Three digit texts laid end to end read back as their three values. */
  lemma FieldsOfParts(a: string, b: string, c: string)
    requires AllDigits(a) && AllDigits(b) && AllDigits(c)
    ensures AllDigits(a + b + c)
    ensures Fields(a + b + c, |a|, |b|) == (DigitsValue(a), DigitsValue(b), DigitsValue(c))
  {
    var s := a + b + c;
    assert AllDigits(s) by {
      forall i | 0 <= i < |s|
        ensures IsDigit(s[i])
      {
        if i < |a| {
          assert s[i] == a[i];
        } else if i < |a| + |b| {
          assert s[i] == b[i - |a|];
        } else {
          assert s[i] == c[i - |a| - |b|];
        }
      }
    }
    Parts(a, b, c);
  }

  lemma FieldsOfPads(x: nat, w1: nat, y: nat, w2: nat, z: nat, w3: nat)
    requires x < Pow10(w1) && y < Pow10(w2) && z < Pow10(w3)
    ensures AllDigits(Pad(x, w1) + Pad(y, w2) + Pad(z, w3))
    ensures Fields(Pad(x, w1) + Pad(y, w2) + Pad(z, w3), w1, w2) == (x, y, z)
  {
    var a, b, c := Pad(x, w1), Pad(y, w2), Pad(z, w3);
    assert AllDigits(a) && AllDigits(b) && AllDigits(c);
    FieldsOfParts(a, b, c);
    PadValue(x, w1);
    PadValue(y, w2);
    PadValue(z, w3);
  }

  /** The stamp of a date-time determines it: reading it back gives the
      date-time it was made from. */
  lemma StampRoundTrip(t: DateTime)
    requires ValidDateTime(t)
    ensures ParseStamp(Stamp(t)) == Some(t)
  {
    assert Pow10(2) == 100 && Pow10(4) == 10000;
    Parts(DatePart(t.date), "_", TimePart(t));
    FieldsOfPads(t.date.year, 4, t.date.month, 2, t.date.day, 2);
    FieldsOfPads(t.hour, 2, t.minute, 2, t.second, 2);
  }

  /** Distinct date-times never share a stamp. */
  lemma StampInjective(a: DateTime, b: DateTime)
    requires ValidDateTime(a) && ValidDateTime(b)
    requires Stamp(a) == Stamp(b)
    ensures a == b
  {
    StampRoundTrip(a);
    StampRoundTrip(b);
  }

  /** time.strftime("%H:%M") */
  function ClockText(hour: nat, minute: nat): (s: string)
    ensures |s| == 5 && s[2] == ':'
  {
    Pad(hour, 2) + ":" + Pad(minute, 2)
  }

  /** Reads "HH:MM" back into an hour and a minute; None for any other text. */
  function ParseClock(s: string): Option<(nat, nat)>
  {
    if |s| == 5 && s[2] == ':' && AllDigits(s[..2]) && AllDigits(s[3..]) then
      Some((DigitsValue(s[..2]), DigitsValue(s[3..])))
    else None
  }

  /** The clock text of a time of day gives that time back. */
  lemma ClockTextRoundTrip(hour: nat, minute: nat)
    requires hour < 24 && minute < 60
    ensures ParseClock(ClockText(hour, minute)) == Some((hour, minute))
  {
    assert Pow10(2) == 100;
    var s := ClockText(hour, minute);
    Parts(Pad(hour, 2), ":", Pad(minute, 2));
    assert s[..2] == Pad(hour, 2) && s[3..] == Pad(minute, 2);
    PadValue(hour, 2);
    PadValue(minute, 2);
  }

  /** Two times of day never read alike on the clock. */
  lemma ClockTextInjective(h1: nat, m1: nat, h2: nat, m2: nat)
    requires h1 < 24 && m1 < 60 && h2 < 24 && m2 < 60
    requires ClockText(h1, m1) == ClockText(h2, m2)
    ensures h1 == h2 && m1 == m2
  {
    ClockTextRoundTrip(h1, m1);
    ClockTextRoundTrip(h2, m2);
  }
}
