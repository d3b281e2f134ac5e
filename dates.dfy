/** `format_timestamp`: seconds since the Unix epoch to a coarse `YYYY-MM-DD`
    string, computed with 365-day years and 30-day months. */
module Dates {
  import opened Wrappers
  import opened Text

  const SECONDS_PER_DAY: nat := 86400

  datatype CoarseDate = CoarseDate(year: nat, month: nat, day: nat)

  /** The year, month and day fields of the coarse calendar; the month is
      clamped to 12 and the day to 31 (the latter never bites). */
  function CoarseDateOf(timestamp: nat): (d: CoarseDate)
    ensures d.year >= 1970 && 1 <= d.month <= 12 && 1 <= d.day <= 30
  {
    var days := timestamp / SECONDS_PER_DAY;
    var dayOfYear := days % 365;
    CoarseDate(1970 + days / 365, Min(dayOfYear / 30 + 1, 12), Min(dayOfYear % 30 + 1, 31))
  }

  /** `{:0w}`: left-pads a numeral with zeros up to `width` characters. */
  function ZeroPad(s: string, width: nat): string
    decreases width - |s|
  {
    if |s| >= width then s else ZeroPad("0" + s, width)
  }

  function FormatDate(d: CoarseDate): string {
    ZeroPad(Decimal(d.year), 4) + "-" + ZeroPad(Decimal(d.month), 2) + "-" + ZeroPad(Decimal(d.day), 2)
  }

  /** `format_timestamp`. A negative `i64` cast to `u64` is at least 2^63
      seconds, which `UNIX_EPOCH.checked_add` rejects where system time is a
      signed 64-bit count of seconds, so it prints "unknown". */
  function FormatTimestamp(timestamp: int): (r: string)
    ensures timestamp < 0 <==> r == "unknown"
  {
    if timestamp < 0 then "unknown"
    else
      var d := CoarseDateOf(timestamp);
      var r := FormatDate(d);
      assert r[|ZeroPad(Decimal(d.year), 4)|] == '-';
      r
  }

  /** Reads a `Y-M-D` string of three digit groups back into its fields. */
  function ReadDate(s: string): Option<CoarseDate> {
    var parts := Split(s, '-');
    if |parts| == 3 && parts[0] != [] && parts[1] != [] && parts[2] != []
       && AllDigits(parts[0]) && AllDigits(parts[1]) && AllDigits(parts[2])
    then Some(CoarseDate(DigitsValue(parts[0]), DigitsValue(parts[1]), DigitsValue(parts[2])))
    else None
  }

  /** The day count since the epoch that a coarse date stands for. */
  function DayNumber(d: CoarseDate): int {
    (d.year - 1970) * 365 + (d.month - 1) * 30 + (d.day - 1)
  }

  lemma {:induction false} ZeroPadded(s: string, width: nat)
    requires s != [] && AllDigits(s)
    ensures var r := ZeroPad(s, width);
      AllDigits(r) && DigitsValue(r) == DigitsValue(s)
      && |r| == (if |s| >= width then |s| else width)
    decreases width - |s|
  {
    if |s| < width {
      LeadingZeros("0", s);
      ZeroPadded("0" + s, width);
    }
  }

  lemma DecimalLength(n: nat)
    ensures n < 10 ==> |Decimal(n)| == 1
    ensures 10 <= n < 100 ==> |Decimal(n)| == 2
    ensures n >= 1000 ==> |Decimal(n)| >= 4
  {
    if n >= 1000 {
      assert n / 10 >= 100 && n / 100 >= 10 && n / 1000 >= 1;
      assert Decimal(n) == Decimal(n / 10) + [DigitChar(n % 10)];
      assert Decimal(n / 10) == Decimal(n / 10 / 10) + [DigitChar(n / 10 % 10)];
      assert Decimal(n / 10 / 10) == Decimal(n / 10 / 10 / 10) + [DigitChar(n / 10 / 10 % 10)];
    }
  }

  lemma DigitsHaveNoDash(s: string)
    requires AllDigits(s)
    ensures '-' !in s
  {
    forall k | 0 <= k < |s| ensures s[k] != '-' {
      assert IsDigit(s[k]);
    }
  }

  /** A formatted date reads back as the same fields: a four-or-more digit
      year, then a two-digit month and a two-digit day. */
  lemma ReadFormattedDate(d: CoarseDate)
    requires d.year >= 1000 && d.month < 100 && d.day < 100
    ensures ReadDate(FormatDate(d)) == Some(d)
    ensures var parts := Split(FormatDate(d), '-');
      |parts| == 3 && |parts[0]| >= 4 && |parts[1]| == 2 && |parts[2]| == 2
  {
    var y, m, dd := ZeroPad(Decimal(d.year), 4), ZeroPad(Decimal(d.month), 2), ZeroPad(Decimal(d.day), 2);
    ZeroPadded(Decimal(d.year), 4);
    ZeroPadded(Decimal(d.month), 2);
    ZeroPadded(Decimal(d.day), 2);
    DecimalLength(d.year);
    DecimalRoundTrip(d.year);
    DecimalRoundTrip(d.month);
    DecimalRoundTrip(d.day);
    DigitsHaveNoDash(y);
    DigitsHaveNoDash(m);
    DigitsHaveNoDash(dd);
    var parts := [y, m, dd];
    assert Join(parts, '-') == y + "-" + m + "-" + dd by {
      assert parts[1..] == [m, dd];
      assert parts[1..][1..] == [dd];
      assert Join([dd], '-') == dd;
      assert Join([m, dd], '-') == m + ['-'] + dd;
      assert Join(parts, '-') == y + ['-'] + (m + ['-'] + dd);
    }
    assert FormatDate(d) == y + "-" + m + "-" + dd;
    SplitJoin(parts, '-');
  }

  /** Every non-negative timestamp prints as a date that reads back as its
      coarse year, month (1..12) and day (1..30). */
  lemma FormatTimestampReadsBack(timestamp: nat)
    ensures ReadDate(FormatTimestamp(timestamp)) == Some(CoarseDateOf(timestamp))
  {
    ReadFormattedDate(CoarseDateOf(timestamp));
  }

  /** The coarse calendar counts days exactly for the first 360 days of each
      365-day year; the last five days are all shown as December 1 to 5. */
  lemma CoarseDateCountsDays(timestamp: nat)
    ensures var days := timestamp / SECONDS_PER_DAY;
      var d := CoarseDateOf(timestamp);
      if days % 365 < 360 then DayNumber(d) == days
      else d.month == 12 && d.day == days % 365 - 359 && d.year == 1970 + days / 365
  {
    var days := timestamp / SECONDS_PER_DAY;
    var dayOfYear := days % 365;
    assert days == (days / 365) * 365 + dayOfYear;
    assert dayOfYear == (dayOfYear / 30) * 30 + dayOfYear % 30;
    if dayOfYear >= 360 {
      assert dayOfYear / 30 == 12;
    } else {
      assert dayOfYear / 30 <= 11;
    }
  }

  /** The clamp makes the calendar repeat: day 330 + k and day 360 + k of the
      same coarse year (k < 5) print identically. */
  lemma DecemberRepeats(year: nat, k: nat)
    requires k < 5
    ensures CoarseDateOf(((year * 365) + 330 + k) * SECONDS_PER_DAY)
         == CoarseDateOf(((year * 365) + 360 + k) * SECONDS_PER_DAY)
  {
    var a := (year * 365) + 330 + k;
    var b := (year * 365) + 360 + k;
    assert a * SECONDS_PER_DAY / SECONDS_PER_DAY == a;
    assert b * SECONDS_PER_DAY / SECONDS_PER_DAY == b;
    assert a / 365 == year && a % 365 == 330 + k;
    assert b / 365 == year && b % 365 == 360 + k;
  }
}
