/** The `date_format:Y-m-d H:i:s` validation rule and the conversion of an
    accepted value to the timestamp stored in `posts.published_at`.

    The framework accepts a value when parsing it with that format and
    formatting the parsed date again gives back the very same text; so the
    accepted strings are exactly the formatted images of real calendar
    dates with a four-digit year. `ParseAccepts` proves that `Parse` has this
    shape, and `TimestampMonotonic` that the stored timestamps order dates
    chronologically. */
module DateFormat {
  import opened Types

  datatype DateTime = DateTime(year: nat, month: nat, day: nat,
                               hour: nat, minute: nat, second: nat)

  /** Proleptic Gregorian leap years (year 0 is one). */
  predicate IsLeapYear(y: nat) {
    y % 4 == 0 && (y % 100 != 0 || y % 400 == 0)
  }

  function DaysInMonth(y: nat, m: nat): (n: nat)
    requires 1 <= m <= 12
    ensures 28 <= n <= 31
    ensures m == 2 ==> (n == 29 <==> IsLeapYear(y))
  {
    if m == 2 then (if IsLeapYear(y) then 29 else 28)
    else if m == 4 || m == 6 || m == 9 || m == 11 then 30
    else 31
  }

  function DaysInYear(y: nat): nat {
    if IsLeapYear(y) then 366 else 365
  }

  /** A date that `Y-m-d H:i:s` can write and read back unchanged. */
  predicate ValidDateTime(d: DateTime) {
    && d.year <= 9999
    && 1 <= d.month <= 12
    && 1 <= d.day <= DaysInMonth(d.year, d.month)
    && d.hour < 24 && d.minute < 60 && d.second < 60
  }

  predicate IsDigit(c: char) {
    '0' <= c <= '9'
  }

  function DigitChar(n: nat): (c: char)
    requires n < 10
    ensures IsDigit(c)
  {
    (48 + n) as char
  }

  function DigitValue(c: char): (n: nat)
    requires IsDigit(c)
    ensures n < 10 && DigitChar(n) == c
  {
    c as int - 48
  }

  /** Zero-padded decimal text of `n` in two and in four digits. */
  function Two(n: nat): string
    requires n < 100
  {
    [DigitChar(n / 10), DigitChar(n % 10)]
  }

  function Four(n: nat): string
    requires n < 10000
  {
    Two(n / 100) + Two(n % 100)
  }

  function Format(d: DateTime): (s: string)
    requires ValidDateTime(d)
    ensures |s| == 19
  {
    Four(d.year) + "-" + Two(d.month) + "-" + Two(d.day) + " " +
    Two(d.hour) + ":" + Two(d.minute) + ":" + Two(d.second)
  }

  /** The positions of `Y-m-d H:i:s` that hold separators rather than digits. */
  predicate IsSeparatorPosition(i: int) {
    i == 4 || i == 7 || i == 10 || i == 13 || i == 16
  }

  predicate HasShape(s: string) {
    && |s| == 19
    && (forall i :: 0 <= i < 19 && !IsSeparatorPosition(i) ==> IsDigit(s[i]))
    && s[4] == '-' && s[7] == '-' && s[10] == ' ' && s[13] == ':' && s[16] == ':'
  }

  function Num2(s: string, i: nat): (n: nat)
    requires i + 2 <= |s| && IsDigit(s[i]) && IsDigit(s[i + 1])
    ensures n < 100
  {
    10 * DigitValue(s[i]) + DigitValue(s[i + 1])
  }

  function Num4(s: string, i: nat): (n: nat)
    requires i + 4 <= |s|
    requires IsDigit(s[i]) && IsDigit(s[i + 1]) && IsDigit(s[i + 2]) && IsDigit(s[i + 3])
    ensures n < 10000
  {
    100 * Num2(s, i) + Num2(s, i + 2)
  }

  /** Reads `s` with the format `Y-m-d H:i:s`; `None` when the text does not
      have that shape or names no real date and time. */
  function Parse(s: string): Option<DateTime> {
    if !HasShape(s) then None
    else
      var d := DateTime(Num4(s, 0), Num2(s, 5), Num2(s, 8),
                        Num2(s, 11), Num2(s, 14), Num2(s, 17));
      if ValidDateTime(d) then Some(d) else None
  }

  lemma TwoDigits(n: nat)
    requires n < 100
    ensures IsDigit(Two(n)[0]) && IsDigit(Two(n)[1]) && Num2(Two(n), 0) == n
  {
  }

  lemma FourDigits(n: nat)
    requires n < 10000
    ensures forall i :: 0 <= i < 4 ==> IsDigit(Four(n)[i])
    ensures Num4(Four(n), 0) == n
  {
    TwoDigits(n / 100);
    TwoDigits(n % 100);
    var s := Four(n);
    assert s[..2] == Two(n / 100) && s[2..] == Two(n % 100);
    assert Num2(s, 0) == Num2(Two(n / 100), 0);
    assert Num2(s, 2) == Num2(Two(n % 100), 0);
  }

  lemma TwoOfDigits(s: string, i: nat)
    requires i + 2 <= |s| && IsDigit(s[i]) && IsDigit(s[i + 1])
    ensures Two(Num2(s, i)) == s[i..i + 2]
  {
    var a, b := DigitValue(s[i]), DigitValue(s[i + 1]);
    assert (10 * a + b) / 10 == a && (10 * a + b) % 10 == b;
  }

  lemma FourOfDigits(s: string, i: nat)
    requires i + 4 <= |s|
    requires IsDigit(s[i]) && IsDigit(s[i + 1]) && IsDigit(s[i + 2]) && IsDigit(s[i + 3])
    ensures Four(Num4(s, i)) == s[i..i + 4]
  {
    var hi, lo := Num2(s, i), Num2(s, i + 2);
    assert (100 * hi + lo) / 100 == hi && (100 * hi + lo) % 100 == lo;
    TwoOfDigits(s, i);
    TwoOfDigits(s, i + 2);
  }

  /** Formatting a valid date and reading it back gives the date. */
  lemma {:induction false} ParseFormat(d: DateTime)
    requires ValidDateTime(d)
    ensures Parse(Format(d)) == Some(d)
  {
    var s := Format(d);
    FourDigits(d.year);
    TwoDigits(d.month); TwoDigits(d.day);
    TwoDigits(d.hour); TwoDigits(d.minute); TwoDigits(d.second);
    assert s[0..4] == Four(d.year);
    assert s[5..7] == Two(d.month) && s[8..10] == Two(d.day);
    assert s[11..13] == Two(d.hour) && s[14..16] == Two(d.minute) && s[17..19] == Two(d.second);
    assert HasShape(s);
    assert Num4(s, 0) == Num4(Four(d.year), 0);
    assert Num2(s, 5) == Num2(Two(d.month), 0) && Num2(s, 8) == Num2(Two(d.day), 0);
    assert Num2(s, 11) == Num2(Two(d.hour), 0) && Num2(s, 14) == Num2(Two(d.minute), 0);
    assert Num2(s, 17) == Num2(Two(d.second), 0);
  }

  /** Every text that `Parse` accepts is the formatted form of what it read. */
  lemma {:induction false} FormatParse(s: string)
    requires Parse(s).Some?
    ensures ValidDateTime(Parse(s).value) && Format(Parse(s).value) == s
  {
    var d := Parse(s).value;
    FourOfDigits(s, 0);
    TwoOfDigits(s, 5); TwoOfDigits(s, 8);
    TwoOfDigits(s, 11); TwoOfDigits(s, 14); TwoOfDigits(s, 17);
    var f := Format(d);
    assert f[0..4] == s[0..4];
    assert f[5..7] == s[5..7] && f[8..10] == s[8..10];
    assert f[11..13] == s[11..13] && f[14..16] == s[14..16] && f[17..19] == s[17..19];
    forall i | 0 <= i < 19 ensures f[i] == s[i] {
      if i < 4 { assert f[i] == f[0..4][i]; assert s[i] == s[0..4][i]; }
      else if 5 <= i < 7 { assert f[i] == f[5..7][i - 5]; assert s[i] == s[5..7][i - 5]; }
      else if 8 <= i < 10 { assert f[i] == f[8..10][i - 8]; assert s[i] == s[8..10][i - 8]; }
      else if 11 <= i < 13 { assert f[i] == f[11..13][i - 11]; assert s[i] == s[11..13][i - 11]; }
      else if 14 <= i < 16 { assert f[i] == f[14..16][i - 14]; assert s[i] == s[14..16][i - 14]; }
      else if 17 <= i < 19 { assert f[i] == f[17..19][i - 17]; assert s[i] == s[17..19][i - 17]; }
    }
  }

  /** The rule accepts exactly the formatted images of valid dates, and reads
      each one back as the date it was formatted from. */
  lemma ParseAccepts(s: string, d: DateTime)
    ensures Parse(s) == Some(d) <==> ValidDateTime(d) && Format(d) == s
  {
    if Parse(s) == Some(d) {
      FormatParse(s);
    }
    if ValidDateTime(d) && Format(d) == s {
      ParseFormat(d);
    }
  }

  // Timestamps: seconds elapsed since 0000-01-01 00:00:00 on the same clock.

  function DaysBeforeYear(y: nat): nat {
    if y == 0 then 0 else DaysBeforeYear(y - 1) + DaysInYear(y - 1)
  }

  function DaysBeforeMonth(y: nat, m: nat): nat
    requires 1 <= m <= 13
  {
    if m == 1 then 0 else DaysBeforeMonth(y, m - 1) + DaysInMonth(y, m - 1)
  }

  function ToTimestamp(d: DateTime): int
    requires ValidDateTime(d)
  {
    var days := DaysBeforeYear(d.year) + DaysBeforeMonth(d.year, d.month) + d.day - 1;
    ((days * 24 + d.hour) * 60 + d.minute) * 60 + d.second
  }

  /** Chronological order of two dates: by year, then month, day, hour,
      minute and second. */
  predicate Before(a: DateTime, b: DateTime) {
    || a.year < b.year
    || (a.year == b.year && a.month < b.month)
    || (a.year == b.year && a.month == b.month && a.day < b.day)
    || (a.year == b.year && a.month == b.month && a.day == b.day && a.hour < b.hour)
    || (a.year == b.year && a.month == b.month && a.day == b.day && a.hour == b.hour
        && a.minute < b.minute)
    || (a.year == b.year && a.month == b.month && a.day == b.day && a.hour == b.hour
        && a.minute == b.minute && a.second < b.second)
  }

  lemma {:induction false} DaysBeforeMonthGrows(y: nat, m: nat, n: nat)
    requires 1 <= m <= n <= 13
    ensures DaysBeforeMonth(y, m) <= DaysBeforeMonth(y, n)
    decreases n - m
  {
    if m < n {
      DaysBeforeMonthGrows(y, m, n - 1);
    }
  }

  lemma {:induction false} MonthsFillYear(y: nat)
    ensures DaysBeforeMonth(y, 13) == DaysInYear(y)
  {
    assert DaysBeforeMonth(y, 1) == 0;
    assert DaysBeforeMonth(y, 2) == 31;
    assert DaysBeforeMonth(y, 3) == 31 + DaysInMonth(y, 2);
    assert DaysBeforeMonth(y, 5) == DaysBeforeMonth(y, 3) + 61;
    assert DaysBeforeMonth(y, 7) == DaysBeforeMonth(y, 5) + 61;
    assert DaysBeforeMonth(y, 9) == DaysBeforeMonth(y, 7) + 62;
    assert DaysBeforeMonth(y, 11) == DaysBeforeMonth(y, 9) + 61;
    assert DaysBeforeMonth(y, 13) == DaysBeforeMonth(y, 11) + 61;
  }

  lemma {:induction false} DaysBeforeYearGrows(y: nat, z: nat)
    requires y < z
    ensures DaysBeforeYear(y) + DaysInYear(y) <= DaysBeforeYear(z)
    decreases z - y
  {
    if y + 1 < z {
      DaysBeforeYearGrows(y, z - 1);
    }
  }

  /** The day number of a date, counted from 0000-01-01. */
  function DayNumber(d: DateTime): nat
    requires ValidDateTime(d)
  {
    DaysBeforeYear(d.year) + DaysBeforeMonth(d.year, d.month) + d.day - 1
  }

  lemma DayNumberWithinYear(d: DateTime)
    requires ValidDateTime(d)
    ensures DaysBeforeYear(d.year) <= DayNumber(d) < DaysBeforeYear(d.year) + DaysInYear(d.year)
  {
    DaysBeforeMonthGrows(d.year, d.month + 1, 13);
    MonthsFillYear(d.year);
  }

  lemma DayNumberMonotonic(a: DateTime, b: DateTime)
    requires ValidDateTime(a) && ValidDateTime(b)
    requires a.year < b.year || (a.year == b.year && (a.month < b.month || (a.month == b.month && a.day < b.day)))
    ensures DayNumber(a) < DayNumber(b)
  {
    if a.year < b.year {
      DayNumberWithinYear(a);
      DayNumberWithinYear(b);
      DaysBeforeYearGrows(a.year, b.year);
    } else if a.month < b.month {
      DaysBeforeMonthGrows(a.year, a.month + 1, b.month);
    }
  }

  /** Stored timestamps compare as the dates they were parsed from: an
      earlier date always gets a smaller timestamp. */
  lemma TimestampMonotonic(a: DateTime, b: DateTime)
    requires ValidDateTime(a) && ValidDateTime(b)
    ensures Before(a, b) ==> ToTimestamp(a) < ToTimestamp(b)
    ensures a == b <==> ToTimestamp(a) == ToTimestamp(b)
  {
    var da, db := DayNumber(a), DayNumber(b);
    var ta := (a.hour * 60 + a.minute) * 60 + a.second;
    var tb := (b.hour * 60 + b.minute) * 60 + b.second;
    assert ToTimestamp(a) == da * 86400 + ta;
    assert ToTimestamp(b) == db * 86400 + tb;
    assert 0 <= ta < 86400 && 0 <= tb < 86400;
    if a.year < b.year || (a.year == b.year && (a.month < b.month || (a.month == b.month && a.day < b.day))) {
      DayNumberMonotonic(a, b);
    } else if b.year < a.year || (b.year == a.year && (b.month < a.month || (b.month == a.month && b.day < a.day))) {
      DayNumberMonotonic(b, a);
    } else {
      assert da == db;
    }
  }
}
