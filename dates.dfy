/**
 * Calendar dates as Person.java reads them: `LocalDate.parse(text,
 * ofPattern("dd-MM-yyyy"))` and the year part of `Period.between`.
 */
module Dates {
  import opened JavaText

  datatype Option<T> = None | Some(value: T)

  /** A proleptic Gregorian date; `ValidDate` says when it is a real one. */
  datatype Date = Date(year: int, month: int, day: int)

  predicate IsLeapYear(y: int) {
    y % 4 == 0 && (y % 100 != 0 || y % 400 == 0)
  }

  function DaysInMonth(y: int, m: int): (n: int)
    requires 1 <= m <= 12
    ensures 28 <= n <= 31
    ensures n == 31 <==> m in {1, 3, 5, 7, 8, 10, 12}
    ensures m == 2 ==> (n == 29 <==> IsLeapYear(y))
  {
    if m == 2 then (if IsLeapYear(y) then 29 else 28)
    else if m == 4 || m == 6 || m == 9 || m == 11 then 30
    else 31
  }

  predicate ValidDate(d: Date) {
    1 <= d.month <= 12 && 1 <= d.day <= DaysInMonth(d.year, d.month)
  }

  /**
   * Two digits, '-', two digits, '-', four digits: the regex
   * `^\d{2}-\d{2}-\d{4}$`, which is also the text shape of an unsigned
   * `dd-MM-yyyy` date.
   */
  predicate DateShape(s: string) {
    && |s| == 10
    && s[2] == '-' && s[5] == '-'
    && IsDigit(s[0]) && IsDigit(s[1])
    && IsDigit(s[3]) && IsDigit(s[4])
    && IsDigit(s[6]) && IsDigit(s[7]) && IsDigit(s[8]) && IsDigit(s[9])
  }

  /** The decimal value of the digits `s[lo..hi]`. */
  function Number(s: string, lo: nat, hi: nat): (n: nat)
    requires lo <= hi <= |s|
    requires forall k :: lo <= k < hi ==> IsDigit(s[k])
    decreases hi - lo
  {
    if lo == hi then 0 else 10 * Number(s, lo, hi - 1) + DigitValue(s[hi - 1])
  }

  /**
   * `LocalDate.parse(s, ofPattern("dd-MM-yyyy"))` with the default SMART
   * resolver: the month must be 1..12, the day 1..31 and the year of era at
   * least 1; a day past the end of its month becomes the month's last day.
   */
  function ParseDate(s: string): (r: Option<Date>)
    ensures r.Some? ==> DateShape(s) && ValidDate(r.value) && 1 <= r.value.year <= 9999
  {
    if !DateShape(s) then None
    else
      var day, month, year := Number(s, 0, 2), Number(s, 3, 5), Number(s, 6, 10);
      if month < 1 || month > 12 || day < 1 || day > 31 || year < 1 then None
      else
        var last := DaysInMonth(year, month);
        Some(Date(year, month, if day <= last then day else last))
  }

  /** The ASCII digit for `n`. */
  function Digit(n: nat): (c: char)
    requires n <= 9
    ensures IsDigit(c) && DigitValue(c) == n
  {
    ('0' as int + n) as char
  }

  /** A date written in the `dd-MM-yyyy` pattern. */
  function Format(d: Date): (s: string)
    requires ValidDate(d) && 1 <= d.year <= 9999
    ensures DateShape(s)
  {
    [Digit(d.day / 10), Digit(d.day % 10), '-',
     Digit(d.month / 10), Digit(d.month % 10), '-',
     Digit(d.year / 1000), Digit(d.year / 100 % 10), Digit(d.year / 10 % 10), Digit(d.year % 10)]
  }

  /** Two digits read as a number. */
  lemma NumberOfTwo(s: string, lo: nat)
    requires lo + 2 <= |s| && IsDigit(s[lo]) && IsDigit(s[lo + 1])
    ensures Number(s, lo, lo + 2) == 10 * DigitValue(s[lo]) + DigitValue(s[lo + 1])
  {
    assert Number(s, lo, lo + 1) == DigitValue(s[lo]);
  }

  /** A year of at most four digits is the sum of its decimal digits times their place values. */
  lemma YearDigits(y: int)
    requires 0 <= y <= 9999
    ensures 1000 * (y / 1000) + 100 * (y / 100 % 10) + 10 * (y / 10 % 10) + y % 10 == y
  {
    var q := y / 10;
    assert y == 10 * q + y % 10;
    assert q / 10 == y / 100 && q % 10 == y / 10 % 10;
    assert q == 10 * (y / 100) + y / 10 % 10;
    assert y / 100 == 10 * (y / 1000) + y / 100 % 10;
  }

  /** Every real date of years 1..9999 is read back from its `dd-MM-yyyy` text. */
  lemma ParseFormat(d: Date)
    requires ValidDate(d) && 1 <= d.year <= 9999
    ensures ParseDate(Format(d)) == Some(d)
  {
    var s := Format(d);
    assert DateShape(s);
    NumberOfTwo(s, 0);
    NumberOfTwo(s, 3);
    NumberOfTwo(s, 6);
    var day, month, year := Number(s, 0, 2), Number(s, 3, 5), Number(s, 6, 10);
    assert day == d.day;
    assert month == d.month;
    assert year == d.year by {
      var a, b, c, e := d.year / 1000, d.year / 100 % 10, d.year / 10 % 10, d.year % 10;
      assert Number(s, 6, 8) == 10 * a + b;
      assert Number(s, 6, 9) == 100 * a + 10 * b + c;
      assert year == 1000 * a + 100 * b + 10 * c + e;
      YearDigits(d.year);
    }
    assert day <= DaysInMonth(year, month);
  }

  /**
   * A shaped text fails to parse exactly when its month is outside 1..12, its
   * day outside 1..31, or its year is 0000.
   */
  lemma ParseDateFails(s: string)
    requires DateShape(s)
    ensures ParseDate(s).None? <==>
      || !(1 <= Number(s, 3, 5) <= 12)
      || !(1 <= Number(s, 0, 2) <= 31)
      || Number(s, 6, 10) == 0
  {
  }

  /** An ASCII digit is the digit of its own value. */
  lemma DigitOfValue(c: char)
    requires IsDigit(c)
    ensures Digit(DigitValue(c)) == c
  {
  }

  /** Two digits that read as `n` are the digits of `n`. */
  lemma DigitsOfTwo(s: string, lo: nat)
    requires lo + 2 <= |s| && IsDigit(s[lo]) && IsDigit(s[lo + 1])
    ensures Number(s, lo, lo + 2) < 100
    ensures s[lo] == Digit(Number(s, lo, lo + 2) / 10)
    ensures s[lo + 1] == Digit(Number(s, lo, lo + 2) % 10)
  {
    NumberOfTwo(s, lo);
    DigitOfValue(s[lo]);
    DigitOfValue(s[lo + 1]);
  }

  /** The four digits of a year split at the hundreds. */
  lemma YearOfHalves(y: int, high: int, low: int)
    requires 0 <= high < 100 && 0 <= low < 100 && y == 100 * high + low
    ensures y / 1000 == high / 10 && y / 100 % 10 == high % 10
    ensures y / 10 % 10 == low / 10 && y % 10 == low % 10
  {
    assert y == 1000 * (high / 10) + 100 * (high % 10) + low;
    assert y / 10 == 10 * high + low / 10;
  }

  /** What a parsed date is made of: the text's month and year, and its day or the month's last day. */
  lemma ParsedFields(s: string, d: Date)
    requires ParseDate(s) == Some(d)
    ensures DateShape(s) && ValidDate(d) && 1 <= d.year <= 9999
    ensures d.month == Number(s, 3, 5) && d.year == Number(s, 6, 10)
    ensures d.day == Number(s, 0, 2) || d.day == DaysInMonth(d.year, d.month) < Number(s, 0, 2)
  {
  }

  /** A date whose month and year are read from a shaped text is written with the text's month and year digits. */
  lemma FormatTail(s: string, d: Date)
    requires DateShape(s) && ValidDate(d) && 1 <= d.year <= 9999
    requires d.month == Number(s, 3, 5) && d.year == Number(s, 6, 10)
    ensures Format(d)[2..] == s[2..]
  {
    var high, low := Number(s, 6, 8), Number(s, 8, 10);
    assert d.year == 100 * high + low by {
      NumberOfTwo(s, 8);
      assert Number(s, 6, 9) == 10 * high + DigitValue(s[8]);
    }
    DigitsOfTwo(s, 3);
    DigitsOfTwo(s, 6);
    DigitsOfTwo(s, 8);
    YearOfHalves(d.year, high, low);
    var f := Format(d);
    assert f[2..] == s[2..] by {
      forall k | 2 <= k < 10
        ensures f[k] == s[k]
      {
      }
    }
  }

  /** A date whose day is read from a shaped text is written with the text's day digits. */
  lemma FormatHead(s: string, d: Date)
    requires DateShape(s) && ValidDate(d) && 1 <= d.year <= 9999
    requires d.day == Number(s, 0, 2)
    ensures Format(d)[..2] == s[..2]
  {
    DigitsOfTwo(s, 0);
    var f := Format(d);
    assert f[0] == s[0] && f[1] == s[1];
  }

  /** The written form of a date made of a shaped text's fields, as `ParsedFields` describes them. */
  lemma FormatOfFields(s: string, d: Date)
    requires DateShape(s) && ValidDate(d) && 1 <= d.year <= 9999
    requires d.month == Number(s, 3, 5) && d.year == Number(s, 6, 10)
    requires d.day == Number(s, 0, 2) || d.day == DaysInMonth(d.year, d.month) < Number(s, 0, 2)
    ensures Format(d)[2..] == s[2..]
    ensures Format(d) == s || d.day == DaysInMonth(d.year, d.month) < Number(s, 0, 2)
  {
    FormatTail(s, d);
    var f := Format(d);
    if d.day == Number(s, 0, 2) {
      FormatHead(s, d);
      assert f == f[..2] + f[2..] && s == s[..2] + s[2..];
    }
  }

  /**
   * Conversely, the date a text parses to, written back as `dd-MM-yyyy`, has
   * the text's month and year; the day is the text's own, or the text names a
   * day past the end of the month and the date is that month's last day.
   */
  lemma FormatParse(s: string, d: Date)
    requires ParseDate(s) == Some(d)
    ensures Format(d)[2..] == s[2..]
    ensures Format(d) == s || d.day == DaysInMonth(d.year, d.month) < Number(s, 0, 2)
  {
    ParsedFields(s, d);
    FormatOfFields(s, d);
  }

  /** `LocalDate.getProlepticMonth`: months counted from January of year 0. */
  function ProlepticMonth(d: Date): int {
    d.year * 12 + d.month - 1
  }

  /** Java's `/` on a positive divisor, which rounds toward zero. */
  function JavaDiv(n: int, m: int): (q: int)
    requires m > 0
    ensures n >= 0 ==> q == n / m
    ensures n < 0 ==> q <= 0 && q * m >= n && q * m - m < n
  {
    if n >= 0 then n / m else -((-n) / m)
  }

  /**
   * `Period.between(birth, today).getYears()`: the month difference, less one
   * when the day of the month has not been reached yet (more one when the
   * period runs backwards), divided by 12 toward zero.
   */
  function AgeInYears(birth: Date, today: Date): int {
    var months := ProlepticMonth(today) - ProlepticMonth(birth);
    var days := today.day - birth.day;
    var whole :=
      if months > 0 && days < 0 then months - 1
      else if months < 0 && days > 0 then months + 1
      else months;
    JavaDiv(whole, 12)
  }

  /** Date `a` is on or before date `b` (year, then month, then day). */
  predicate NotAfter(a: Date, b: Date) {
    a.year < b.year || (a.year == b.year && (a.month < b.month || (a.month == b.month && a.day <= b.day)))
  }

  /** The date `n` years after `d`, before any end-of-month adjustment. */
  function YearsLater(d: Date, n: int): Date {
    Date(d.year + n, d.month, d.day)
  }

  /**
   * For `n >= 1`, someone born on `birth` is at least `n` whole years old on
   * `today` exactly when the `n`-th birthday, as (year, month, day), is not
   * after `today`.
   */
  lemma AgeAtLeast(birth: Date, today: Date, n: int)
    requires 1 <= birth.month <= 12 && 1 <= today.month <= 12
    requires n >= 1
    ensures AgeInYears(birth, today) >= n <==> NotAfter(YearsLater(birth, n), today)
  {
    var months := ProlepticMonth(today) - ProlepticMonth(birth);
    var later := YearsLater(birth, n);
    assert ProlepticMonth(later) == ProlepticMonth(birth) + 12 * n;
    assert NotAfter(later, today) <==>
      months > 12 * n || (months == 12 * n && today.day >= birth.day);
  }

  /** A birthdate after `today` gives an age of zero or less, so never an adult one. */
  lemma FutureBirthdateAge(birth: Date, today: Date)
    requires 1 <= birth.month <= 12 && 1 <= today.month <= 12
    requires !NotAfter(birth, today)
    ensures AgeInYears(birth, today) <= 0
  {
    assert ProlepticMonth(today) <= ProlepticMonth(birth);
  }
}
