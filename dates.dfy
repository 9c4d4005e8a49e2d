/**
 * Calendar dates as the sync run sees them: the `yyyy-MM-dd` stamp in a file
 * name, parsed strictly the way `DateTime.TryParseExact(s, "yyyy-MM-dd",
 * CultureInfo.InvariantCulture, DateTimeStyles.None, out _)` does, and compared
 * the way `DateTime`'s `>` compares two midnight values.
 */
module Dates {
  import opened Wrappers

  /** A proleptic Gregorian calendar date (the time of day is always midnight here). */
  datatype Date = Date(year: int, month: int, day: int)

  /** `default(DateTime)`: 0001-01-01, the watermark when no local file has a date. */
  const Epoch: Date := Date(1, 1, 1)

  predicate IsLeapYear(year: int) {
    year % 4 == 0 && (year % 100 != 0 || year % 400 == 0)
  }

  function DaysInMonth(year: int, month: int): (n: int)
    requires 1 <= month <= 12
    ensures 28 <= n <= 31
    ensures n == 29 <==> month == 2 && IsLeapYear(year)
  {
    if month == 2 then (if IsLeapYear(year) then 29 else 28)
    else if month == 4 || month == 6 || month == 9 || month == 11 then 30
    else 31
  }

  /** The dates a `DateTime` can hold: years 1 to 9999, real months and days. */
  predicate Valid(d: Date) {
    1 <= d.year <= 9999 && 1 <= d.month <= 12 && 1 <= d.day <= DaysInMonth(d.year, d.month)
  }

  /** Strict chronological order: lexicographic on (year, month, day). */
  predicate Before(a: Date, b: Date) {
    a.year < b.year || (a.year == b.year && (a.month < b.month || (a.month == b.month && a.day < b.day)))
  }

  /** `a <= b` chronologically. */
  predicate NotAfter(a: Date, b: Date) {
    !Before(b, a)
  }

  /** The later of two dates (the first one on a tie). */
  function Later(a: Date, b: Date): (r: Date)
    ensures r == a || r == b
    ensures NotAfter(a, r) && NotAfter(b, r)
  {
    if Before(a, b) then b else a
  }

  lemma {:induction false} BeforeIsStrictTotalOrder(a: Date, b: Date, c: Date)
    ensures !Before(a, a)
    ensures Before(a, b) ==> !Before(b, a)
    ensures Before(a, b) && Before(b, c) ==> Before(a, c)
    ensures a == b || Before(a, b) || Before(b, a)
  {
  }

  /** No valid date precedes the epoch. */
  lemma {:induction false} EpochIsEarliest(d: Date)
    requires Valid(d)
    ensures Valid(Epoch) && NotAfter(Epoch, d)
  {
  }

  // ---------------------------------------------------------------- digits

  predicate IsDigit(c: char) {
    '0' <= c <= '9'
  }

  predicate AllDigits(s: string) {
    forall i :: 0 <= i < |s| ==> IsDigit(s[i])
  }

  function DigitValue(c: char): (v: nat)
    requires IsDigit(c)
    ensures v <= 9
  {
    c as int - '0' as int
  }

  function DigitChar(v: nat): (c: char)
    requires v <= 9
    ensures IsDigit(c) && DigitValue(c) == v
  {
    ('0' as int + v) as char
  }

  /** The decimal value of a string of digits. */
  function Number(s: string): (n: nat)
    requires AllDigits(s)
  {
    if s == [] then 0 else 10 * Number(s[..|s| - 1]) + DigitValue(s[|s| - 1])
  }

  function Pow10(k: nat): (p: nat)
    ensures p >= 1
  {
    if k == 0 then 1 else 10 * Pow10(k - 1)
  }

  /** The last `width` decimal digits of `n`, zero-padded: what the custom format `yyyy` (width 4) or `MM` (width 2) prints. */
  function Digits(n: nat, width: nat): (s: string)
    ensures |s| == width && AllDigits(s)
  {
    if width == 0 then [] else Digits(n / 10, width - 1) + [DigitChar(n % 10)]
  }

  lemma {:induction false} NumberOfDigits(n: nat, width: nat)
    requires n < Pow10(width)
    ensures Number(Digits(n, width)) == n
  {
    if width > 0 {
      NumberOfDigits(n / 10, width - 1);
      var s := Digits(n, width);
      assert s[..|s| - 1] == Digits(n / 10, width - 1);
    }
  }

  lemma {:induction false} DigitsOfNumber(s: string)
    requires AllDigits(s)
    ensures Digits(Number(s), |s|) == s
  {
    if s != [] {
      var init := s[..|s| - 1];
      DigitsOfNumber(init);
      assert Number(s) / 10 == Number(init);
      assert DigitChar(Number(s) % 10) == s[|s| - 1];
      assert s == init + [s[|s| - 1]];
    }
  }

  // ---------------------------------------------------------------- yyyy-MM-dd

  /** `d` printed with the custom format `yyyy-MM-dd`. */
  function FormatDate(d: Date): (s: string)
    requires 0 <= d.year <= 9999 && 0 <= d.month <= 99 && 0 <= d.day <= 99
    ensures |s| == 10 && s[4] == '-' && s[7] == '-'
  {
    Digits(d.year, 4) + "-" + Digits(d.month, 2) + "-" + Digits(d.day, 2)
  }

  /**
   * `DateTime.TryParseExact(s, "yyyy-MM-dd", InvariantCulture, None)`: exactly
   * four, two and two ASCII digits separated by hyphens, nothing before or
   * after, and a date the calendar has. Every other string gives `None`.
   */
  function ParseDate(s: string): (r: Option<Date>)
    ensures r.Some? ==> Valid(r.value)
  {
    if |s| == 10 && s[4] == '-' && s[7] == '-'
       && AllDigits(s[..4]) && AllDigits(s[5..7]) && AllDigits(s[8..])
    then
      var d := Date(Number(s[..4]), Number(s[5..7]), Number(s[8..]));
      if Valid(d) then Some(d) else None
    else
      None
  }

  // ---------------------------------------------------------------- in place

  // The same reading of a stamp, done on positions of the enclosing string
  // rather than on a cut-out slice. It duplicates `ParseDate` on purpose:
  // proofs about the download loop that mention a key's date stay cheap for
  // the solver, and `DateAtIsParseOfSlice` ties the two readings together.

  /** `s[lo..hi]` is all digits, read without cutting the string. */
  predicate DigitsIn(s: string, lo: nat, hi: nat)
    requires lo <= hi <= |s|
    decreases hi - lo
  {
    hi == lo || (IsDigit(s[hi - 1]) && DigitsIn(s, lo, hi - 1))
  }

  /** The decimal value of the digits `s[lo..hi]`. */
  function NumberIn(s: string, lo: nat, hi: nat): (n: nat)
    requires lo <= hi <= |s| && DigitsIn(s, lo, hi)
    decreases hi - lo
  {
    if hi == lo then 0 else 10 * NumberIn(s, lo, hi - 1) + DigitValue(s[hi - 1])
  }

  /** `ParseDate(s[lo..hi])`, computed on the positions of `s` itself. */
  function DateAt(s: string, lo: nat, hi: nat): (r: Option<Date>)
    requires lo <= hi <= |s|
    ensures r.Some? ==> Valid(r.value)
  {
    if hi - lo == 10 && s[lo + 4] == '-' && s[lo + 7] == '-'
       && DigitsIn(s, lo, lo + 4) && DigitsIn(s, lo + 5, lo + 7) && DigitsIn(s, lo + 8, hi)
    then
      var d := Date(NumberIn(s, lo, lo + 4), NumberIn(s, lo + 5, lo + 7), NumberIn(s, lo + 8, hi));
      if Valid(d) then Some(d) else None
    else
      None
  }

  lemma {:induction false} DigitsInSlice(s: string, lo: nat, hi: nat)
    requires lo <= hi <= |s|
    ensures DigitsIn(s, lo, hi) <==> AllDigits(s[lo..hi])
    ensures DigitsIn(s, lo, hi) ==> NumberIn(s, lo, hi) == Number(s[lo..hi])
    decreases hi - lo
  {
    if hi > lo {
      DigitsInSlice(s, lo, hi - 1);
      var t := s[lo..hi];
      assert t[..|t| - 1] == s[lo..hi - 1];
      assert t[|t| - 1] == s[hi - 1];
      if AllDigits(t) {
        assert forall i :: 0 <= i < |t| - 1 ==> t[..|t| - 1][i] == t[i];
      }
      if DigitsIn(s, lo, hi) {
        assert forall i :: 0 <= i < |t| - 1 ==> t[i] == s[lo..hi - 1][i];
      }
    }
  }

  /** A slice of a slice is a slice of the whole. */
  lemma {:induction false} SliceOfSlice(s: string, lo: nat, hi: nat, i: nat, j: nat)
    requires lo <= hi <= |s| && i <= j <= hi - lo
    ensures s[lo..hi][i..j] == s[lo + i..lo + j]
  {
    assert forall k :: 0 <= k < j - i ==> s[lo..hi][i..j][k] == s[lo + i + k];
  }

  /** Reading the stamp in place gives what parsing the cut-out stamp gives. */
  lemma {:induction false} DateAtIsParseOfSlice(s: string, lo: nat, hi: nat)
    requires lo <= hi <= |s|
    ensures DateAt(s, lo, hi) == ParseDate(s[lo..hi])
  {
    if hi - lo == 10 {
      var t := s[lo..hi];
      SliceOfSlice(s, lo, hi, 0, 4);
      SliceOfSlice(s, lo, hi, 5, 7);
      SliceOfSlice(s, lo, hi, 8, 10);
      assert t[4] == s[lo + 4] && t[7] == s[lo + 7];
      DigitsInSlice(s, lo, lo + 4);
      DigitsInSlice(s, lo + 5, lo + 7);
      DigitsInSlice(s, lo + 8, hi);
    }
  }

  /**
   * The parser accepts exactly the printed forms of valid dates, and returns
   * the date that prints as the input: parse and format are inverse.
   */
  lemma {:induction false} ParseDateExact(s: string, d: Date)
    ensures ParseDate(s) == Some(d) <==> Valid(d) && FormatDate(d) == s
  {
    if ParseDate(s) == Some(d) {
      DigitsOfNumber(s[..4]);
      DigitsOfNumber(s[5..7]);
      DigitsOfNumber(s[8..]);
      assert s == s[..4] + "-" + s[5..7] + "-" + s[8..];
    }
    if Valid(d) && FormatDate(d) == s {
      var y, m, dd := Digits(d.year, 4), Digits(d.month, 2), Digits(d.day, 2);
      assert s[..4] == y && s[5..7] == m && s[8..] == dd;
      NumberOfDigits(d.year, 4);
      NumberOfDigits(d.month, 2);
      NumberOfDigits(d.day, 2);
    }
  }

  /**
   * Every printed date is parsed back: to itself when it is a date the
   * calendar has, and to nothing otherwise (year 0, month 13, a leap day in
   * a common year).
   */
  lemma {:induction false} ParseFormatRoundTrip(d: Date)
    requires 0 <= d.year <= 9999 && 0 <= d.month <= 99 && 0 <= d.day <= 99
    ensures ParseDate(FormatDate(d)) == if Valid(d) then Some(d) else None
  {
    var s := FormatDate(d);
    assert s[..4] == Digits(d.year, 4) && s[5..7] == Digits(d.month, 2) && s[8..] == Digits(d.day, 2);
    NumberOfDigits(d.year, 4);
    NumberOfDigits(d.month, 2);
    NumberOfDigits(d.day, 2);
  }

  /**
   * A printed 29 February is accepted exactly in leap years of the Gregorian
   * calendar (2024 and 2000, but not 2023 or the century year 1900).
   */
  lemma {:induction false} LeapDayStamp(year: int)
    requires 1 <= year <= 9999
    ensures ParseDate(FormatDate(Date(year, 2, 29))).Some? <==> IsLeapYear(year)
  {
    ParseFormatRoundTrip(Date(year, 2, 29));
  }

  /**
   * Stems of the wrong shape are turned down without raising: a wrong
   * length, a wrong separator, a non-digit.
   */
  lemma {:induction false} RejectsMalformedStems()
    ensures ParseDate("2024-1-02") == None
    ensures ParseDate("2024/01/02") == None
    ensures ParseDate("2024-01-0a") == None
  {
    var s := "2024-01-0a";
    assert !IsDigit(s[8..][1]);
  }

  /** Well-formed stems that name no date are turned down too: a thirteenth month, a 31 April. */
  lemma {:induction false} RejectsImpossibleDates()
    ensures ParseDate("2024-13-01") == None
    ensures ParseDate("2024-04-31") == None
  {
    var m := "2024-13-01";
    assert m[5..7] == "13" && Number("13") == 13;
    var a := "2024-04-31";
    assert a[5..7] == "04" && a[8..] == "31";
    assert Number("04") == 4 && Number("31") == 31;
  }
}
