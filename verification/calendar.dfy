/** The proleptic Gregorian calendar as JavaScript's `Date` implements it, and the
    `YYYY-MM` / `YYYY-MM-DD` texts the pages build from it (the month keys and
    full-dates of sections 5.6 and 5.7 of RFC 3339). */
module Calendar {
  import opened Text
  import opened Wrappers

  predicate IsLeapYear(year: int) {
    year % 4 == 0 && (year % 100 != 0 || year % 400 == 0)
  }

  /** Number of days of a 1-based month; the month/year limits of section 5.7 of RFC 3339. */
  function DaysInMonth(year: int, month: int): (r: int)
    requires 1 <= month <= 12
    ensures 28 <= r <= 31
    ensures r < 30 <==> month == 2
    ensures month == 2 ==> (r == 29 <==> IsLeapYear(year))
  {
    if month == 2 then (if IsLeapYear(year) then 29 else 28)
    else if month == 4 || month == 6 || month == 9 || month == 11 then 30
    else 31
  }

  /** A calendar date; `month` and `day` are 1-based. */
  datatype CivilDate = CivilDate(year: int, month: int, day: int)

  /** A date the pages exchange as `YYYY-MM-DD`: four-digit year, real month and day. */
  predicate IsValidDate(d: CivilDate) {
    && 1000 <= d.year <= 9999
    && 1 <= d.month <= 12
    && 1 <= d.day <= DaysInMonth(d.year, d.month)
  }

  type Date = d: CivilDate | IsValidDate(d) witness CivilDate(2000, 1, 1)

  /** A calendar month; `month` is 1-based, the year is any integer. */
  datatype YearMonth = YearMonth(year: int, month: int)

  type CalendarMonth = ym: YearMonth | 1 <= ym.month <= 12 witness YearMonth(2000, 1)

  /** Months counted from January of year 0, so consecutive months differ by one. */
  function MonthIndex(ym: YearMonth): int {
    12 * ym.year + (ym.month - 1)
  }

  lemma MonthIndexInjective(a: CalendarMonth, b: CalendarMonth)
    requires MonthIndex(a) == MonthIndex(b)
    ensures a == b
  {
  }

  /** The year the `Date` constructor takes a year argument to mean: 0..99 stand for
      1900..1999 (section 21.4.2.1 of ECMAScript 2023); every other year is itself. */
  function ConstructorYear(year: int): (r: int)
    ensures r < 0 || 100 <= r
    ensures (year < 0 || 100 <= year) <==> r == year
  {
    if 0 <= year <= 99 then 1900 + year else year
  }

  /** `new Date(year, month0, 1)` with a 0-based month that may lie outside 0..11:
      the year is read as `ConstructorYear` does, then JavaScript carries whole years
      out of the month, flooring for negatives. */
  function NormalizeMonth(year: int, month0: int): (r: CalendarMonth)
    ensures (year < 0 || 100 <= year) ==> MonthIndex(r) == 12 * year + month0
    ensures 0 <= year <= 99 ==> MonthIndex(r) == 12 * (1900 + year) + month0
  {
    var y := ConstructorYear(year);
    YearMonth(y + month0 / 12, month0 % 12 + 1)
  }

  /** Day number of a date counted the way Reingold and Dershowitz's fixed-date
      formula does; independent of the month table in `DaysInMonth`. */
  function FixedDay(year: int, month: int, day: int): int {
    365 * (year - 1) + (year - 1) / 4 - (year - 1) / 100 + (year - 1) / 400
    + (367 * month - 362) / 12
    + (if month <= 2 then 0 else if IsLeapYear(year) then -1 else -2)
    + day
  }

  lemma DivStep4(n: int)
    ensures n / 4 - (n - 1) / 4 == if n % 4 == 0 then 1 else 0
  {
  }

  lemma DivStep100(n: int)
    ensures n / 100 - (n - 1) / 100 == if n % 100 == 0 then 1 else 0
  {
  }

  lemma DivStep400(n: int)
    ensures n / 400 - (n - 1) / 400 == if n % 400 == 0 then 1 else 0
  {
  }

  /** From one year to the next the leap-day count grows by one exactly at a leap year. */
  lemma LeapDaysStep(year: int)
    ensures (year / 4 - (year - 1) / 4) - (year / 100 - (year - 1) / 100) + (year / 400 - (year - 1) / 400)
            == if IsLeapYear(year) then 1 else 0
  {
    DivStep4(year);
    DivStep100(year);
    DivStep400(year);
  }

  /** What `new Date(year, month, 0).getDate()` computes: the day before the first of
      the following month is day `DaysInMonth` of this month. */
  lemma LastDayPrecedesNextMonth(year: int, month: int)
    requires 1 <= month <= 12 && ConstructorYear(year) == year
    ensures var next := NormalizeMonth(year, month);
            FixedDay(year, month, DaysInMonth(year, month)) + 1 == FixedDay(next.year, next.month, 1)
  {
    if month == 12 {
      LeapDaysStep(year);
      assert NormalizeMonth(year, month) == YearMonth(year + 1, 1);
    } else {
      assert NormalizeMonth(year, month) == YearMonth(year, month + 1);
      MonthOffsetStep(year, month);
    }
  }

  /** Within a year the month offsets of `FixedDay` step by the month lengths. */
  lemma MonthOffsetStep(year: int, month: int)
    requires 1 <= month < 12
    ensures (367 * (month + 1) - 362) / 12 + (if month + 1 <= 2 then 0 else if IsLeapYear(year) then -1 else -2)
            == (367 * month - 362) / 12 + (if month <= 2 then 0 else if IsLeapYear(year) then -1 else -2)
               + DaysInMonth(year, month)
  {
    if month == 1 { } else if month == 2 { } else if month == 3 { } else if month == 4 { }
    else if month == 5 { } else if month == 6 { } else if month == 7 { } else if month == 8 { }
    else if month == 9 { } else if month == 10 { } else { }
  }

  /** Chronological order of two dates. */
  predicate DateLe(a: CivilDate, b: CivilDate) {
    a.year < b.year || (a.year == b.year && (a.month < b.month || (a.month == b.month && a.day <= b.day)))
  }

  /** `YYYY-MM-DD`, the full-date form of section 5.6 of RFC 3339. */
  function DateString(d: Date): (s: string)
    ensures |s| == 10 && s[4] == '-' && s[7] == '-'
  {
    Digits(d.year, 4) + "-" + Digits(d.month, 2) + "-" + Digits(d.day, 2)
  }

  /** Reads a `YYYY-MM-DD` text back; the inverse of `DateString`. */
  function ParseDate(s: string): Option<Date> {
    if |s| == 10 && s[4] == '-' && s[7] == '-'
       && (forall i | 0 <= i < 10 && i != 4 && i != 7 :: IsDigit(s[i]))
    then
      var d := CivilDate(DigitsValue(s[..4]), DigitsValue(s[5..7]), DigitsValue(s[8..]));
      if IsValidDate(d) then Some(d) else None
    else None
  }

  lemma DateStringParts(d: Date)
    ensures DateString(d)[..4] == Digits(d.year, 4)
    ensures DateString(d)[5..7] == Digits(d.month, 2)
    ensures DateString(d)[8..] == Digits(d.day, 2)
    ensures DateString(d)[..7] == Digits(d.year, 4) + "-" + Digits(d.month, 2)
  {
  }

  lemma DateStringRoundTrip(d: Date)
    ensures ParseDate(DateString(d)) == Some(d)
  {
    DateStringParts(d);
    DigitsRoundTrip(d.year, 4);
    DigitsRoundTrip(d.month, 2);
    DigitsRoundTrip(d.day, 2);
  }

  lemma DateStringInjective(a: Date, b: Date)
    requires DateString(a) == DateString(b)
    ensures a == b
  {
    DateStringRoundTrip(a);
    DateStringRoundTrip(b);
  }

  /** Sorting `YYYY-MM-DD` texts as strings sorts the dates chronologically. */
  lemma DateStringOrder(a: Date, b: Date)
    ensures LexLe(DateString(a), DateString(b)) <==> DateLe(a, b)
  {
    var ya, yb := Digits(a.year, 4), Digits(b.year, 4);
    var ma, mb := Digits(a.month, 2), Digits(b.month, 2);
    var da, db := Digits(a.day, 2), Digits(b.day, 2);
    assert DateString(a) == ya + "-" + (ma + "-" + da);
    assert DateString(b) == yb + "-" + (mb + "-" + db);
    FieldThenRest(ya, ma + "-" + da, yb, mb + "-" + db);
    FieldThenRest(ma, da, mb, db);
    DigitsOrder(a.year, b.year, 4);
    DigitsOrder(a.month, b.month, 2);
    DigitsOrder(a.day, b.day, 2);
    if ya == yb { DigitsInjective(a.year, b.year, 4); }
    if ma == mb { DigitsInjective(a.month, b.month, 2); }
  }

  /** `${year}-${String(month).padStart(2, '0')}` for a 1-based month. */
  function MonthKey(ym: CalendarMonth): string {
    Decimal(ym.year) + "-" + PadStart(Decimal(ym.month), 2, '0')
  }

  /** For a four-digit year the key is `YYYY-MM`: seven characters, zero-padded month. */
  lemma MonthKeyShape(ym: CalendarMonth)
    requires 1000 <= ym.year <= 9999
    ensures MonthKey(ym) == Digits(ym.year, 4) + "-" + Digits(ym.month, 2)
    ensures |MonthKey(ym)| == 7
  {
    assert Pow10(3) == 1000 && Pow10(4) == 10000;
    DecimalIsDigits(ym.year, 4);
    PadTwoDigits(ym.month);
  }

  /** The `monthStr.split('-')` of the champion month display, read as numbers. */
  function ParseMonthKey(s: string): Option<CalendarMonth> {
    if |s| == 7 && s[4] == '-' && (forall i | 0 <= i < 7 && i != 4 :: IsDigit(s[i])) then
      var ym := YearMonth(DigitsValue(s[..4]), DigitsValue(s[5..]));
      if 1 <= ym.month <= 12 then Some(ym) else None
    else None
  }

  lemma ParseDigitsMonthKey(year: nat, month: int)
    requires 1000 <= year <= 9999 && 1 <= month <= 12
    ensures ParseMonthKey(Digits(year, 4) + "-" + Digits(month, 2)) == Some(YearMonth(year, month))
  {
    var y, m := Digits(year, 4), Digits(month, 2);
    var s := y + "-" + m;
    assert s[..4] == y;
    assert s[5..] == m;
    assert forall i | 0 <= i < 7 && i != 4 :: IsDigit(s[i]) by {
      forall i | 0 <= i < 7 && i != 4
        ensures IsDigit(s[i])
      {
        if i < 4 { assert s[i] == y[i]; } else { assert s[i] == m[i - 5]; }
      }
    }
    DigitsRoundTrip(year, 4);
    DigitsRoundTrip(month, 2);
  }

  lemma MonthKeyRoundTrip(ym: CalendarMonth)
    requires 1000 <= ym.year <= 9999
    ensures ParseMonthKey(MonthKey(ym)) == Some(ym)
  {
    MonthKeyShape(ym);
    ParseDigitsMonthKey(ym.year, ym.month);
  }

  /** `String(n)` of a natural: digits only, as long as the number has digits. */
  lemma {:induction false} DecimalShape(n: nat)
    ensures forall i :: 0 <= i < |Decimal(n)| ==> IsDigit(Decimal(n)[i])
    ensures 1 <= |Decimal(n)|
    ensures n < 10 ==> |Decimal(n)| == 1
    ensures n >= 10 ==> |Decimal(n)| == |Decimal(n / 10)| + 1
    ensures n < 100 ==> |Decimal(n)| <= 2
    ensures n < 1000 ==> |Decimal(n)| <= 3
    ensures n >= 10 ==> |Decimal(n)| >= 2
    ensures n >= 100 ==> |Decimal(n)| >= 3
    ensures n >= 1000 ==> |Decimal(n)| >= 4
    ensures n >= 10000 ==> |Decimal(n)| >= 5
    decreases n
  {
    if n >= 10 {
      DecimalShape(n / 10);
    }
  }

  predicate InMonth(d: CivilDate, ym: YearMonth) {
    d.year == ym.year && d.month == ym.month
  }

  /** A date text begins with a month key exactly when the date lies in that month;
      a key whose year is not four digits long begins no date text. */
  lemma MonthKeyPrefix(d: Date, ym: CalendarMonth)
    ensures DateString(d)[..7] == MonthKey(ym) <==> InMonth(d, ym)
    ensures MonthKey(ym) <= DateString(d) <==> InMonth(d, ym)
  {
    if 1000 <= ym.year <= 9999 {
      FourDigitKeyPrefix(d, ym);
    } else {
      OtherKeyNoPrefix(d, ym);
    }
  }

  lemma FourDigitKeyPrefix(d: Date, ym: CalendarMonth)
    requires 1000 <= ym.year <= 9999
    ensures DateString(d)[..7] == MonthKey(ym) <==> InMonth(d, ym)
    ensures MonthKey(ym) <= DateString(d) <==> DateString(d)[..7] == MonthKey(ym)
  {
    var s := DateString(d);
    var k := MonthKey(ym);
    DateStringParts(d);
    MonthKeyShape(ym);
    if s[..7] == k {
      assert s[..4] == k[..4] && s[5..7] == k[5..7];
      DigitsInjective(d.year, ym.year, 4);
      DigitsInjective(d.month, ym.month, 2);
    }
  }

  lemma OtherKeyNoPrefix(d: Date, ym: CalendarMonth)
    requires !(1000 <= ym.year <= 9999)
    ensures !InMonth(d, ym)
    ensures DateString(d)[..7] != MonthKey(ym)
    ensures !(MonthKey(ym) <= DateString(d))
  {
    DateStringParts(d);
    if ym.year < 1000 {
      var j := if ym.year < 0 then 0 else |Decimal(ym.year)|;
      if ym.year >= 0 {
        DecimalShape(ym.year);
      }
      ShortYearKeyDiffers(d, ym, j);
    } else {
      DecimalShape(ym.year);
      assert IsDigit(MonthKey(ym)[4]) && DateString(d)[4] == '-';
    }
  }

  /** A key with a short or negative year has its `-` (or its sign) where a date text has a digit. */
  lemma ShortYearKeyDiffers(d: Date, ym: CalendarMonth, j: int)
    requires ym.year < 1000
    requires 0 <= j < 4 && j < |MonthKey(ym)| && MonthKey(ym)[j] == '-'
    ensures DateString(d)[..7] != MonthKey(ym)
    ensures !(MonthKey(ym) <= DateString(d))
  {
    var s := DateString(d);
    DateStringParts(d);
    assert IsDigit(s[j]);
    assert s[..7][j] == s[j];
  }
}
