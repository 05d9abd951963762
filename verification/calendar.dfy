/** Calendar dates as moment.js handles them in main.js: parsing
    `YYYY-MM-DD`, formatting today, whole-day arithmetic, ISO weekdays. Dates
    become day numbers (days since 1970-01-01, proleptic Gregorian calendar), so
    `isSame`/`isBefore(…, 'day')` become comparisons and `diff(…, 'days')`
    becomes subtraction. */
module Calendar {
  import opened Wrappers
  import opened Text
  import opened Patterns

  datatype Civil = Civil(year: int, month: int, day: int)

  predicate IsLeapYear(y: int) {
    y % 4 == 0 && (y % 100 != 0 || y % 400 == 0)
  }

  function DaysInMonth(y: int, m: int): int
    requires 1 <= m <= 12
  {
    if m == 2 then (if IsLeapYear(y) then 29 else 28)
    else if m == 4 || m == 6 || m == 9 || m == 11 then 30
    else 31
  }

  /** A date moment.js accepts: month 1-12 and a day that exists in that month. */
  predicate ValidCivil(c: Civil) {
    1 <= c.month <= 12 && 1 <= c.day <= DaysInMonth(c.year, c.month)
  }

  /** Day number of 1 March of year `y`: the start of the counted year `y`,
      which ends with the leap day of year `y + 1` when there is one. */
  function YearStart(y: int): int {
    var era := y / 400;
    var yoe := y - era * 400;
    era * 146097 + yoe * 365 + yoe / 4 - yoe / 100 - 719468
  }

  /** Days from 1 March to the first of the month `mp` months later. */
  function MonthOffset(mp: int): int {
    (153 * mp + 2) / 5
  }

  /** Days since 1970-01-01. */
  function DayNumber(c: Civil): int {
    var y := if c.month <= 2 then c.year - 1 else c.year;
    var mp := if c.month > 2 then c.month - 3 else c.month + 9;
    YearStart(y) + MonthOffset(mp) + c.day - 1
  }

  /** A year `yoe` years into an era of 400 years leaves the remainders `yoe` leaves. */
  lemma EraRemainders(era: int, yoe: int)
    requires 0 <= yoe < 400
    ensures (era * 400 + yoe) / 400 == era && (era * 400 + yoe) % 400 == yoe
    ensures (era * 400 + yoe) % 4 == yoe % 4 && (era * 400 + yoe) % 100 == yoe % 100
  {
    assert era * 400 + yoe == (era * 100 + yoe / 4) * 4 + yoe % 4;
    assert era * 400 + yoe == (era * 4 + yoe / 100) * 100 + yoe % 100;
  }

  /** The counted year `yoe` of an era of 400 years starts where the
      era's day count, plus 365 days a year and the leap days so far, says. */
  lemma StartInEra(era: int, yoe: int)
    requires 0 <= yoe < 400
    ensures YearStart(era * 400 + yoe) == era * 146097 + yoe * 365 + yoe / 4 - yoe / 100 - 719468
  {
    EraRemainders(era, yoe);
  }

  /** Inside an era, the leap years are the multiples of 4 that are not
      multiples of 100. */
  lemma LeapInEra(era: int, yoe: int)
    requires 1 <= yoe < 400
    ensures IsLeapYear(era * 400 + yoe) == (yoe % 4 == 0 && yoe % 100 != 0)
  {
    EraRemainders(era, yoe);
  }

  /** Going one up, `a / d` steps exactly when `a + 1` is a multiple of `d`. */
  lemma QuotientStep(a: int)
    requires 0 <= a
    ensures (a + 1) / 4 - a / 4 == (if (a + 1) % 4 == 0 then 1 else 0)
    ensures (a + 1) / 100 - a / 100 == (if (a + 1) % 100 == 0 then 1 else 0)
  {
    assert a == a / 4 * 4 + a % 4;
    if a % 4 == 3 {
      assert a + 1 == (a / 4 + 1) * 4 + 0;
    } else {
      assert a + 1 == a / 4 * 4 + (a % 4 + 1);
    }
    assert a == a / 100 * 100 + a % 100;
    if a % 100 == 99 {
      assert a + 1 == (a / 100 + 1) * 100 + 0;
    } else {
      assert a + 1 == a / 100 * 100 + (a % 100 + 1);
    }
  }

  /** The last counted year of an era ends with a leap day: 2000, 2400, … */
  lemma EraEndLength(era: int)
    ensures YearStart(era * 400 + 400) - YearStart(era * 400 + 399) == 366
    ensures IsLeapYear(era * 400 + 400)
  {
    StartInEra(era, 399);
    assert era * 400 + 400 == (era + 1) * 400 + 0;
    StartInEra(era + 1, 0);
    EraRemainders(era + 1, 0);
  }

  /** Inside an era, a counted year has one day more than 365 exactly when
      the year after it is a multiple of 4 and not of 100. */
  lemma InEraLength(yoe: int)
    requires 0 <= yoe < 399
    ensures ((yoe + 1) * 365 + (yoe + 1) / 4 - (yoe + 1) / 100) - (yoe * 365 + yoe / 4 - yoe / 100)
            == (if (yoe + 1) % 4 == 0 && (yoe + 1) % 100 != 0 then 366 else 365)
  {
    QuotientStep(yoe);
  }

  /** A counted year has 366 days when the February it ends with has a leap day. */
  lemma YearLength(y: int)
    ensures YearStart(y + 1) - YearStart(y) == (if IsLeapYear(y + 1) then 366 else 365)
  {
    var era, yoe := y / 400, y % 400;
    assert y == era * 400 + yoe;
    if yoe == 399 {
      EraEndLength(era);
    } else {
      StartInEra(era, yoe);
      assert y + 1 == era * 400 + (yoe + 1);
      StartInEra(era, yoe + 1);
      LeapInEra(era, yoe + 1);
      InEraLength(yoe);
    }
  }

  /** The next calendar day. */
  function NextDay(c: Civil): Civil
    requires ValidCivil(c)
  {
    if c.day < DaysInMonth(c.year, c.month) then Civil(c.year, c.month, c.day + 1)
    else if c.month < 12 then Civil(c.year, c.month + 1, 1)
    else Civil(c.year + 1, 1, 1)
  }

  /** Day numbers count days: the next calendar day is the next number, so
      whole-day comparisons and differences of moments are those of day numbers. */
  lemma NextDayIsNextNumber(c: Civil)
    requires ValidCivil(c)
    ensures ValidCivil(NextDay(c))
    ensures DayNumber(NextDay(c)) == DayNumber(c) + 1
  {
    if c.day == DaysInMonth(c.year, c.month) {
      if c.month == 2 {
        FebruaryEnd(c.year, c.day);
      } else {
        MonthEnd(c);
      }
    }
  }

  /** From the last day of February to 1 March: the counted year changes. */
  lemma FebruaryEnd(y: int, d: int)
    requires d == DaysInMonth(y, 2)
    ensures DayNumber(Civil(y, 3, 1)) == DayNumber(Civil(y, 2, d)) + 1
  {
    YearLength(y - 1);
  }

  /** From the last day of any other month to the first of the next: the
      counted year stays, and the month offsets differ by the month's length. */
  lemma MonthEnd(c: Civil)
    requires ValidCivil(c) && c.month != 2 && c.day == DaysInMonth(c.year, c.month)
    ensures DayNumber(NextDay(c)) == DayNumber(c) + 1
  {
    if c.month == 12 {
      assert DayNumber(NextDay(c)) == YearStart(c.year) + MonthOffset(10);
    }
  }

  /** `moment(text, 'YYYY-MM-DD')` for text of the shape `\d{4}-\d{2}-\d{2}`:
      its day number, or None when `isValid()` is false. */
  function ParseDate(text: string): (r: Option<int>)
    ensures r.Some? ==> |text| == 10 && DateShapeAt(text, 0)
  {
    if |text| != 10 || !DateShapeAt(text, 0) then None
    else
      var c := Civil(DecimalValue(text[..4]), DecimalValue(text[5..7]), DecimalValue(text[8..10]));
      if ValidCivil(c) then Some(DayNumber(c)) else None
  }

  /** `zeroFill(n, width)` of moment.js: a minus sign for negative numbers, then
      the magnitude padded with zeros to `width` digits. */
  function ZeroFillSigned(n: int, width: nat): string {
    if n >= 0 then ZeroFill(n, width) else "-" + ZeroFill(-n, width)
  }

  /** `format('YYYY-MM-DD')` */
  function FormatDate(c: Civil): string {
    ZeroFillSigned(c.year, 4) + "-" + ZeroFillSigned(c.month, 2) + "-" + ZeroFillSigned(c.day, 2)
  }

  /** Four, two and two digits joined by dashes have the `YYYY-MM-DD` shape,
      and the three fields are found again where ParseDate looks. */
  lemma DateTextFields(y: string, m: string, d: string)
    requires |y| == 4 && |m| == 2 && |d| == 2 && AllDigits(y) && AllDigits(m) && AllDigits(d)
    ensures |y + "-" + m + "-" + d| == 10 && DateShapeAt(y + "-" + m + "-" + d, 0)
    ensures (y + "-" + m + "-" + d)[..4] == y && (y + "-" + m + "-" + d)[5..7] == m && (y + "-" + m + "-" + d)[8..10] == d
  {
    var text := y + "-" + m + "-" + d;
    assert text[..4] == y;
    assert text[5..7] == m;
    assert text[8..10] == d;
  }

  /** The date written for today reads back as today: `streak_start::` text the
      streak pass writes is text the next run parses to the same day. */
  lemma FormatThenParse(c: Civil)
    requires ValidCivil(c) && 0 <= c.year <= 9999
    ensures ParseDate(FormatDate(c)) == Some(DayNumber(c))
  {
    ZeroFillWidth(c.year, 4);
    ZeroFillWidth(c.month, 2);
    ZeroFillWidth(c.day, 2);
    DateTextFields(ZeroFill(c.year, 4), ZeroFill(c.month, 2), ZeroFill(c.day, 2));
  }

  /** `moment().isoWeekday()` of a day number: 1 is Monday, 7 is Sunday
      (1970-01-01 was a Thursday). */
  function IsoWeekday(n: int): (w: int)
    ensures 1 <= w <= 7
  {
    (n + 3) % 7 + 1
  }

  /** The weekday advances by one each day and wraps from Sunday to Monday. */
  lemma WeekdayCycles(n: int)
    ensures IsoWeekday(n + 1) == (if IsoWeekday(n) == 7 then 1 else IsoWeekday(n) + 1)
    ensures IsoWeekday(n + 7) == IsoWeekday(n)
  {
  }

  /** The numbering is anchored on the Unix epoch: day 0 is Thursday
      1 January 1970, so 1 January 2024 is a Monday and the next day's
      letter is `T`. */
  lemma WeekdayAnchor()
    ensures DayNumber(Civil(1970, 1, 1)) == 0 && IsoWeekday(0) == 4
    ensures IsoWeekday(DayNumber(Civil(2024, 1, 1))) == 1
    ensures TodayLetter(Civil(2024, 1, 2)) == 'T' && TodayLetter(Civil(2024, 1, 4)) == 'R'
  {
    assert MonthOffset(10) == 306;
    assert YearStart(1969) == -306 by {
      assert 1969 / 400 == 4;
      assert 369 / 4 == 92 && 369 / 100 == 3;
    }
    assert YearStart(2023) == 19417 by {
      assert 2023 / 400 == 5;
      assert 23 / 4 == 5 && 23 / 100 == 0;
    }
    assert DayNumber(Civil(2024, 1, 1)) == 19723;
  }

  /** The table of line 29: ISO weekday to its one-letter code. */
  function IsoLetter(w: int): (c: char)
    requires 1 <= w <= 7
    ensures c in "MTWRFSU" && 'A' <= c <= 'Z'
  {
    if w == 1 then 'M' else if w == 2 then 'T' else if w == 3 then 'W' else if w == 4 then 'R'
    else if w == 5 then 'F' else if w == 6 then 'S' else 'U'
  }

  /** The seven codes are distinct (T/R tell Tuesday from Thursday, S/U Saturday
      from Sunday). */
  lemma IsoLettersDistinct(v: int, w: int)
    requires 1 <= v <= 7 && 1 <= w <= 7 && v != w
    ensures IsoLetter(v) != IsoLetter(w)
  {
  }

  /** Today's letter, the `isoLetter` of line 29. */
  function TodayLetter(today: Civil): char {
    IsoLetter(IsoWeekday(DayNumber(today)))
  }
}
