/** Calendar times as the importers use them: `datetime` values to the minute, their
    day numbers and minute counts since 1970-01-01T00:00, their lexicographic order,
    and the `isoformat()` text the HTTP requests carry. */
module Calendar {
  import opened Wrappers
  import opened Text

  /** A naive `datetime` truncated to the minute (seconds are always 0 where these
      values are created: `strptime("%Y-%m-%dT%H:%M")` and the importers' literals). */
  datatype DateTime = DateTime(year: int, month: int, day: int, hour: int, minute: int)

  predicate IsLeapYear(y: int) {
    y % 4 == 0 && (y % 100 != 0 || y % 400 == 0)
  }

  function DaysInMonth(y: int, m: int): int {
    if m == 2 then (if IsLeapYear(y) then 29 else 28)
    else if m == 4 || m == 6 || m == 9 || m == 11 then 30
    else 31
  }

  /** The values `datetime` admits (years 1 to 9999, proleptic Gregorian calendar). */
  predicate Valid(dt: DateTime) {
    && 1 <= dt.year <= 9999
    && 1 <= dt.month <= 12
    && 1 <= dt.day <= DaysInMonth(dt.year, dt.month)
    && 0 <= dt.hour < 24
    && 0 <= dt.minute < 60
  }

  /** Days since 1970-01-01 of a proleptic Gregorian date (the standard
      days-from-civil algorithm, with floor division). */
  function DaysFromCivil(y: int, m: int, d: int): int {
    var y' := if m <= 2 then y - 1 else y;
    var era := y' / 400;
    var yoe := y' % 400;
    var mp := if m > 2 then m - 3 else m + 9;
    var doy := (153 * mp + 2) / 5 + d - 1;
    var doe := yoe * 365 + yoe / 4 - yoe / 100 + doy;
    era * 146097 + doe - 719468
  }

  /** `dt.date()` as a day number. */
  function DayNumber(dt: DateTime): int {
    DaysFromCivil(dt.year, dt.month, dt.day)
  }

  /** Minutes elapsed since 1970-01-01T00:00. */
  function ToMinutes(dt: DateTime): int {
    DayNumber(dt) * 1440 + dt.hour * 60 + dt.minute
  }

  /** Python's `a <= b` on datetimes: lexicographic on (year, month, day, hour, minute). */
  predicate LessEq(a: DateTime, b: DateTime) {
    || a.year < b.year
    || (a.year == b.year && a.month < b.month)
    || (a.year == b.year && a.month == b.month && a.day < b.day)
    || (a.year == b.year && a.month == b.month && a.day == b.day && a.hour < b.hour)
    || (a.year == b.year && a.month == b.month && a.day == b.day && a.hour == b.hour && a.minute <= b.minute)
  }

  predicate Less(a: DateTime, b: DateTime) {
    LessEq(a, b) && a != b
  }

  /** `dt.isoformat()` of a naive datetime with zero seconds: `YYYY-MM-DDTHH:MM:SS`. */
  function IsoFormat(dt: DateTime): (s: string)
    requires Valid(dt)
    ensures |s| == 19
  {
    Pad(dt.year, 4) + "-" + Pad(dt.month, 2) + "-" + Pad(dt.day, 2) + "T"
      + Pad(dt.hour, 2) + ":" + Pad(dt.minute, 2) + ":00"
  }

  /** Reads back the text `IsoFormat` writes. */
  function ParseIso(s: string): Option<DateTime> {
    if && |s| == 19 && s[4] == '-' && s[7] == '-' && s[10] == 'T' && s[13] == ':' && s[16] == ':'
       && s[17..] == "00"
       && AllDigits(s[..4]) && AllDigits(s[5..7]) && AllDigits(s[8..10])
       && AllDigits(s[11..13]) && AllDigits(s[14..16])
    then
      var dt := DateTime(Decimal(s[..4]), Decimal(s[5..7]), Decimal(s[8..10]),
                         Decimal(s[11..13]), Decimal(s[14..16]));
      if Valid(dt) then Some(dt) else None
    else
      None
  }

  /** `isoformat` is injective on valid datetimes: the text gives the datetime back. */
  lemma ParseIsoFormat(dt: DateTime)
    requires Valid(dt)
    ensures ParseIso(IsoFormat(dt)) == Some(dt)
  {
    var s := IsoFormat(dt);
    assert s[..4] == Pad(dt.year, 4);
    assert s[5..7] == Pad(dt.month, 2);
    assert s[8..10] == Pad(dt.day, 2);
    assert s[11..13] == Pad(dt.hour, 2);
    assert s[14..16] == Pad(dt.minute, 2);
    assert Pow10(2) == 100 && Pow10(4) == 10000;
    DecimalOfPad(dt.year, 4);
    DecimalOfPad(dt.month, 2);
    DecimalOfPad(dt.day, 2);
    DecimalOfPad(dt.hour, 2);
    DecimalOfPad(dt.minute, 2);
  }

  /** The period value of both HTTP APIs: `a.isoformat() + "Z/" + b.isoformat() + "Z"`. */
  function PeriodString(a: DateTime, b: DateTime): (s: string)
    requires Valid(a) && Valid(b)
    ensures |s| == 41
  {
    IsoFormat(a) + "Z/" + IsoFormat(b) + "Z"
  }

  /** Reads back a period string. */
  function ParsePeriod(s: string): Option<(DateTime, DateTime)> {
    if |s| == 41 && s[19..21] == "Z/" && s[40] == 'Z' then
      match (ParseIso(s[..19]), ParseIso(s[21..40]))
      case (Some(a), Some(b)) => Some((a, b))
      case _ => None
    else
      None
  }

  /** A period string names exactly the two datetimes it was made from. */
  lemma ParsePeriodString(a: DateTime, b: DateTime)
    requires Valid(a) && Valid(b)
    ensures ParsePeriod(PeriodString(a, b)) == Some((a, b))
  {
    var s := PeriodString(a, b);
    assert s[..19] == IsoFormat(a);
    assert s[21..40] == IsoFormat(b);
    ParseIsoFormat(a);
    ParseIsoFormat(b);
  }

  /** A `date`: what `datetime.date()` keeps. */
  datatype Date = Date(year: int, month: int, day: int)

  predicate ValidDate(d: Date) {
    1 <= d.year <= 9999 && 1 <= d.month <= 12 && 1 <= d.day <= DaysInMonth(d.year, d.month)
  }

  function DateOf(dt: DateTime): (d: Date)
    ensures Valid(dt) ==> ValidDate(d)
  {
    Date(dt.year, dt.month, dt.day)
  }

  function DateNumber(d: Date): int {
    DaysFromCivil(d.year, d.month, d.day)
  }

  /** The day after `d` in the proleptic Gregorian calendar. */
  function NextDay(d: Date): Date {
    if d.day < DaysInMonth(d.year, d.month) then Date(d.year, d.month, d.day + 1)
    else if d.month < 12 then Date(d.year, d.month + 1, 1)
    else Date(d.year + 1, 1, 1)
  }

  /** `d + timedelta(i)`. */
  function AddDays(d: Date, i: nat): Date {
    if i == 0 then d else NextDay(AddDays(d, i - 1))
  }

  /** Day numbers count days: the day after has the next number. */
  lemma NextDayNumber(d: Date)
    requires 1 <= d.month <= 12 && 1 <= d.day <= DaysInMonth(d.year, d.month)
    ensures DateNumber(NextDay(d)) == DateNumber(d) + 1
  {
    if d.day == DaysInMonth(d.year, d.month) && d.month == 2 {
      LeapDayBoundary(d.year);
    }
  }

  /** Days from March 1 of year 0 of an era to March 1 of year `yoe` of that era. */
  function YearOfEraDays(yoe: int): int {
    yoe * 365 + yoe / 4 - yoe / 100
  }

  lemma YearOfEraStep(yoe: int)
    requires 0 <= yoe < 399
    ensures YearOfEraDays(yoe + 1) - YearOfEraDays(yoe)
         == 365 + (if (yoe + 1) % 4 == 0 then 1 else 0) - (if (yoe + 1) % 100 == 0 then 1 else 0)
  {
  }

  lemma ModOfEra(y: int)
    ensures y % 4 == (y % 400) % 4 && y % 100 == (y % 400) % 100
  {
    ModOfEraBy(y, 4, 100);
    ModOfEraBy(y, 100, 4);
  }

  /** Whether `m` divides `y` depends only on the year within its 400-year era. */
  lemma ModOfEraBy(y: int, m: int, k: int)
    requires m > 0 && k > 0 && m * k == 400
    ensures y % m == (y % 400) % m
  {
    var q := y / 400;
    var r := y % 400;
    var d := y / m - k * q - r / m;
    assert m * d == r % m - y % m;
  }

  /** The step from the last day of February to March 1, where the algorithm's year
      (which begins on March 1) changes. */
  lemma LeapDayBoundary(y: int)
    ensures DaysFromCivil(y, 3, 1) == DaysFromCivil(y, 2, DaysInMonth(y, 2)) + 1
  {
    var era := (y - 1) / 400;
    var yoe := (y - 1) % 400;
    assert DaysFromCivil(y, 2, DaysInMonth(y, 2))
        == era * 146097 + YearOfEraDays(yoe) + 336 + DaysInMonth(y, 2) - 719468;
    assert DaysFromCivil(y, 3, 1) == (y / 400) * 146097 + YearOfEraDays(y % 400) - 719468;
    ModOfEra(y);
    if yoe == 399 {
      assert y / 400 == era + 1 && y % 400 == 0;
    } else {
      assert y / 400 == era && y % 400 == yoe + 1;
      YearOfEraStep(yoe);
    }
  }

  /** A month and a day of the proleptic Gregorian calendar, in any year. */
  predicate CalendarDate(d: Date) {
    1 <= d.month <= 12 && 1 <= d.day <= DaysInMonth(d.year, d.month)
  }

  /** Adding `i` days adds `i` to the day number, keeps a calendar date and never moves
      back a year. */
  lemma {:induction false} AddDaysNumber(d: Date, i: nat)
    requires CalendarDate(d)
    ensures CalendarDate(AddDays(d, i)) && AddDays(d, i).year >= d.year
    ensures DateNumber(AddDays(d, i)) == DateNumber(d) + i
  {
    if i > 0 {
      AddDaysNumber(d, i - 1);
      NextDayNumber(AddDays(d, i - 1));
      NextDayCalendar(AddDays(d, i - 1));
    }
  }

  lemma NextDayCalendar(d: Date)
    requires CalendarDate(d)
    ensures CalendarDate(NextDay(d)) && NextDay(d).year >= d.year
  {
  }

  // ---------------------------------------------------------------------------
  // Python's order on datetimes is the order of their minute counts
  // ---------------------------------------------------------------------------

  /** Within a month the day number grows by one a day. */
  lemma DayOfMonthNumber(y: int, m: int, d: int)
    requires 1 <= m <= 12
    ensures DaysFromCivil(y, m, d) == DaysFromCivil(y, m, 1) + d - 1
  {
  }

  /** The first of a month follows the last day of the month before. */
  lemma MonthStart(y: int, m: int)
    requires 1 <= m < 12
    ensures DaysFromCivil(y, m + 1, 1) == DaysFromCivil(y, m, 1) + DaysInMonth(y, m)
  {
    NextDayNumber(Date(y, m, DaysInMonth(y, m)));
    DayOfMonthNumber(y, m, DaysInMonth(y, m));
  }

  /** New Year's Day follows December 31. */
  lemma YearStart(y: int)
    ensures DaysFromCivil(y + 1, 1, 1) == DaysFromCivil(y, 12, 1) + 31
  {
    NextDayNumber(Date(y, 12, 31));
    DayOfMonthNumber(y, 12, 31);
  }

  /** A date is numbered below the first of every later month of its year. */
  lemma {:induction false} BeforeMonth(y: int, m: int, d: int, m2: int)
    requires 1 <= m < m2 <= 12 && d <= DaysInMonth(y, m)
    ensures DaysFromCivil(y, m, d) < DaysFromCivil(y, m2, 1)
    decreases m2
  {
    MonthStart(y, m2 - 1);
    assert DaysInMonth(y, m2 - 1) >= 28;
    if m < m2 - 1 {
      BeforeMonth(y, m, d, m2 - 1);
    } else {
      DayOfMonthNumber(y, m, d);
    }
  }

  /** A calendar date is numbered from New Year's Day of its year up to, and not
      including, New Year's Day of the next. */
  lemma WithinYear(y: int, m: int, d: int)
    requires 1 <= m <= 12 && 1 <= d <= DaysInMonth(y, m)
    ensures DaysFromCivil(y, 1, 1) <= DaysFromCivil(y, m, d) < DaysFromCivil(y + 1, 1, 1)
  {
    DayOfMonthNumber(y, m, d);
    if m > 1 {
      BeforeMonth(y, 1, 1, m);
    }
    YearStart(y);
    if m < 12 {
      BeforeMonth(y, m, d, 12);
    }
  }

  lemma {:induction false} YearsBefore(y: int, y2: int)
    requires y < y2
    ensures DaysFromCivil(y + 1, 1, 1) <= DaysFromCivil(y2, 1, 1)
    decreases y2 - y
  {
    if y + 1 < y2 {
      YearsBefore(y + 1, y2);
      WithinYear(y + 1, 1, 1);
    }
  }

  /** Whether `a`'s date comes before `b`'s, year, then month, then day. */
  predicate DateBefore(a: DateTime, b: DateTime) {
    || a.year < b.year
    || (a.year == b.year && a.month < b.month)
    || (a.year == b.year && a.month == b.month && a.day < b.day)
  }

  /** Day numbers follow the order of calendar dates. */
  lemma DayNumberOrder(a: DateTime, b: DateTime)
    requires Valid(a) && Valid(b) && DateBefore(a, b)
    ensures DayNumber(a) < DayNumber(b)
  {
    if a.year < b.year {
      WithinYear(a.year, a.month, a.day);
      YearsBefore(a.year, b.year);
      WithinYear(b.year, b.month, b.day);
    } else if a.month < b.month {
      BeforeMonth(a.year, a.month, a.day, b.month);
      DayOfMonthNumber(b.year, b.month, b.day);
    } else {
      DayOfMonthNumber(a.year, a.month, a.day);
      DayOfMonthNumber(b.year, b.month, b.day);
    }
  }

  /** Python's `a <= b` on valid datetimes holds exactly when `a` has no more minutes
      since 1970 than `b`: the lexicographic order and the minute counts agree. */
  lemma LessEqMinutes(a: DateTime, b: DateTime)
    requires Valid(a) && Valid(b)
    ensures LessEq(a, b) <==> ToMinutes(a) <= ToMinutes(b)
  {
    if DateBefore(a, b) {
      DayNumberOrder(a, b);
    } else if DateBefore(b, a) {
      DayNumberOrder(b, a);
    }
  }
}
