/**
 * Calendar dates and Julian day numbers, with the source's floating-point
 * formulas read in exact arithmetic. Days are counted as the modified Julian
 * day (MJD), the Julian date less 2400000.5.
 */
module Calendar {

  datatype Date = Date(year: int, month: int, day: int)

  /** C++'s conversion of a double to an int drops the fraction. */
  function Trunc(x: real): int {
    if x >= 0.0 then x.Floor else -((-x).Floor)
  }

  /** C++'s integer division rounds toward zero. */
  function TruncDiv(a: int, b: int): int
    requires b > 0
  {
    if a >= 0 then a / b else -((-a) / b)
  }

  predicate LeapYear(year: int) {
    (year % 4 == 0 && year % 100 != 0) || (year % 400 == 0 && year % 100 == 0)
  }

  function DaysInMonth(year: int, month: int): int {
    if month == 2 then (if LeapYear(year) then 29 else 28)
    else if month == 4 || month == 6 || month == 9 || month == 11 then 30
    else 31
  }

  /** A date of the Gregorian calendar, which starts on 15 October 1582. */
  predicate Gregorian(t: Date) {
    && 1 <= t.month <= 12 && 1 <= t.day <= DaysInMonth(t.year, t.month)
    && 10000 * t.year + 100 * t.month + t.day >= 15821015
  }

  /** The start of the year is Gregorian: every year after 1582. */
  const FIRST_YEAR := 1583

  // ----- the two conversions, as functions -----

  /** `JulDate` of midnight, less 2400000.5. */
  function ToMjd(t: Date): int {
    var iy0 := if t.month <= 2 then t.year - 1 else t.year;
    var im0 := if t.month <= 2 then t.month + 12 else t.month;
    var ia := TruncDiv(iy0, 100);
    var ib := 2 - ia + ia / 4;
    var days := if t.year <= 0 then Trunc(365.25 * iy0 as real - 0.75) else Trunc(365.25 * iy0 as real);
    var jd := days + Trunc(30.6001 * (im0 + 1) as real) + t.day + 1720994;
    var gyr := t.year as real + 0.01 * t.month as real + 0.0001 * t.day as real + 0.000000001;
    (if gyr >= 1582.1015 then jd + ib else jd) - 2400000
  }

  /** The day number `jd` of `CalDate`, with the Gregorian correction. */
  function Corrected(jd: int): int {
    if jd >= 2299161 then
      var ialp := Trunc((jd as real - 1867216.25) / 36524.25);
      jd + 1 + ialp - ialp / 4
    else jd
  }

  /** Day and month before the clip at the end of February. */
  datatype Parts = Parts(kc: int, ke: int, day: int)

  function Split(ka: int): Parts {
    var kb := ka + 1524;
    var kc := Trunc((kb as real - 122.1) / 365.25);
    var kd := Trunc(kc as real * 365.25);
    var ke := Trunc((kb - kd) as real / 30.6001);
    Parts(kc, ke, kb - kd - Trunc(ke as real * 30.6001))
  }

  /** `CalDate` of the day that starts at a modified Julian day. */
  function FromMjd(mjd: int): Date {
    var p := Split(Corrected(mjd + 2400001));
    var month := if p.ke > 13 then p.ke - 13 else p.ke - 1;
    var day := if month == 2 && p.day > 28 then 29 else p.day;
    var year := if month == 2 && day == 29 && p.ke == 3 then p.kc - 4716
                else if month > 2 then p.kc - 4716
                else p.kc - 4715;
    Date(year, month, day)
  }

  // ----- exact forms -----

  lemma TruncIs(x: real, k: int)
    requires 0 <= k && k as real <= x < (k + 1) as real
    ensures Trunc(x) == k
  {
  }

  /** Days before March-based month `m` of a March-based year, as the truncated products of 30.6001 give them. */
  function MonthTable(n: int): int
    requires 4 <= n <= 15
  {
    match n
    case 4 => 122 case 5 => 153 case 6 => 183 case 7 => 214 case 8 => 244 case 9 => 275
    case 10 => 306 case 11 => 336 case 12 => 367 case 13 => 397 case 14 => 428 case _ => 459
  }

  lemma MonthProduct(n: int)
    requires 4 <= n <= 15
    ensures Trunc(30.6001 * n as real) == MonthTable(n) == Trunc(n as real * 30.6001)
  {
    TruncIs(30.6001 * n as real, MonthTable(n));
  }

  lemma YearProduct(y: int)
    requires y >= 0
    ensures Trunc(365.25 * y as real) == (1461 * y) / 4 == Trunc(y as real * 365.25)
  {
    TruncIs(365.25 * y as real, (1461 * y) / 4);
  }

  /** March-based year and month of a date: January and February belong to the year before. */
  function YearM(t: Date): int { if t.month <= 2 then t.year - 1 else t.year }

  function MonthM(t: Date): int { if t.month <= 2 then t.month + 12 else t.month }

  lemma ToMjdExact(t: Date)
    requires Gregorian(t)
    ensures YearM(t) >= 1582 && 3 <= MonthM(t) <= 14
    ensures ToMjd(t) == (1461 * YearM(t)) / 4 + MonthTable(MonthM(t) + 1) + t.day - 679004
                        - YearM(t) / 100 + YearM(t) / 400
  {
    var y, m := YearM(t), MonthM(t);
    YearProduct(y);
    MonthProduct(m + 1);
    assert t.year as real + 0.01 * t.month as real + 0.0001 * t.day as real >= 1582.1015;
    assert (y / 100) / 4 == y / 400;
  }

  // ----- CalDate inverts JulDate -----

  /** Where a date stands in its century, in quarter days. */
  lemma CenturyBounds(k: int, m: int, day: int, r: int)
    requires 0 <= k < 100 && 3 <= m <= 14 && 1 <= day <= 31 && 0 <= r <= 3
    requires m == 14 ==> day <= 29 && (day == 29 && k == 99 ==> r == 3)
    ensures 0 <= 4 * ((1461 * k) / 4) + 4 * (MonthTable(m + 1) + day) - 489 - r < 146097
  {
    assert 4 * ((1461 * k) / 4) == 1461 * k - k % 4;
  }

  /** What the month's length says about the last days of February. */
  lemma FebruaryEnd(t: Date)
    requires Gregorian(t) && MonthM(t) == 14
    ensures t.day <= 29
    ensures t.day == 29 ==> YearM(t) % 4 == 3 && (YearM(t) % 100 == 99 ==> (YearM(t) / 100) % 4 == 3)
  {
    assert t.month == 2;
    if t.day == 29 {
      LeapYearM(YearM(t));
    }
  }

  /** A leap year, seen from the year before. */
  lemma LeapYearM(y: int)
    requires LeapYear(y + 1)
    ensures y % 4 == 3 && (y % 100 == 99 ==> (y / 100) % 4 == 3)
  {
    hide LeapYear;
    var a, k := y / 100, y % 100;
    assert y == 100 * a + k;
    FourthYear(y + 1);
    if k == 99 {
      CenturyLeap(a, y + 1);
    }
  }

  lemma FourthYear(year: int)
    requires LeapYear(year)
    ensures year % 4 == 0
  {
    if year % 400 == 0 {
      assert year == 4 * (100 * (year / 400));
    }
  }

  lemma CenturyLeap(a: int, year: int)
    requires year == 100 * (a + 1) && LeapYear(year)
    ensures a % 4 == 3
  {
    var q := 100 * (a + 1) / 400;
    assert (100 * (a + 1)) % 100 == 0;
    assert a + 1 == 4 * q;
  }

  /** The century correction of `CalDate` undoes the one of `JulDate`. */
  lemma CorrectedIs(t: Date)
    requires Gregorian(t)
    ensures Corrected(ToMjd(t) + 2400001) ==
            (1461 * YearM(t)) / 4 + MonthTable(MonthM(t) + 1) + t.day + 1720995
  {
    GregorianStart(t);
    ToMjdExact(t);
    var y, m := YearM(t), MonthM(t);
    var a, k := y / 100, y % 100;
    var q, r := a / 4, a % 4;
    if m == 14 { FebruaryEnd(t); }
    CenturyBounds(k, m, t.day, r);
    assert y == 100 * a + k && (1461 * y) / 4 == 36525 * a + (1461 * k) / 4;
    assert y / 400 == q;
    CenturyProduct(ToMjd(t) + 2400001, a - 4);
    assert (a - 4) / 4 == q - 1;
  }

  lemma CenturyProduct(jd: int, c: int)
    requires c >= 0 && 146097 * c <= 4 * jd - 7468865 < 146097 * (c + 1)
    ensures Trunc((jd as real - 1867216.25) / 36524.25) == c
  {
    TruncIs((jd as real - 1867216.25) / 36524.25, c);
  }

  lemma GregorianStart(t: Date)
    requires Gregorian(t)
    ensures ToMjd(t) >= -100840
  {
    hide ToMjd;
    ToMjdExact(t);
    YearsDays(YearM(t));
  }

  lemma YearsDays(y: int)
    requires y >= 1582
    ensures var days := (1461 * y) / 4 - y / 100 + y / 400;
            if y == 1582 then days == 577813 else days >= 578177
  {
    assert 4 * ((1461 * y) / 4) >= 1461 * y - 3;
  }

  /** Splitting a corrected day number recovers the March-based year, month and day. */
  lemma SplitIs(y: int, m: int, day: int)
    requires y >= 0 && 3 <= m <= 14 && 1 <= day <= 31
    requires m == 14 ==> day <= 29 && (day == 29 ==> y % 4 == 3)
    requires m == 4 || m == 6 || m == 9 || m == 11 ==> day <= 30
    ensures Split((1461 * y) / 4 + MonthTable(m + 1) + day + 1720995) == Parts(y + 4716, m + 1, day)
  {
    hide Trunc;
    var rest := MonthTable(m + 1) + day;
    SplitYear(y, rest);
    YearProduct(y + 4716);
    assert (1461 * (y + 4716)) / 4 == (1461 * y) / 4 + 1722519;
    TruncIs(rest as real / 30.6001, m + 1);
    MonthProduct(m + 1);
  }

  lemma SplitYear(y: int, rest: int)
    requires y >= 0 && 123 <= rest <= 488 && (rest == 488 ==> y % 4 == 3)
    ensures var kb := (1461 * y) / 4 + rest + 1720995 + 1524;
            Trunc((kb as real - 122.1) / 365.25) == y + 4716
  {
    var kb := (1461 * y) / 4 + rest + 1720995 + 1524;
    assert 4 * ((1461 * y) / 4) == 1461 * y - y % 4;
    TruncIs((kb as real - 122.1) / 365.25, y + 4716);
  }

  /** `CalDate` after `JulDate` is the identity on every Gregorian date. */
  lemma FromToMjd(t: Date)
    requires Gregorian(t)
    ensures FromMjd(ToMjd(t)) == t
  {
    hide ToMjd, Corrected, Split;
    CorrectedIs(t);
    YearBound(t);
    if MonthM(t) == 14 { FebruaryEnd(t); }
    SplitIs(YearM(t), MonthM(t), t.day);
  }

  lemma YearBound(t: Date)
    requires Gregorian(t)
    ensures YearM(t) >= 1582 && 3 <= MonthM(t) <= 14
  {
  }

  // ----- JulDate inverts CalDate -----

  function NextDay(t: Date): Date {
    if t.day < DaysInMonth(t.year, t.month) then Date(t.year, t.month, t.day + 1)
    else if t.month < 12 then Date(t.year, t.month + 1, 1)
    else Date(t.year + 1, 1, 1)
  }

  /** Consecutive dates have consecutive day numbers. */
  lemma NextDayMjd(t: Date)
    requires Gregorian(t)
    ensures Gregorian(NextDay(t)) && ToMjd(NextDay(t)) == ToMjd(t) + 1
  {
    hide ToMjd;
    var n := NextDay(t);
    ToMjdExact(t);
    ToMjdExact(n);
    if t.month == 2 && n.month == 3 { YearStep(YearM(t)); }
  }

  /** How the three leap corrections move from one March-based year to the next. */
  lemma YearStep(y: int)
    requires y >= 0
    ensures (1461 * (y + 1)) / 4 - (1461 * y) / 4 - (y + 1) / 100 + y / 100 + (y + 1) / 400 - y / 400 ==
            if LeapYear(y + 1) then 366 else 365
  {
    QuarterStep(y);
    DivStep100(y);
    DivStep400(y);
  }

  lemma QuarterStep(y: int)
    ensures (1461 * (y + 1)) / 4 - (1461 * y) / 4 == (if (y + 1) % 4 == 0 then 366 else 365)
  {
    assert 4 * ((1461 * y) / 4) == 1461 * y - y % 4;
    assert 4 * ((1461 * (y + 1)) / 4) == 1461 * (y + 1) - (y + 1) % 4;
  }

  lemma DivStep100(y: int)
    ensures (y + 1) / 100 - y / 100 == (if (y + 1) % 100 == 0 then 1 else 0)
    ensures (y + 1) % 100 == 0 ==> (y + 1) % 4 == 0
  {
  }

  lemma DivStep400(y: int)
    ensures (y + 1) / 400 - y / 400 == (if (y + 1) % 400 == 0 then 1 else 0)
    ensures (y + 1) % 400 == 0 ==> (y + 1) % 100 == 0
  {
  }

  /** The first Gregorian day. */
  const GREGORIAN_MJD := -100840

  lemma {:induction false} EveryDay(mjd: int)
    requires mjd >= GREGORIAN_MJD
    ensures Gregorian(FromMjd(mjd)) && ToMjd(FromMjd(mjd)) == mjd
    decreases mjd - GREGORIAN_MJD
  {
    hide FromMjd, ToMjd;
    if mjd == GREGORIAN_MJD {
      FirstGregorian();
      FromToMjd(Date(1582, 10, 15));
    } else {
      EveryDay(mjd - 1);
      NextDayMjd(FromMjd(mjd - 1));
      FromToMjd(NextDay(FromMjd(mjd - 1)));
    }
  }

  lemma FirstGregorian()
    ensures Gregorian(Date(1582, 10, 15)) && ToMjd(Date(1582, 10, 15)) == GREGORIAN_MJD
  {
    ToMjdExact(Date(1582, 10, 15));
  }

  /** The branch for `ke == 3` and the clip after 28 February change no date from the reform on. */
  lemma NoClip(mjd: int)
    requires mjd >= GREGORIAN_MJD
    ensures var p := Split(Corrected(mjd + 2400001));
            p.ke != 3 && (FromMjd(mjd).month == 2 ==> FromMjd(mjd).day == p.day)
  {
    hide FromMjd, ToMjd, Split, Corrected;
    EveryDay(mjd);
    var t := FromMjd(mjd);
    CorrectedIs(t);
    YearBound(t);
    if MonthM(t) == 14 { FebruaryEnd(t); }
    SplitIs(YearM(t), MonthM(t), t.day);
  }

  // ----- years -----

  /** The first of January. */
  function YearStart(year: int): int { ToMjd(Date(year, 1, 1)) }

  function YearLength(year: int): int { if LeapYear(year) then 366 else 365 }

  lemma YearStarts(year: int)
    requires year >= FIRST_YEAR
    ensures YearStart(year + 1) == YearStart(year) + YearLength(year)
  {
    hide ToMjd;
    ToMjdExact(Date(year, 1, 1));
    ToMjdExact(Date(year + 1, 1, 1));
    YearStep(year - 1);
  }

  function DaysBefore(year: int, month: int): int
    requires 1 <= month <= 12
  {
    if month == 1 then 0 else DaysInMonth(year, month - 1) + DaysBefore(year, month - 1)
  }

  /** The day within the year of a date, from the formulas and from the lengths of the months. */
  lemma DayInYear(t: Date)
    requires Gregorian(t) && t.year >= FIRST_YEAR
    ensures ToMjd(t) == YearStart(t.year) + DaysBefore(t.year, t.month) + t.day - 1
    ensures 0 <= ToMjd(t) - YearStart(t.year) < YearLength(t.year)
  {
    hide ToMjd;
    ToMjdExact(t);
    ToMjdExact(Date(t.year, 1, 1));
    if t.month > 2 { YearStep(t.year - 1); }
    MonthsBefore(t.year);
  }

  lemma MonthsBefore(year: int)
    ensures forall m :: 1 <= m <= 12 ==>
              DaysBefore(year, m) == if m <= 2 then 31 * (m - 1) else MonthTable(m + 1) - 63 + YearLength(year) - 365
  {
    assert DaysBefore(year, 1) == 0 && DaysBefore(year, 2) == 31;
    assert DaysBefore(year, 3) == 59 + YearLength(year) - 365;
    assert DaysBefore(year, 5) == 120 + YearLength(year) - 365;
    assert DaysBefore(year, 7) == 181 + YearLength(year) - 365;
    assert DaysBefore(year, 9) == 243 + YearLength(year) - 365;
    assert DaysBefore(year, 11) == 304 + YearLength(year) - 365;
  }

  function YearOf(mjd: int): int { FromMjd(mjd).year }

  /** A day belongs to the one year whose span contains it. */
  lemma YearOfIs(mjd: int, year: int)
    requires year >= FIRST_YEAR && YearStart(year) <= mjd < YearStart(year + 1)
    ensures YearOf(mjd) == year
  {
    hide FromMjd, ToMjd;
    YearFloor(year);
    EveryDay(mjd);
    var t := FromMjd(mjd);
    if t.year < year {
      if t.year >= FIRST_YEAR {
        DayInYear(t);
        YearStarts(t.year);
        YearsOrdered(t.year + 1, year);
      } else {
        Before1583(t);
        YearsOrdered(FIRST_YEAR, year);
      }
    } else if t.year > year {
      DayInYear(t);
      YearsOrdered(year + 1, t.year);
    }
  }

  lemma YearFloor(year: int)
    requires year >= FIRST_YEAR
    ensures YearStart(year) >= GREGORIAN_MJD + 78
  {
    hide ToMjd;
    ToMjdExact(Date(year, 1, 1));
  }

  lemma Before1583(t: Date)
    requires Gregorian(t) && t.year < FIRST_YEAR
    ensures ToMjd(t) < YearStart(FIRST_YEAR)
  {
    hide ToMjd;
    ToMjdExact(t);
    ToMjdExact(Date(FIRST_YEAR, 1, 1));
  }

  lemma {:induction false} YearsOrdered(y1: int, y2: int)
    requires FIRST_YEAR <= y1 <= y2
    ensures YearStart(y1) + 365 * (y2 - y1) <= YearStart(y2)
    decreases y2 - y1
  {
    hide ToMjd;
    if y1 < y2 {
      YearStarts(y1);
      YearsOrdered(y1 + 1, y2);
    }
  }

  lemma YearBounds(mjd: int)
    requires mjd >= YearStart(FIRST_YEAR)
    ensures YearOf(mjd) >= FIRST_YEAR
    ensures YearStart(YearOf(mjd)) <= mjd < YearStart(YearOf(mjd) + 1)
  {
    hide FromMjd, ToMjd;
    YearFloor(FIRST_YEAR);
    EveryDay(mjd);
    var t := FromMjd(mjd);
    if t.year < FIRST_YEAR { Before1583(t); }
    DayInYear(t);
    YearStarts(t.year);
  }

  // ----- the day of the year -----

  /** The day of the year `CalDate` stores; a year divisible by four counts as a leap year. */
  function DayOfYear(t: Date): int {
    275 * t.month / 9 - (t.month + 9) / 12 * (if t.year % 4 == 0 then 1 else 2) + t.day - 30
  }

  /** It is the day of the year except from March on in the century years that are no leap years. */
  lemma DayOfYearExact(t: Date)
    requires Gregorian(t) && t.year >= FIRST_YEAR
    ensures DayOfYear(t) == ToMjd(t) - YearStart(t.year) + 1 <==>
              !(t.month > 2 && t.year % 4 == 0 && !LeapYear(t.year))
  {
    hide ToMjd;
    DayInYear(t);
    MonthsBefore(t.year);
  }

  // ----- the source's routines, which fill in a record -----

  class UTinstant {
    var jDate: real
    var year: int
    var month: int
    var day: int
    var iHour: int
    var iMinute: int
    var second: real
    var weekday: int
    var dayOfYear: int

    constructor (y: int, m: int, d: int)
      ensures year == y && month == m && day == d && iHour == 0 && iMinute == 0 && second == 0.0
    {
      jDate, year, month, day, iHour, iMinute, second, weekday, dayOfYear := 0.0, y, m, d, 0, 0, 0.0, 0, 0;
    }
  }

  /** The day of the week, 0 for Sunday, with C++'s remainder. */
  function Weekday(jd: int): int {
    if jd + 1 >= 0 then (jd + 1) % 7 else -((-jd - 1) % 7)
  }

  /** Weekdays follow one another, and 1 January 2000 was a Saturday. */
  lemma Weekdays(mjd: int)
    requires mjd >= GREGORIAN_MJD
    ensures 0 <= Weekday(mjd + 2400001) < 7
    ensures Weekday(mjd + 2400002) == (Weekday(mjd + 2400001) + 1) % 7
    ensures ToMjd(Date(2000, 1, 1)) == 51544 && Weekday(51544 + 2400001) == 6
  {
    ToMjdExact(Date(2000, 1, 1));
  }

  /** The integer part of `CalDate`. */
  method SplitDay(jd: int) returns (kc: int, ke: int, day: int)
    ensures Parts(kc, ke, day) == Split(Corrected(jd))
  {
    var ka := jd;
    if jd >= 2299161 {
      var ialp := Trunc((jd as real - 1867216.25) / 36524.25);
      ka := jd + 1 + ialp - ialp / 4;
    }
    var kb := ka + 1524;
    kc := Trunc((kb as real - 122.1) / 365.25);
    var kd := Trunc(kc as real * 365.25);
    ke := Trunc((kb - kd) as real / 30.6001);
    day := kb - kd - Trunc(ke as real * 30.6001);
  }

  /** Fills in the date from the Julian date; the fields for the time of day are left alone here. */
  method CalDate(date: UTinstant) returns (year: int)
    modifies date
    ensures date.jDate == old(date.jDate) && year == date.year
    ensures Date(date.year, date.month, date.day) == FromMjd(Trunc(date.jDate + 0.5) - 2400001)
    ensures date.dayOfYear == DayOfYear(Date(date.year, date.month, date.day))
    ensures date.weekday == Weekday(Trunc(date.jDate + 0.5))
  {
    hide Split, Corrected;
    var jd := Trunc(date.jDate + 0.5);
    var kc, ke, day := SplitDay(jd);
    date.day := day;
    if ke > 13 {
      date.month := ke - 13;
    } else {
      date.month := ke - 1;
    }
    if date.month == 2 && date.day > 28 {
      date.day := 29;
    }
    if date.month == 2 && date.day == 29 && ke == 3 {
      date.year := kc - 4716;
    } else if date.month > 2 {
      date.year := kc - 4716;
    } else {
      date.year := kc - 4715;
    }
    date.weekday := Weekday(jd);
    if date.year == date.year / 4 * 4 {
      date.dayOfYear := 275 * date.month / 9 - (date.month + 9) / 12 + date.day - 30;
    } else {
      date.dayOfYear := 275 * date.month / 9 - (date.month + 9) / 12 * 2 + date.day - 30;
    }
    year := date.year;
  }

  /** Fills in the Julian date. At midnight it is the day number less a half. */
  method JulDate(date: UTinstant) returns (j: real)
    modifies date
    ensures j == date.jDate && date.weekday == Weekday(Trunc(j + 0.5))
    ensures date.year == old(date.year) && date.month == old(date.month) && date.day == old(date.day)
    ensures old(date.iHour) == 0 && old(date.iMinute) == 0 && old(date.second) == 0.0 ==>
              j == ToMjd(Date(date.year, date.month, date.day)) as real + 2400000.5
  {
    hide Trunc, TruncDiv, Weekday;
    var frac := date.iHour as real / 24.0 + date.iMinute as real / 1440.0 + date.second / 86400.0;
    var gyr := date.year as real + 0.01 * date.month as real + 0.0001 * date.day as real + 0.0001 * frac + 0.000000001;
    var iy0, im0;
    if date.month <= 2 {
      iy0, im0 := date.year - 1, date.month + 12;
    } else {
      iy0, im0 := date.year, date.month;
    }
    var ia := TruncDiv(iy0, 100);
    var ib := 2 - ia + ia / 4;
    var jd;
    if date.year <= 0 {
      jd := Trunc(365.25 * iy0 as real - 0.75) + Trunc(30.6001 * (im0 + 1) as real) + date.day + 1720994;
    } else {
      jd := Trunc(365.25 * iy0 as real) + Trunc(30.6001 * (im0 + 1) as real) + date.day + 1720994;
    }
    if gyr >= 1582.1015 {
      jd := jd + ib;
    }
    date.jDate := jd as real + frac + 0.5;
    jd := Trunc(date.jDate + 0.5);
    date.weekday := Weekday(jd);
    j := date.jDate;
  }
}
