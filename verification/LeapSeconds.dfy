/**
 * Leap seconds: how many there are between two days, how long years are, and
 * how a count of seconds since the start of a year, leap seconds included,
 * splits into a day and a second of that day. Everything holds for any
 * strictly increasing list of days that end with a leap second.
 */
module LeapSeconds {
  import opened Calendar

  const SECONDS_IN_DAY := 86400

  /** Tenths of a nanosecond in a second. */
  const TICKS := 10_000_000_000

  ghost predicate Increasing(leaps: seq<int>) {
    forall i, j :: 0 <= i < j < |leaps| ==> leaps[i] < leaps[j]
  }

  /** `lower_bound`: the number of leap days before a day. */
  function LeapsBefore(leaps: seq<int>, mjd: int): (n: nat)
    ensures n <= |leaps|
  {
    if leaps == [] || leaps[0] >= mjd then 0 else 1 + LeapsBefore(leaps[1..], mjd)
  }

  /** The leap seconds on the days from `mjd1` up to, not including, `mjd2`; negative in the other direction. */
  function LeapsRange(leaps: seq<int>, mjd1: int, mjd2: int): int {
    LeapsBefore(leaps, mjd2) - LeapsBefore(leaps, mjd1)
  }

  function SecondsInDay(leaps: seq<int>, mjd: int): int {
    SECONDS_IN_DAY + if mjd in leaps then 1 else 0
  }

  lemma {:induction false} LeapStep(leaps: seq<int>, mjd: int)
    requires Increasing(leaps)
    ensures LeapsBefore(leaps, mjd + 1) == LeapsBefore(leaps, mjd) + (if mjd in leaps then 1 else 0)
  {
    if leaps != [] {
      if leaps[0] < mjd {
        LeapStep(leaps[1..], mjd);
        assert mjd in leaps <==> mjd in leaps[1..];
      } else if mjd in leaps {
        var i :| 0 <= i < |leaps| && leaps[i] == mjd;
        assert i == 0;
        if |leaps| > 1 { assert leaps[1..][0] > mjd; }
      }
    }
  }

  lemma {:induction false} LeapsMonotone(leaps: seq<int>, mjd1: int, mjd2: int)
    requires Increasing(leaps) && mjd1 <= mjd2
    ensures 0 <= LeapsRange(leaps, mjd1, mjd2) <= mjd2 - mjd1
    decreases mjd2 - mjd1
  {
    if mjd1 < mjd2 {
      LeapsMonotone(leaps, mjd1, mjd2 - 1);
      LeapStep(leaps, mjd2 - 1);
    }
  }

  // ----- years -----

  /**
   * `mod_julian_day_start_of_year`: the Julian date less 2400000, so half a
   * day late, cut toward zero.
   */
  function StartOfYear(year: int): int {
    Trunc(YearStart(year) as real + 0.5)
  }

  /** Cutting toward zero drops the half day exactly when the day number is not negative, from 1859 on. */
  lemma StartOfYearExact(year: int)
    ensures StartOfYear(year) == YearStart(year) <==> YearStart(year) >= 0
    ensures year >= FIRST_YEAR ==> (YearStart(year) >= 0 <==> year >= 1859)
    ensures YearStart(year) < 0 ==> StartOfYear(year) == YearStart(year) + 1
  {
    hide ToMjd;
    var s := YearStart(year);
    if s >= 0 {
      TruncIs(s as real + 0.5, s);
    } else {
      TruncIs(-(s as real + 0.5), -s - 1);
    }
    if year >= FIRST_YEAR {
      ToMjdExact(Date(1859, 1, 1));
      ToMjdExact(Date(1858, 1, 1));
      if year >= 1859 { YearsOrdered(1859, year); } else { YearsOrdered(year, 1858); }
    }
  }

  /** `max_DAQ_time`: the ticks in a year. */
  function MaxDaqTime(leaps: seq<int>, year: int): int {
    (YearLength(year) * SECONDS_IN_DAY + LeapsRange(leaps, StartOfYear(year), StartOfYear(year + 1))) * TICKS
  }

  lemma StartsMonotone(year: int)
    ensures YearStart(year) <= YearStart(year + 1) && StartOfYear(year) <= StartOfYear(year + 1)
  {
    hide Trunc, TruncDiv;
    if year >= FIRST_YEAR {
      YearStarts(year);
    } else {
      OldStart(year);
      OldStart(year + 1);
      if year == 1582 { ToMjdExact(Date(1583, 1, 1)); }
    }
    CutMonotone(YearStart(year), YearStart(year + 1));
  }

  lemma CutMonotone(a: int, b: int)
    requires a <= b
    ensures Trunc(a as real + 0.5) <= Trunc(b as real + 0.5)
  {
  }

  /** The first of January before the reform, in the Julian calendar. */
  lemma OldStart(year: int)
    ensures year <= 1582 ==>
              YearStart(year) ==
              (if year <= 0 then -((3 - 1461 * (year - 1)) / 4) else (1461 * (year - 1)) / 4) - 678577
  {
    MonthProduct(14);
    var y := year - 1;
    if year <= 0 {
      TruncIs(-(365.25 * y as real - 0.75), (3 - 1461 * y) / 4);
    } else {
      YearProduct(y);
    }
  }

  lemma MaxDaqPositive(leaps: seq<int>, year: int)
    requires Increasing(leaps)
    ensures MaxDaqTime(leaps, year) >= 365 * SECONDS_IN_DAY * TICKS
  {
    hide StartOfYear;
    StartsMonotone(year);
    LeapsMonotone(leaps, StartOfYear(year), StartOfYear(year + 1));
  }

  // ----- days and seconds -----

  /** The first year that starts after MJD 0. */
  const FIRST_MJD_YEAR := 1859

  lemma FirstStarts()
    ensures YearStart(FIRST_MJD_YEAR) == 45 && YearStart(FIRST_YEAR) < -100000
  {
    ToMjdExact(Date(FIRST_MJD_YEAR, 1, 1));
    ToMjdExact(Date(FIRST_YEAR, 1, 1));
  }

  /** No leap second comes before 1859; the first one ever was in 1972. */
  predicate NoneEarly(leaps: seq<int>) {
    forall i :: 0 <= i < |leaps| ==> leaps[i] >= YearStart(FIRST_MJD_YEAR)
  }

  /** Leap seconds are counted right: there are none where day numbers may be negative. */
  predicate Counted(leaps: seq<int>, year: int) {
    year >= FIRST_MJD_YEAR || NoneEarly(leaps)
  }

  /** The same, in the Gregorian calendar. */
  predicate Era(leaps: seq<int>, year: int) {
    year >= FIRST_YEAR && Counted(leaps, year)
  }

  /** One for the days before MJD 0 that are read as the next day: cutting toward zero rounds a part of them up. */
  function RoundedUp(mjd: int, sec: int): int {
    if mjd < 0 && sec != 0 then 1 else 0
  }

  /** In the Julian calendar too a year starts after the one before. */
  lemma {:induction false} StartsOrdered(y1: int, y2: int)
    requires y1 <= y2
    ensures YearStart(y1) <= YearStart(y2)
    decreases y2 - y1
  {
    hide ToMjd, StartOfYear;
    if y1 < y2 {
      StartsOrdered(y1, y2 - 1);
      StartsMonotone(y2 - 1);
    }
  }

  /** Up to the start of 1859 there are no leap seconds to count. */
  lemma EarlyYear(leaps: seq<int>, year: int)
    requires NoneEarly(leaps) && year < FIRST_MJD_YEAR
    ensures YearStart(year) + YearLength(year) <= 45
    ensures StartOfYear(year) <= 45 && StartOfYear(year + 1) <= 45
  {
    hide ToMjd, Trunc;
    FirstStarts();
    StartsOrdered(year + 1, FIRST_MJD_YEAR);
    if year >= FIRST_YEAR {
      YearStarts(year);
    } else {
      StartsOrdered(year, FIRST_YEAR);
    }
    StartOfYearExact(year);
    StartOfYearExact(year + 1);
    StartsOrdered(year, year + 1);
  }

  lemma EarlyLeaps(leaps: seq<int>, mjd: int)
    requires NoneEarly(leaps) && mjd <= 45
    ensures LeapsBefore(leaps, mjd) == 0 && (mjd < 45 ==> mjd !in leaps)
  {
    hide ToMjd;
    FirstStarts();
  }

  /** Seconds from the start of the year to the start of its day `d`, counted from 0. */
  function DayStart(leaps: seq<int>, year: int, d: int): int {
    d * SECONDS_IN_DAY + LeapsRange(leaps, YearStart(year), YearStart(year) + d)
  }

  /**
   * `modjulianday(year, daqTime)` as a fraction of days: a first guess that
   * ignores leap seconds decides how many of them to take out of the second.
   */
  function ModJulianDay(leaps: seq<int>, year: int, secs: int): real {
    var guess := YearStart(year) as real + secs as real / 86400.0;
    var corrected := secs - LeapsRange(leaps, StartOfYear(year), Trunc(guess));
    YearStart(year) as real + corrected as real / 86400.0
  }

  lemma WholeDays(start: int, secs: int)
    requires start >= 0 && secs >= 0
    ensures Trunc(start as real + secs as real / 86400.0) == start + secs / SECONDS_IN_DAY
  {
    TruncIs(start as real + secs as real / 86400.0, start + secs / SECONDS_IN_DAY);
  }

  lemma DayStartStep(leaps: seq<int>, year: int, d: int)
    requires Increasing(leaps)
    ensures DayStart(leaps, year, d + 1) == DayStart(leaps, year, d) + SecondsInDay(leaps, YearStart(year) + d)
  {
    LeapStep(leaps, YearStart(year) + d);
  }

  lemma Quotient(d: int, x: int)
    requires 0 <= x < SECONDS_IN_DAY
    ensures (d * SECONDS_IN_DAY + x) / SECONDS_IN_DAY == d
  {
  }

  lemma LatePasses(leaps: seq<int>, year: int, d: int, sec: int)
    requires Increasing(leaps) && year >= FIRST_MJD_YEAR && 0 <= d < YearLength(year)
    requires 0 <= sec < SecondsInDay(leaps, YearStart(year) + d)
    ensures Trunc(ModJulianDay(leaps, year, DayStart(leaps, year, d) + sec)) == YearStart(year) + d
  {
    hide ToMjd, Trunc;
    var start := YearStart(year);
    StartOfYearExact(year);
    LeapsMonotone(leaps, start, start + d);
    LeapStep(leaps, start + d);
    var n := LeapsRange(leaps, start, start + d);
    var secs := DayStart(leaps, year, d) + sec;
    WholeDays(start, secs);
    if n + sec < SECONDS_IN_DAY {
      Quotient(d, n + sec);
      WholeDays(start, secs - n);
      Quotient(d, sec);
    } else {
      Quotient(d + 1, n + sec - SECONDS_IN_DAY);
      var n' := LeapsRange(leaps, start, start + d + 1);
      WholeDays(start, secs - n');
      Quotient(d, sec + n - n');
    }
  }

  /** Cutting toward zero, on both sides of it. */
  lemma WholeDaysSigned(start: int, d: int, sec: int)
    requires 0 <= sec < SECONDS_IN_DAY
    ensures Trunc(start as real + (d * SECONDS_IN_DAY + sec) as real / 86400.0) == start + d + RoundedUp(start + d, sec)
  {
    var day := start + d;
    var x := start as real + (d * SECONDS_IN_DAY + sec) as real / 86400.0;
    assert x == day as real + sec as real / 86400.0;
    if day >= 0 {
      TruncIs(x, day);
    } else if sec == 0 {
      TruncIs(-x, -day);
    } else {
      TruncIs(-x, -day - 1);
    }
  }

  /** In a year without leap seconds before and in it nothing is corrected. */
  lemma EarlyPasses(leaps: seq<int>, year: int, d: int, sec: int)
    requires NoneEarly(leaps) && year < FIRST_MJD_YEAR
    requires 0 <= d < YearLength(year) && 0 <= sec < SecondsInDay(leaps, YearStart(year) + d)
    ensures sec < SECONDS_IN_DAY && DayStart(leaps, year, d) == d * SECONDS_IN_DAY
    ensures ModJulianDay(leaps, year, DayStart(leaps, year, d) + sec) ==
              YearStart(year) as real + (d * SECONDS_IN_DAY + sec) as real / 86400.0
  {
    hide ToMjd, Trunc;
    var start := YearStart(year);
    EarlyYear(leaps, year);
    EarlyLeaps(leaps, start);
    EarlyLeaps(leaps, start + d);
    EarlyLeaps(leaps, StartOfYear(year));
    WholeDaysSigned(start, d, sec);
    EarlyLeaps(leaps, start + d + RoundedUp(start + d, sec));
  }

  /**
   * The two passes find the day, on its leap second too and however many leap
   * seconds came before; a part of a day before MJD 0 is read as the next day.
   */
  lemma TwoPasses(leaps: seq<int>, year: int, d: int, sec: int)
    requires Increasing(leaps) && Counted(leaps, year) && 0 <= d < YearLength(year)
    requires 0 <= sec < SecondsInDay(leaps, YearStart(year) + d)
    ensures Trunc(ModJulianDay(leaps, year, DayStart(leaps, year, d) + sec)) ==
              YearStart(year) + d + RoundedUp(YearStart(year) + d, sec)
  {
    hide ToMjd, Trunc, ModJulianDay, DayStart;
    if year >= FIRST_MJD_YEAR {
      LatePasses(leaps, year, d, sec);
      StartOfYearExact(year);
    } else {
      EarlyPasses(leaps, year, d, sec);
      WholeDaysSigned(YearStart(year), d, sec);
    }
  }

  /** Every second of the year lies on one of its days. */
  lemma {:induction false} FindDay(leaps: seq<int>, year: int, secs: int, n: int) returns (d: int, sec: int)
    requires Increasing(leaps) && n >= 1 && 0 <= secs < DayStart(leaps, year, n)
    ensures 0 <= d < n && 0 <= sec < SecondsInDay(leaps, YearStart(year) + d)
    ensures secs == DayStart(leaps, year, d) + sec
    decreases n
  {
    hide ToMjd;
    DayStartStep(leaps, year, n - 1);
    if secs >= DayStart(leaps, year, n - 1) {
      d, sec := n - 1, secs - DayStart(leaps, year, n - 1);
    } else {
      d, sec := FindDay(leaps, year, secs, n - 1);
    }
  }

  /** A year is as long as its days. */
  lemma YearTicks(leaps: seq<int>, year: int)
    requires Counted(leaps, year)
    ensures MaxDaqTime(leaps, year) == DayStart(leaps, year, YearLength(year)) * TICKS
  {
    hide ToMjd, Trunc, StartOfYear;
    StartOfYearExact(year);
    StartOfYearExact(year + 1);
    if year >= FIRST_MJD_YEAR {
      YearStarts(year);
    } else {
      EarlyYear(leaps, year);
      EarlyLeaps(leaps, YearStart(year));
      EarlyLeaps(leaps, YearStart(year) + YearLength(year));
      EarlyLeaps(leaps, StartOfYear(year));
      EarlyLeaps(leaps, StartOfYear(year + 1));
    }
  }

  // ----- days by the calendar and by `leap_year` -----

  /** The year of an early day is not a late one. */
  lemma YearOfEarly(mjd: int)
    requires mjd <= 45
    ensures YearOf(mjd) <= FIRST_MJD_YEAR
  {
    hide ToMjd;
    if mjd >= YearStart(FIRST_YEAR) {
      hide FromMjd;
      YearBounds(mjd);
      FirstStarts();
      if YearOf(mjd) > FIRST_MJD_YEAR {
        YearsOrdered(FIRST_MJD_YEAR, YearOf(mjd));
      }
    } else {
      YearOfOld(mjd);
    }
  }

  lemma YearOfOld(mjd: int)
    requires mjd < YearStart(FIRST_YEAR)
    ensures YearOf(mjd) <= FIRST_MJD_YEAR
  {
    ToMjdExact(Date(FIRST_YEAR, 1, 1));
    var ka := Corrected(mjd + 2400001);
    CorrectedOld(mjd + 2400001);
    CutBelow(((ka + 1524) as real - 122.1) / 365.25, 6500);
  }

  lemma CorrectedOld(jd: int)
    requires jd <= 2300000
    ensures Corrected(jd) <= 2300100
  {
    if jd >= 2299161 {
      CutBelow((jd as real - 1867216.25) / 36524.25, 90);
    }
  }

  lemma CutBelow(x: real, k: int)
    requires x < k as real && k >= 0
    ensures Trunc(x) <= k
  {
  }

  /** Days from the start of 1859 to the start of a year, by the lengths that `leap_year` gives. */
  function LeapYearDays(year: int): int
    decreases if year >= FIRST_MJD_YEAR then year - FIRST_MJD_YEAR else FIRST_MJD_YEAR - year
  {
    if year == FIRST_MJD_YEAR then 0
    else if year > FIRST_MJD_YEAR then LeapYearDays(year - 1) + YearLength(year - 1)
    else LeapYearDays(year + 1) - YearLength(year)
  }

  /** By how many days `modjulianday` and `leap_year` differ from the start of 1859 to the start of a year. */
  function Drift(year: int): int { YearStart(year) - YearStart(FIRST_MJD_YEAR) - LeapYearDays(year) }

  /** They agree on all years of the Gregorian calendar. */
  lemma {:induction false} NoDrift(year: int)
    requires year >= FIRST_YEAR
    ensures Drift(year) == 0
    decreases if year >= FIRST_MJD_YEAR then year - FIRST_MJD_YEAR else FIRST_MJD_YEAR - year
  {
    hide ToMjd;
    if year > FIRST_MJD_YEAR {
      NoDrift(year - 1);
      YearStarts(year - 1);
    } else if year < FIRST_MJD_YEAR {
      NoDrift(year + 1);
      YearStarts(year);
    }
  }

  /**
   * Over a year of the Julian calendar they move apart by a day exactly when it
   * is a century year that is no leap year; the reform takes ten days back.
   */
  lemma DriftStep(year: int)
    requires year < FIRST_YEAR
    ensures Drift(year + 1) == Drift(year) + if year == 1582 then -10 else if Century(year) then 1 else 0
  {
    hide ToMjd, LeapYear;
    JulianLength(year);
    if year == 1582 {
      ToMjdExact(Date(FIRST_YEAR, 1, 1));
      OldStart(year);
    } else {
      JulianYear(year);
    }
  }

  /** A year that the Julian calendar has as a leap year and the Gregorian has not. */
  predicate Century(year: int) { year % 100 == 0 && year % 400 != 0 }

  /** A year of the Julian calendar. */
  lemma JulianYear(year: int)
    requires year < FIRST_YEAR - 1
    ensures YearStart(year + 1) - YearStart(year) == if year % 4 == 0 then 366 else 365
  {
    hide ToMjd;
    OldStart(year);
    OldStart(year + 1);
  }

  lemma JulianLength(year: int)
    ensures YearLength(year) + (if Century(year) then 1 else 0) == if year % 4 == 0 then 366 else 365
  {
    if year % 100 == 0 { assert year == 4 * (25 * (year / 100)); }
    if year % 400 == 0 { assert year == 100 * (4 * (year / 400)); }
  }
}
