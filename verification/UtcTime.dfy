/**
 * Times as a year and a count of tenths of a nanosecond since its start, leap
 * seconds included. Setting and reading days and seconds, Unix times, and the
 * arithmetic of offsets and differences are all related to one absolute count.
 */
module UtcTime {
  import opened Options
  import opened Calendar
  import opened LeapSeconds

  datatype Time = Time(year: int, daq: int)

  predicate Normal(leaps: seq<int>, t: Time) {
    0 <= t.daq < MaxDaqTime(leaps, t.year)
  }

  // ----- getters -----

  /** Whole seconds since the start of the year; C++'s division. */
  function Secs(t: Time): int { TruncDiv(t.daq, TICKS) }

  /** Ticks within the second; C++'s remainder. */
  function SubTicks(t: Time): int { t.daq - Secs(t) * TICKS }

  function GetModJulianDay(leaps: seq<int>, t: Time): int {
    Trunc(ModJulianDay(leaps, t.year, Secs(t)))
  }

  function YearToDateLeaps(leaps: seq<int>, mjd: int): int {
    LeapsRange(leaps, StartOfYear(YearOf(mjd)), mjd)
  }

  function GetModJulianSec(leaps: seq<int>, t: Time): int {
    var mjd := GetModJulianDay(leaps, t);
    Secs(t) - YearToDateLeaps(leaps, mjd) - (mjd - YearStart(t.year)) * SECONDS_IN_DAY
  }

  function GetModJulianNanoSec(t: Time): real { 0.1 * SubTicks(t) as real }

  predicate IsLeapSecond(leaps: seq<int>, t: Time) { GetModJulianSec(leaps, t) == 86400 }

  // ----- setters -----

  /** The time a day, a second and a fraction name, or nothing when one of them is out of range. */
  function AtModJulian(leaps: seq<int>, mjd: int, sec: int, ns: real): Option<Time> {
    if sec < 0 || sec >= SecondsInDay(leaps, mjd) || ns < 0.0 || ns >= 1000000000.0 then None
    else
      var year := YearOf(mjd);
      var secs := (mjd - YearStart(year)) * 3600 * 24 + sec;
      Some(Time(year, (secs + YearToDateLeaps(leaps, mjd)) * TICKS + Trunc(ns * 10.0)))
  }

  /** What setting refuses: a second past the day's last, 86400 only on a leap day, or no fraction of a second. */
  lemma SetRefuses(leaps: seq<int>, mjd: int, sec: int, ns: real)
    ensures AtModJulian(leaps, mjd, sec, ns) == None <==>
              sec < 0 || sec > 86400 || (sec == 86400 && mjd !in leaps) || ns < 0.0 || ns >= 1000000000.0
  {
  }

  /** The parts of a time: day of the year, second of the day, ticks of the second. */
  ghost predicate Has(leaps: seq<int>, t: Time, d: int, sec: int, sub: int) {
    && 0 <= d < YearLength(t.year) && 0 <= sec < SecondsInDay(leaps, YearStart(t.year) + d) && 0 <= sub < TICKS
    && t.daq == (DayStart(leaps, t.year, d) + sec) * TICKS + sub
  }

  lemma SplitTicks(secs: int, sub: int)
    requires secs >= 0 && 0 <= sub < TICKS
    ensures TruncDiv(secs * TICKS + sub, TICKS) == secs
  {
  }

  /**
   * Whoever has these parts is normal, and the getters return them, but for a
   * part of a day before MJD 0: it is read as the next day, less a day's seconds.
   */
  lemma GettersRead(leaps: seq<int>, t: Time, d: int, sec: int, sub: int)
    requires Increasing(leaps) && Counted(leaps, t.year) && Has(leaps, t, d, sec, sub)
    ensures Normal(leaps, t) && Secs(t) == DayStart(leaps, t.year, d) + sec
    ensures var day := YearStart(t.year) + d;
            && GetModJulianDay(leaps, t) == day + RoundedUp(day, sec)
            && GetModJulianSec(leaps, t) == sec - RoundedUp(day, sec) * SECONDS_IN_DAY
            && SubTicks(t) == sub
  {
    hide ToMjd, FromMjd, Trunc, TruncDiv, MaxDaqTime, ModJulianDay, NoneEarly;
    var y, secs := t.year, DayStart(leaps, t.year, d) + sec;
    LeapsMonotone(leaps, YearStart(y), YearStart(y) + d);
    DaysFit(leaps, y, d, sec);
    SplitTicks(secs, sub);
    TwoPasses(leaps, y, d, sec);
    YearTicks(leaps, y);
    LeapsToDate(leaps, y, d, sec);
  }

  /** The leap seconds that `GetModJulianSec` takes out are those of the year before its day. */
  lemma LeapsToDate(leaps: seq<int>, year: int, d: int, sec: int)
    requires Counted(leaps, year) && 0 <= d < YearLength(year)
    ensures var day := YearStart(year) + d;
            YearToDateLeaps(leaps, day + RoundedUp(day, sec)) == LeapsRange(leaps, YearStart(year), day)
  {
    hide ToMjd, FromMjd, Trunc, YearOf, StartOfYear;
    var day := YearStart(year) + d;
    var mjd := day + RoundedUp(day, sec);
    if year < FIRST_MJD_YEAR {
      EarlyYear(leaps, year);
      EarlyLeaps(leaps, YearStart(year));
      EarlyLeaps(leaps, day);
      EarlyToDate(leaps, mjd);
    } else {
      StartOfYearExact(year);
      YearStarts(year);
      YearOfIs(day, year);
    }
  }

  lemma EarlyToDate(leaps: seq<int>, mjd: int)
    requires NoneEarly(leaps) && mjd <= 45
    ensures YearToDateLeaps(leaps, mjd) == 0
  {
    hide ToMjd, FromMjd, Trunc, YearOf, StartOfYear;
    YearOfEarly(mjd);
    StartNotLate(YearOf(mjd));
    EarlyLeaps(leaps, mjd);
    EarlyLeaps(leaps, StartOfYear(YearOf(mjd)));
  }

  lemma StartNotLate(year: int)
    requires year <= FIRST_MJD_YEAR
    ensures StartOfYear(year) <= 45
  {
    hide ToMjd, Trunc;
    FirstStarts();
    StartsOrdered(year, FIRST_MJD_YEAR);
    StartOfYearExact(year);
  }

  lemma {:induction false} DaysOrdered(leaps: seq<int>, year: int, d1: int, d2: int)
    requires Increasing(leaps) && d1 <= d2
    ensures DayStart(leaps, year, d1) <= DayStart(leaps, year, d2)
    decreases d2 - d1
  {
    hide ToMjd;
    if d1 < d2 {
      DaysOrdered(leaps, year, d1, d2 - 1);
      DayStartStep(leaps, year, d2 - 1);
    }
  }

  lemma DaysFit(leaps: seq<int>, year: int, d: int, sec: int)
    requires Increasing(leaps) && 0 <= d < YearLength(year) && 0 <= sec < SecondsInDay(leaps, YearStart(year) + d)
    ensures 0 <= DayStart(leaps, year, d) + sec < DayStart(leaps, year, YearLength(year))
  {
    hide ToMjd;
    DayStartStep(leaps, year, d);
    DaysOrdered(leaps, year, d + 1, YearLength(year));
    LeapsMonotone(leaps, YearStart(year), YearStart(year) + d);
  }

  /** Every normal time has parts. */
  lemma Parts(leaps: seq<int>, t: Time) returns (d: int, sec: int, sub: int)
    requires Increasing(leaps) && Counted(leaps, t.year) && Normal(leaps, t)
    ensures Has(leaps, t, d, sec, sub)
  {
    hide ToMjd, MaxDaqTime;
    YearTicks(leaps, t.year);
    sub := t.daq % TICKS;
    d, sec := FindDay(leaps, t.year, t.daq / TICKS, YearLength(t.year));
  }

  /** The tenths of a nanosecond in a fraction of a second. */
  lemma TicksOf(ns: real)
    requires 0.0 <= ns < 1000000000.0
    ensures 0 <= Trunc(ns * 10.0) < TICKS
  {
  }

  /** The days in years that are counted right. */
  predicate InEra(leaps: seq<int>, mjd: int) {
    mjd >= YearStart(FIRST_MJD_YEAR) || (mjd >= YearStart(FIRST_YEAR) && NoneEarly(leaps))
  }

  /**
   * Setting a day and a second, then reading them back, gives them again, on
   * leap seconds too, if and only if the day is not before MJD 0 or the second
   * is the first of its day; the stored time is normal in either case.
   */
  lemma SetThenGet(leaps: seq<int>, mjd: int, sec: int, ns: real)
    requires Increasing(leaps) && InEra(leaps, mjd)
    requires 0 <= sec < SecondsInDay(leaps, mjd) && 0.0 <= ns < 1000000000.0
    ensures var r := AtModJulian(leaps, mjd, sec, ns);
            && r.Some? && r.value.year == YearOf(mjd) && Era(leaps, r.value.year) && Normal(leaps, r.value)
            && (GetModJulianDay(leaps, r.value) == mjd <==> mjd >= 0 || sec == 0)
            && (GetModJulianSec(leaps, r.value) == sec <==> mjd >= 0 || sec == 0)
            && TotalSecs(leaps, r.value) == mjd * SECONDS_IN_DAY + sec
            && SubTicks(r.value) == Trunc(ns * 10.0)
  {
    hide ToMjd, FromMjd, Trunc, MaxDaqTime, GetModJulianDay, GetModJulianSec, SubTicks;
    var d := SetParts(leaps, mjd, sec, ns);
    GettersRead(leaps, AtModJulian(leaps, mjd, sec, ns).value, d, sec, Trunc(ns * 10.0));
  }

  /** The day and the second read, as seconds since MJD 0 without leap seconds. */
  function TotalSecs(leaps: seq<int>, t: Time): int {
    GetModJulianDay(leaps, t) * SECONDS_IN_DAY + GetModJulianSec(leaps, t)
  }

  /** The time set has the parts it was set to. */
  lemma SetParts(leaps: seq<int>, mjd: int, sec: int, ns: real) returns (d: int)
    requires Increasing(leaps) && InEra(leaps, mjd)
    requires 0 <= sec < SecondsInDay(leaps, mjd) && 0.0 <= ns < 1000000000.0
    ensures var r := AtModJulian(leaps, mjd, sec, ns);
            && r.Some? && r.value.year == YearOf(mjd) && Era(leaps, r.value.year)
            && d == mjd - YearStart(r.value.year) && Has(leaps, r.value, d, sec, Trunc(ns * 10.0))
  {
    hide ToMjd, FromMjd, Trunc, NoneEarly;
    YearAtLeast(leaps, mjd);
    var y := YearOf(mjd);
    d := mjd - YearStart(y);
    YearStarts(y);
    LeapsToDate(leaps, y, d, 0);
    TicksOf(ns);
  }

  lemma YearAtLeast(leaps: seq<int>, mjd: int)
    requires InEra(leaps, mjd)
    ensures Era(leaps, YearOf(mjd)) && YearOf(mjd) >= FIRST_YEAR
    ensures YearStart(YearOf(mjd)) <= mjd < YearStart(YearOf(mjd) + 1)
  {
    hide ToMjd, FromMjd, NoneEarly;
    YearsOrdered(FIRST_YEAR, FIRST_MJD_YEAR);
    YearBounds(mjd);
    if YearOf(mjd) < FIRST_MJD_YEAR { YearsOrdered(YearOf(mjd) + 1, FIRST_MJD_YEAR); }
  }

  /** A day before MJD 0 and a second past its first are not read back. */
  lemma ReadsNextDay()
    ensures var r := AtModJulian([], -1000, 43200, 0.0);
            r.Some? && GetModJulianDay([], r.value) == -999 && GetModJulianSec([], r.value) == -43200
  {
    hide ToMjd, FromMjd, Trunc, GetModJulianDay, GetModJulianSec, SubTicks, NoneEarly;
    var none: seq<int> := [];
    assert NoneEarly(none) by { EarlyNone(none); }
    FirstStarts();
    var d := SetParts(none, -1000, 43200, 0.0);
    GettersRead(none, AtModJulian(none, -1000, 43200, 0.0).value, d, 43200, Trunc(0.0 * 10.0));
  }

  lemma EarlyNone(none: seq<int>)
    requires none == []
    ensures NoneEarly(none)
  {
  }

  /**
   * Reading the day, the second and the fraction of a normal time and setting
   * them gives the time again if and only if it is not before MJD 0 or is in
   * the first second of a day.
   */
  lemma GetThenSet(leaps: seq<int>, t: Time)
    requires Increasing(leaps) && Era(leaps, t.year) && Normal(leaps, t)
    ensures AtModJulian(leaps, GetModJulianDay(leaps, t), GetModJulianSec(leaps, t), GetModJulianNanoSec(t)) == Some(t)
              <==>
              YearStart(t.year) * SECONDS_IN_DAY + Secs(t) >= 0 || Secs(t) % SECONDS_IN_DAY == 0
  {
    hide ToMjd, FromMjd, Trunc, MaxDaqTime, GetModJulianDay, GetModJulianSec, SubTicks, NoneEarly, DayStart;
    var d, sec, sub := Parts(leaps, t);
    GettersRead(leaps, t, d, sec, sub);
    StartSplits(leaps, t.year, d, sec);
    if RoundedUp(YearStart(t.year) + d, sec) == 0 {
      SetOfParts(leaps, t, d, sec, sub);
    }
  }

  /** Which side of MJD 0 a day and a second lie on. */
  lemma StartSplits(leaps: seq<int>, year: int, d: int, sec: int)
    requires Increasing(leaps) && Era(leaps, year)
    requires 0 <= d < YearLength(year) && 0 <= sec < SecondsInDay(leaps, YearStart(year) + d)
    ensures var secs := DayStart(leaps, year, d) + sec;
            RoundedUp(YearStart(year) + d, sec) == 0 <==>
              YearStart(year) * SECONDS_IN_DAY + secs >= 0 || secs % SECONDS_IN_DAY == 0
    ensures RoundedUp(YearStart(year) + d, sec) == 1 ==> sec < SECONDS_IN_DAY
  {
    hide ToMjd, NoneEarly;
    if year >= FIRST_MJD_YEAR {
      StartOfYearExact(year);
      LeapsMonotone(leaps, YearStart(year), YearStart(year) + d);
    } else {
      EarlyPasses(leaps, year, d, sec);
      Quotient(d, sec);
    }
  }

  /** Setting the parts of a time gives the time. */
  lemma SetOfParts(leaps: seq<int>, t: Time, d: int, sec: int, sub: int)
    requires Era(leaps, t.year) && Has(leaps, t, d, sec, sub)
    ensures AtModJulian(leaps, YearStart(t.year) + d, sec, 0.1 * sub as real) == Some(t)
  {
    hide ToMjd, FromMjd, Trunc, NoneEarly;
    YearStarts(t.year);
    YearOfIs(YearStart(t.year) + d, t.year);
    LeapsToDate(leaps, t.year, d, 0);
    TruncIs(0.1 * sub as real * 10.0, sub);
  }

  // ----- calendar dates -----

  /** `SetUTCCalDate`; a leap second is second 60 of the last minute of its day. */
  function AtUtc(leaps: seq<int>, date: Date, hour: int, minute: int, sec: int, ns: real): Option<Time> {
    var mjd := ToMjd(date);
    if date.month < 1 || date.month > 12 || date.day < 1 || date.day > DaysInMonth(date.year, date.month) then None
    else if hour < 0 || hour > 23 || minute < 0 || minute > 59 then None
    else if sec < 0 || sec > (if mjd in leaps && hour == 23 && minute == 59 then 60 else 59) then None
    else if ns < 0.0 || ns >= 1000000000.0 then None
    else AtModJulian(leaps, mjd, hour * 3600 + minute * 60 + sec, ns)
  }

  /**
   * What setting a date refuses: a month or day that the calendar does not
   * have, an hour, minute or fraction out of range, and a second past 59, but
   * for second 60 of the last minute of a leap day.
   */
  lemma UtcRefuses(leaps: seq<int>, date: Date, hour: int, minute: int, sec: int, ns: real)
    ensures AtUtc(leaps, date, hour, minute, sec, ns) == None <==>
              || !(1 <= date.month <= 12 && 1 <= date.day <= DaysInMonth(date.year, date.month))
              || !(0 <= hour < 24 && 0 <= minute < 60 && 0.0 <= ns < 1000000000.0)
              || sec < 0 || sec > 60 || (sec == 60 && !(ToMjd(date) in leaps && hour == 23 && minute == 59))
  {
    hide ToMjd, FromMjd, Trunc;
    SetRefuses(leaps, ToMjd(date), hour * 3600 + minute * 60 + sec, ns);
  }

  /** The date of `GetUTCMonth` and `GetUTCDayOfMonth`: `CalDate` of the fractional Julian date. */
  function UtcDate(leaps: seq<int>, t: Time): Date {
    FromMjd(Trunc(ModJulianDay(leaps, t.year, Secs(t)) + 2400000.5 + 0.5) - 2400001)
  }

  lemma TruncShift(x: real, k: int)
    requires x >= 0.0 && k >= 0
    ensures Trunc(x + k as real) == Trunc(x) + k
  {
  }

  /** The date read is the right one before MJD 0 too: Julian dates are not negative. */
  lemma DateRead(leaps: seq<int>, t: Time, d: int, sec: int, sub: int)
    requires Increasing(leaps) && Era(leaps, t.year) && Has(leaps, t, d, sec, sub)
    ensures UtcDate(leaps, t) == FromMjd(YearStart(t.year) + d)
  {
    hide ToMjd, FromMjd, Trunc, TruncDiv, MaxDaqTime, ModJulianDay, DayStart, GetModJulianSec, SubTicks, NoneEarly;
    GettersRead(leaps, t, d, sec, sub);
    TwoPasses(leaps, t.year, d, sec);
    FirstStarts();
    var x, start := ModJulianDay(leaps, t.year, Secs(t)), YearStart(t.year);
    assert x + 2400000.5 + 0.5 == x + 2400001 as real;
    if t.year >= FIRST_MJD_YEAR {
      YearsOrdered(FIRST_MJD_YEAR, t.year);
      NotBeforeZero(x, start + d);
      TruncShift(x, 2400001);
    } else {
      YearsOrdered(FIRST_YEAR, t.year);
      FirstNotBefore();
      EarlyPasses(leaps, t.year, d, sec);
      WholeDaysSigned(start + 2400001, d, sec);
    }
  }

  lemma FirstNotBefore()
    ensures YearStart(FIRST_YEAR) >= -2400000
  {
    ToMjdExact(Date(FIRST_YEAR, 1, 1));
  }

  /**
   * Setting a calendar date from 1583 on succeeds and the date read back is
   * the one set; so is the time of day, if and only if the date is not before
   * MJD 0 or the time is midnight.
   */
  lemma UtcThenGet(leaps: seq<int>, date: Date, hour: int, minute: int, sec: int, ns: real)
    requires Increasing(leaps) && Gregorian(date) && Era(leaps, date.year)
    requires 0 <= hour <= 23 && 0 <= minute <= 59 && 0.0 <= ns < 1000000000.0
    requires 0 <= sec <= if ToMjd(date) in leaps && hour == 23 && minute == 59 then 60 else 59
    ensures var r := AtUtc(leaps, date, hour, minute, sec, ns);
            && r.Some? && r.value.year == date.year && UtcDate(leaps, r.value) == date
            && (GetModJulianSec(leaps, r.value) == hour * 3600 + minute * 60 + sec <==>
                  ToMjd(date) >= 0 || (hour == 0 && minute == 0 && sec == 0))
            && (IsLeapSecond(leaps, r.value) <==> sec == 60)
  {
    hide ToMjd, FromMjd, Trunc, TruncDiv, MaxDaqTime, GetModJulianSec, SubTicks, AtModJulian, ModJulianDay, DayStart,
         NoneEarly, UtcDate;
    var mjd, s := ToMjd(date), hour * 3600 + minute * 60 + sec;
    FromToMjd(date);
    DayInYear(date);
    DateInEra(leaps, date);
    var d := SetParts(leaps, mjd, s, ns);
    var t := AtModJulian(leaps, mjd, s, ns).value;
    GettersRead(leaps, t, d, s, Trunc(ns * 10.0));
    DateRead(leaps, t, d, s, Trunc(ns * 10.0));
    assert sec == 60 ==> s == 86400;
    if mjd < 0 { EarlyNoLeap(leaps, mjd); }
  }

  lemma DateInEra(leaps: seq<int>, date: Date)
    requires Gregorian(date) && Era(leaps, date.year)
    ensures InEra(leaps, ToMjd(date))
  {
    hide ToMjd, NoneEarly;
    DayInYear(date);
    YearsOrdered(if date.year >= FIRST_MJD_YEAR then FIRST_MJD_YEAR else FIRST_YEAR, date.year);
  }

  lemma EarlyNoLeap(leaps: seq<int>, mjd: int)
    requires InEra(leaps, mjd) && mjd < 0
    ensures mjd !in leaps
  {
    hide ToMjd;
    FirstStarts();
  }

  lemma NotBeforeZero(x: real, k: int)
    requires Trunc(x) == k && k > 0
    ensures x >= 0.0
  {
  }

  // ----- Unix times -----

  const UNIX_EPOCH := 40587

  function AtUnix(leaps: seq<int>, unix: int, ns: real): Option<Time> {
    if unix < 0 then None else AtModJulian(leaps, unix / 86400 + UNIX_EPOCH, unix % 86400, ns)
  }

  /** The value of a 32-bit int after overflow. */
  function Wrap32(x: int): int { (x + 0x8000_0000) % 0x1_0000_0000 - 0x8000_0000 }

  /** `GetUnixTime` multiplies the days in 32-bit arithmetic. */
  function GetUnixTime(leaps: seq<int>, t: Time): int {
    var unix := Wrap32(Wrap32((GetModJulianDay(leaps, t) - UNIX_EPOCH) * 86400) + GetModJulianSec(leaps, t));
    if IsLeapSecond(leaps, t) then unix - 1 else unix
  }

  lemma EpochYear()
    ensures YearStart(1970) == UNIX_EPOCH && UNIX_EPOCH >= YearStart(FIRST_MJD_YEAR)
  {
    ToMjdExact(Date(1970, 1, 1));
    ToMjdExact(Date(FIRST_MJD_YEAR, 1, 1));
  }

  /** Reading back a Unix time that was set gives it again exactly up to 03:14:07 on 19 January 2038. */
  lemma UnixRoundTrip(leaps: seq<int>, unix: int, ns: real)
    requires Increasing(leaps) && unix >= 0 && 0.0 <= ns < 1000000000.0
    ensures AtUnix(leaps, unix, ns).Some?
    ensures GetUnixTime(leaps, AtUnix(leaps, unix, ns).value) == unix <==> unix <= 0x7FFF_FFFF
  {
    hide ToMjd, FromMjd, Trunc, MaxDaqTime, GetModJulianDay, GetModJulianSec, SubTicks, AtModJulian;
    EpochYear();
    SetThenGet(leaps, unix / 86400 + UNIX_EPOCH, unix % 86400, ns);
  }

  /** Seconds since 1970 without leap seconds, as the day and the second of a time give them. */
  function UnixSecs(leaps: seq<int>, t: Time): int {
    TotalSecs(leaps, t) - UNIX_EPOCH * SECONDS_IN_DAY
  }

  /**
   * Reading the Unix time and the fraction of a normal time and setting them
   * gives the time again if and only if it is not a leap second and the
   * seconds since 1970 fit a 32-bit int and are not negative.
   */
  lemma UnixOfTime(leaps: seq<int>, t: Time)
    requires Increasing(leaps) && Counted(leaps, t.year) && Normal(leaps, t)
    ensures AtUnix(leaps, GetUnixTime(leaps, t), GetModJulianNanoSec(t)) == Some(t) <==>
              !IsLeapSecond(leaps, t) && 0 <= UnixSecs(leaps, t) <= 0x7FFF_FFFF
  {
    hide ToMjd, FromMjd, Trunc, TruncDiv, MaxDaqTime, GetModJulianDay, GetModJulianSec, SubTicks, AtModJulian, DayStart,
         NoneEarly;
    var d, sec, sub := Parts(leaps, t);
    GettersRead(leaps, t, d, sec, sub);
    EpochYear();
    FractionOf(sub);
    WrapSum(GetModJulianDay(leaps, t) - UNIX_EPOCH, GetModJulianSec(leaps, t));
    if t.year < FIRST_MJD_YEAR { EarlyYear(leaps, t.year); }
    var unix, ns := GetUnixTime(leaps, t), GetModJulianNanoSec(t);
    if !IsLeapSecond(leaps, t) && 0 <= UnixSecs(leaps, t) <= 0x7FFF_FFFF {
      Quotient(YearStart(t.year) + d - UNIX_EPOCH, sec);
      SetOfParts(leaps, t, d, sec, sub);
    } else if unix >= 0 {
      SetThenGet(leaps, unix / 86400 + UNIX_EPOCH, unix % 86400, ns);
    }
  }

  /**
   * The Unix time read: the seconds since 1970, less one on a leap second, as
   * far as they fit a 32-bit int; else they are off by a multiple of 2^32.
   */
  lemma UnixTimeIs(leaps: seq<int>, t: Time)
    ensures var unix := GetUnixTime(leaps, t) + if GetModJulianSec(leaps, t) == 86400 then 1 else 0;
            && -0x8000_0000 <= unix <= 0x7FFF_FFFF && (unix - UnixSecs(leaps, t)) % 0x1_0000_0000 == 0
            && (-0x8000_0000 <= UnixSecs(leaps, t) <= 0x7FFF_FFFF ==> unix == UnixSecs(leaps, t))
  {
    hide GetModJulianDay, GetModJulianSec;
    WrapSum(GetModJulianDay(leaps, t) - UNIX_EPOCH, GetModJulianSec(leaps, t));
    WrapIs(UnixSecs(leaps, t));
  }

  lemma WrapIs(u: int)
    ensures -0x8000_0000 <= Wrap32(u) <= 0x7FFF_FFFF && (Wrap32(u) - u) % 0x1_0000_0000 == 0
    ensures -0x8000_0000 <= u <= 0x7FFF_FFFF ==> Wrap32(u) == u
  {
    var q := (u + 0x8000_0000) / 0x1_0000_0000;
    assert Wrap32(u) - u == -q * 0x1_0000_0000;
  }

  /** A leap second has the Unix time of the second before it, unless the 32-bit int overflows between the two. */
  lemma LeapSecondUnix(leaps: seq<int>, mjd: int, ns: real)
    requires Increasing(leaps) && InEra(leaps, mjd) && mjd in leaps && 0.0 <= ns < 1000000000.0
    ensures AtModJulian(leaps, mjd, 86400, ns).Some? && AtModJulian(leaps, mjd, 86399, ns).Some?
    ensures var leap, before := AtModJulian(leaps, mjd, 86400, ns).value, AtModJulian(leaps, mjd, 86399, ns).value;
            GetUnixTime(leaps, leap) == GetUnixTime(leaps, before) <==>
              ((mjd - UNIX_EPOCH + 1) * 86400 + 0x8000_0000) % 0x1_0000_0000 != 0
  {
    hide ToMjd, FromMjd, Trunc, GetModJulianDay, GetModJulianSec, SubTicks, AtModJulian, NoneEarly, Wrap32;
    if mjd < 0 { EarlyNoLeap(leaps, mjd); }
    SetThenGet(leaps, mjd, 86400, ns);
    SetThenGet(leaps, mjd, 86399, ns);
    WrapSum(mjd - UNIX_EPOCH, 86400);
    WrapSum(mjd - UNIX_EPOCH, 86399);
    WrapNext((mjd - UNIX_EPOCH + 1) * 86400);
  }

  lemma WrapNext(u: int)
    ensures Wrap32(u) - 1 == Wrap32(u - 1) <==> (u + 0x8000_0000) % 0x1_0000_0000 != 0
  {
    var x := u + 0x8000_0000;
    var q := x / 0x1_0000_0000;
    assert x - 1 == q * 0x1_0000_0000 + x % 0x1_0000_0000 - 1;
  }

  /** The leap second of 31 December 2016. */
  lemma LastLeapSecond()
    ensures var r := AtModJulian([57753], 57753, 86400, 0.0);
            r.Some? && GetUnixTime([57753], r.value) == 1483228799
  {
    hide ToMjd, FromMjd, Trunc, GetModJulianDay, GetModJulianSec, SubTicks, AtModJulian, NoneEarly;
    FirstStarts();
    SetThenGet([57753], 57753, 86400, 0.0);
  }

  /** Wrapping the days and then the sum is wrapping the sum. */
  lemma WrapSum(days: int, sec: int)
    ensures var u := days * 86400 + sec;
            && Wrap32(Wrap32(days * 86400) + sec) == Wrap32(u) <= 0x7FFF_FFFF
            && (0 <= u <= 0x7FFF_FFFF ==> Wrap32(u) == u)
  {
    var x := days * 86400;
    var q := (x + 0x8000_0000) / 0x1_0000_0000;
    assert Wrap32(x) == x - q * 0x1_0000_0000;
    WrapBy(x + sec, q);
  }

  lemma WrapBy(u: int, q: int)
    ensures Wrap32(u - q * 0x1_0000_0000) == Wrap32(u)
  {
    var x := u + 0x8000_0000;
    var n := x / 0x1_0000_0000;
    assert x - q * 0x1_0000_0000 == (n - q) * 0x1_0000_0000 + x % 0x1_0000_0000;
  }

  lemma FractionOf(sub: int)
    requires 0 <= sub < TICKS
    ensures 0.0 <= 0.1 * sub as real < 1000000000.0
  {
  }

  // ----- the absolute count -----

  /** Ticks from the start of 1859 to the start of a year: the lengths of the years in between. */
  function YearsTicks(leaps: seq<int>, year: int): int
    decreases if year >= FIRST_MJD_YEAR then year - FIRST_MJD_YEAR else FIRST_MJD_YEAR - year
  {
    if year == FIRST_MJD_YEAR then 0
    else if year > FIRST_MJD_YEAR then YearsTicks(leaps, year - 1) + MaxDaqTime(leaps, year - 1)
    else YearsTicks(leaps, year + 1) - MaxDaqTime(leaps, year)
  }

  function Abs(leaps: seq<int>, t: Time): int { YearsTicks(leaps, t.year) + t.daq }

  lemma YearsTicksStep(leaps: seq<int>, year: int)
    ensures YearsTicks(leaps, year + 1) == YearsTicks(leaps, year) + MaxDaqTime(leaps, year)
  {
  }

  lemma {:induction false} YearsTicksOrdered(leaps: seq<int>, y1: int, y2: int)
    requires Increasing(leaps) && y1 < y2
    ensures YearsTicks(leaps, y1) + MaxDaqTime(leaps, y1) <= YearsTicks(leaps, y2)
    decreases y2 - y1
  {
    hide MaxDaqTime;
    YearsTicksStep(leaps, y2 - 1);
    if y1 < y2 - 1 {
      YearsTicksOrdered(leaps, y1, y2 - 1);
      MaxDaqPositive(leaps, y2 - 1);
    }
  }

  /** `operator<`: by year, then by ticks. */
  predicate Less(t: Time, u: Time) {
    t.year < u.year || (t.year == u.year && t.daq < u.daq)
  }

  /** On normal times the order is that of the absolute counts, and equal counts mean equal times. */
  lemma OrderIsAbs(leaps: seq<int>, t: Time, u: Time)
    requires Increasing(leaps) && Normal(leaps, t) && Normal(leaps, u)
    ensures Less(t, u) <==> Abs(leaps, t) < Abs(leaps, u)
    ensures t == u <==> Abs(leaps, t) == Abs(leaps, u)
  {
    hide MaxDaqTime, YearsTicks;
    if t.year < u.year { YearsTicksOrdered(leaps, t.year, u.year); }
    if u.year < t.year { YearsTicksOrdered(leaps, u.year, t.year); }
  }

  // ----- differences -----

  /** `operator-` of two times, in nanoseconds. */
  function Minus(leaps: seq<int>, t1: Time, t2: Time): real {
    var mjd1, mjd2 := GetModJulianDay(leaps, t1), GetModJulianDay(leaps, t2);
    var leapSeconds := LeapsRange(leaps, mjd1, mjd2);
    (GetModJulianNanoSec(t1) - GetModJulianNanoSec(t2)) +
    (GetModJulianSec(leaps, t1) - GetModJulianSec(leaps, t2) - leapSeconds) as real * 1000000000.0 +
    (mjd1 - mjd2) as real * 86400000000000.0
  }

  /**
   * The absolute count in closed form: the days, the leap seconds before them,
   * the second, the ticks, less the days by which the calendar and `leap_year`
   * differ.
   */
  lemma {:induction false} YearsTicksClosed(leaps: seq<int>, year: int)
    requires Increasing(leaps) && Counted(leaps, year)
    ensures YearsTicks(leaps, year) ==
            ((YearStart(year) - YearStart(FIRST_MJD_YEAR) - Drift(year)) * SECONDS_IN_DAY +
             LeapsRange(leaps, YearStart(FIRST_MJD_YEAR), YearStart(year))) * TICKS
    decreases if year >= FIRST_MJD_YEAR then year - FIRST_MJD_YEAR else FIRST_MJD_YEAR - year
  {
    hide ToMjd, MaxDaqTime, NoneEarly;
    if year > FIRST_MJD_YEAR {
      YearsTicksClosed(leaps, year - 1);
      YearTicks(leaps, year - 1);
      YearStarts(year - 1);
    } else if year < FIRST_MJD_YEAR {
      YearsTicksClosed(leaps, year + 1);
      YearTicks(leaps, year);
      NoLeapsAt(leaps, year);
      if year + 1 < FIRST_MJD_YEAR { NoLeapsAt(leaps, year + 1); }
    }
  }

  lemma NoLeapsAt(leaps: seq<int>, year: int)
    requires NoneEarly(leaps) && year < FIRST_MJD_YEAR
    ensures LeapsBefore(leaps, YearStart(year)) == LeapsBefore(leaps, YearStart(FIRST_MJD_YEAR)) == 0
    ensures LeapsBefore(leaps, YearStart(year) + YearLength(year)) == 0
  {
    hide ToMjd;
    FirstStarts();
    EarlyYear(leaps, year);
    EarlyLeaps(leaps, YearStart(year));
    EarlyLeaps(leaps, YearStart(year) + YearLength(year));
    EarlyLeaps(leaps, YearStart(FIRST_MJD_YEAR));
  }

  lemma AbsClosed(leaps: seq<int>, t: Time)
    requires Increasing(leaps) && Counted(leaps, t.year) && Normal(leaps, t)
    ensures Abs(leaps, t) ==
            (TotalSecs(leaps, t) - (YearStart(FIRST_MJD_YEAR) + Drift(t.year)) * SECONDS_IN_DAY +
             LeapsRange(leaps, YearStart(FIRST_MJD_YEAR), GetModJulianDay(leaps, t))) * TICKS + SubTicks(t)
  {
    hide ToMjd, MaxDaqTime, GetModJulianDay, GetModJulianSec, SubTicks, YearsTicks, NoneEarly, TruncDiv, Drift;
    var d, sec, sub := Parts(leaps, t);
    GettersRead(leaps, t, d, sec, sub);
    YearsTicksClosed(leaps, t.year);
    LeapsRead(leaps, t.year, d, sec);
  }

  /** The day read has the leap seconds of the day before it. */
  lemma LeapsRead(leaps: seq<int>, year: int, d: int, sec: int)
    requires Counted(leaps, year) && 0 <= d < YearLength(year)
    ensures var day := YearStart(year) + d; LeapsBefore(leaps, day + RoundedUp(day, sec)) == LeapsBefore(leaps, day)
  {
    hide ToMjd;
    var day := YearStart(year) + d;
    if year < FIRST_MJD_YEAR {
      EarlyYear(leaps, year);
      EarlyLeaps(leaps, day);
      EarlyLeaps(leaps, day + RoundedUp(day, sec));
    } else {
      StartOfYearExact(year);
    }
  }

  /**
   * The difference computed from days, seconds and leap seconds is the
   * difference of the absolute counts if and only if the years between have as
   * many days by `modjulianday` as by `leap_year`, as all from 1583 on do.
   */
  lemma MinusIsAbs(leaps: seq<int>, t1: Time, t2: Time)
    requires Increasing(leaps) && Counted(leaps, t1.year) && Counted(leaps, t2.year)
    requires Normal(leaps, t1) && Normal(leaps, t2)
    ensures var diff := (Abs(leaps, t1) - Abs(leaps, t2)) as real / 10.0;
            && Minus(leaps, t1, t2) == diff + (Drift(t1.year) - Drift(t2.year)) as real * 86400000000000.0
            && (Minus(leaps, t1, t2) == diff <==> Drift(t1.year) == Drift(t2.year))
    ensures t1.year >= FIRST_YEAR && t2.year >= FIRST_YEAR ==> Drift(t1.year) == Drift(t2.year)
  {
    hide ToMjd, MaxDaqTime, GetModJulianDay, GetModJulianSec, SubTicks, Abs, NoneEarly, Drift;
    AbsClosed(leaps, t1);
    AbsClosed(leaps, t2);
    if t1.year >= FIRST_YEAR && t2.year >= FIRST_YEAR {
      NoDrift(t1.year);
      NoDrift(t2.year);
    }
  }

  /** From the start of 1500 to that of 1501 there are 366 days by the difference, and 365 by the counts. */
  lemma DriftOver1500()
    ensures Minus([], Time(1501, 0), Time(1500, 0)) == 366.0 * 86400000000000.0
    ensures Abs([], Time(1501, 0)) - Abs([], Time(1500, 0)) == 365 * SECONDS_IN_DAY * TICKS
  {
    hide ToMjd, Minus, Abs, YearsTicks, Drift, NoneEarly, MaxDaqTime;
    var none: seq<int>, t1, t2 := [], Time(1501, 0), Time(1500, 0);
    EarlyNone(none);
    Length1500(none);
    MaxDaqPositive(none, 1501);
    YearsTicksStep(none, 1500);
    AbsOfStart(none, 1500);
    AbsOfStart(none, 1501);
    MinusIsAbs(none, t1, t2);
    DriftStep(1500);
  }

  lemma Length1500(none: seq<int>)
    requires none == []
    ensures MaxDaqTime(none, 1500) == 365 * SECONDS_IN_DAY * TICKS
  {
  }

  lemma AbsOfStart(leaps: seq<int>, year: int)
    ensures Abs(leaps, Time(year, 0)) == YearsTicks(leaps, year)
  {
  }

  // ----- offsets -----

  /** Carry a count that may be past the end of its year into the years after. */
  function CarryUp(leaps: seq<int>, year: int, daq: int): (t: Time)
    requires Increasing(leaps) && daq >= 0
    ensures Normal(leaps, t) && Abs(leaps, t) == YearsTicks(leaps, year) + daq
    decreases daq
  {
    MaxDaqPositive(leaps, year);
    YearsTicksStep(leaps, year);
    if daq >= MaxDaqTime(leaps, year) then CarryUp(leaps, year + 1, daq - MaxDaqTime(leaps, year))
    else Time(year, daq)
  }

  /** Borrow from the years before. */
  function CarryDown(leaps: seq<int>, year: int, daq: int): (t: Time)
    requires Increasing(leaps) && daq < MaxDaqTime(leaps, year)
    ensures Normal(leaps, t) && Abs(leaps, t) == YearsTicks(leaps, year) + daq
    decreases -daq
  {
    MaxDaqPositive(leaps, year - 1);
    YearsTicksStep(leaps, year - 1);
    if daq < 0 then CarryDown(leaps, year - 1, daq + MaxDaqTime(leaps, year - 1))
    else Time(year, daq)
  }

  /** `operator+`: the offset in nanoseconds is cut to a whole number first. */
  function Plus(leaps: seq<int>, t: Time, ns: real): Time
    requires Increasing(leaps)
  {
    var daq := t.daq + Trunc(ns) * 10;
    MaxDaqPositive(leaps, t.year);
    if daq >= MaxDaqTime(leaps, t.year) then CarryUp(leaps, t.year, daq) else CarryDown(leaps, t.year, daq)
  }

  /** Adding moves the absolute count by ten ticks per whole nanosecond, into a normal time. */
  lemma PlusIsAbs(leaps: seq<int>, t: Time, ns: real)
    requires Increasing(leaps)
    ensures Normal(leaps, Plus(leaps, t, ns))
    ensures Abs(leaps, Plus(leaps, t, ns)) == Abs(leaps, t) + 10 * Trunc(ns)
  {
  }

  /** Two offsets in turn are their sum in one exactly when cutting to whole nanoseconds agrees. */
  lemma PlusTwice(leaps: seq<int>, t: Time, a: real, b: real)
    requires Increasing(leaps)
    ensures Plus(leaps, Plus(leaps, t, a), b) == Plus(leaps, t, a + b) <==> Trunc(a) + Trunc(b) == Trunc(a + b)
  {
    hide MaxDaqTime, Trunc, Plus, Abs;
    PlusIsAbs(leaps, t, a);
    PlusIsAbs(leaps, Plus(leaps, t, a), b);
    PlusIsAbs(leaps, t, a + b);
    OrderIsAbs(leaps, Plus(leaps, Plus(leaps, t, a), b), Plus(leaps, t, a + b));
  }

  /**
   * Adding the difference of two times to the second gives the first if and
   * only if their years do not drift apart and it is a whole number of
   * nanoseconds.
   */
  lemma PlusMinus(leaps: seq<int>, t1: Time, t2: Time)
    requires Increasing(leaps) && Counted(leaps, t1.year) && Counted(leaps, t2.year)
    requires Normal(leaps, t1) && Normal(leaps, t2)
    ensures Plus(leaps, t2, Minus(leaps, t1, t2)) == t1 <==>
              Drift(t1.year) == Drift(t2.year) && (Abs(leaps, t1) - Abs(leaps, t2)) % 10 == 0
  {
    hide MaxDaqTime, Plus, Minus, Abs, Drift;
    var diff, days := Abs(leaps, t1) - Abs(leaps, t2), Drift(t1.year) - Drift(t2.year);
    MinusIsAbs(leaps, t1, t2);
    PlusIsAbs(leaps, t2, Minus(leaps, t1, t2));
    OrderIsAbs(leaps, Plus(leaps, t2, Minus(leaps, t1, t2)), t1);
    TenthsCut(diff, days);
  }

  lemma TenthsCut(diff: int, days: int)
    ensures 10 * Trunc(diff as real / 10.0 + days as real * 86400000000000.0) == diff <==> days == 0 && diff % 10 == 0
  {
    var x, all := diff as real / 10.0 + days as real * 86400000000000.0, diff + days * 864000000000000;
    assert x == all as real / 10.0;
    if all >= 0 {
      TruncIs(x, all / 10);
    } else {
      TruncIs(-x, -all / 10);
    }
  }

  // ----- the object -----

  class I3Time {
    var year: int
    var daqTime: int

    constructor (y: int, daq: int)
      ensures Value() == Time(y, daq)
    {
      year, daqTime := y, daq;
    }

    function Value(): Time
      reads this
    {
      Time(year, daqTime)
    }

    /** An invalid second or fraction is reported and leaves the time as it was. */
    method SetModJulianTime(leaps: seq<int>, modJulianDay: int, sec: int, ns: real)
      modifies this
      ensures var r := AtModJulian(leaps, modJulianDay, sec, ns);
              Value() == if r.Some? then r.value else old(Value())
    {
      if sec < 0 || sec >= SecondsInDay(leaps, modJulianDay) {
        return;
      }
      if ns < 0.0 || ns >= 1000000000.0 {
        return;
      }
      year := YearOf(modJulianDay);
      var daysafteryear := modJulianDay - YearStart(year);
      var secsafteryear := daysafteryear * 3600 * 24 + sec;
      daqTime := (secsafteryear + YearToDateLeaps(leaps, modJulianDay)) * TICKS + Trunc(ns * 10.0);
    }

    method SetUTCCalDate(leaps: seq<int>, y: int, month: int, day: int, hour: int, minute: int, sec: int, ns: real)
      modifies this
      ensures var r := AtUtc(leaps, Date(y, month, day), hour, minute, sec, ns);
              Value() == if r.Some? then r.value else old(Value())
    {
      hide ToMjd, FromMjd, AtModJulian;
      if month < 1 || month > 12 {
        return;
      }
      if day < 1 || day > DaysInMonth(y, month) {
        return;
      }
      var i := new UTinstant(y, month, day);
      var j := JulDate(i);
      var modJulDay := Trunc(j - 2400000.5);
      assert modJulDay == ToMjd(Date(y, month, day));
      if hour < 0 || hour > 23 {
        return;
      }
      if minute < 0 || minute > 59 {
        return;
      }
      if sec < 0 || sec > (if modJulDay in leaps && hour == 23 && minute == 59 then 60 else 59) {
        return;
      }
      if ns < 0.0 || ns >= 1000000000.0 {
        return;
      }
      var second := hour * 3600 + minute * 60 + sec;
      SetModJulianTime(leaps, modJulDay, second, ns);
    }

    /** A negative Unix time is fatal. */
    method SetUnixTime(leaps: seq<int>, unix: int, ns: real) returns (ok: bool)
      modifies this
      ensures ok <==> unix >= 0
      ensures var r := AtUnix(leaps, unix, ns); Value() == if r.Some? then r.value else old(Value())
    {
      if unix < 0 {
        return false;
      }
      var mjd := unix / 86400 + 40587;
      SetModJulianTime(leaps, mjd, unix % 86400, ns);
      ok := true;
    }

    /** The carry loops of `operator+`. */
    method Add(leaps: seq<int>, ns: real) returns (r: I3Time)
      requires Increasing(leaps)
      ensures fresh(r) && r.Value() == Plus(leaps, Value(), ns)
    {
      hide MaxDaqTime, Trunc, Abs, Normal, YearsTicks;
      var y, daq := year, daqTime + Trunc(ns) * 10;
      ghost var goal := Plus(leaps, Value(), ns);
      MaxDaqPositive(leaps, y);
      if daq < MaxDaqTime(leaps, y) { assert goal == CarryDown(leaps, y, daq); }
      while daq >= MaxDaqTime(leaps, y)
        invariant MaxDaqTime(leaps, y) > 0
        invariant goal == if daq >= MaxDaqTime(leaps, y) then CarryUp(leaps, y, daq) else CarryDown(leaps, y, daq)
        decreases daq
      {
        MaxDaqPositive(leaps, y);
        MaxDaqPositive(leaps, y + 1);
        daq := daq - MaxDaqTime(leaps, y);
        y := y + 1;
      }
      while daq < 0
        invariant daq < MaxDaqTime(leaps, y) && goal == CarryDown(leaps, y, daq)
        decreases -daq
      {
        MaxDaqPositive(leaps, y - 1);
        y := y - 1;
        daq := daq + MaxDaqTime(leaps, y);
      }
      r := new I3Time(y, daq);
    }
  }
}
