/** The calendar arithmetic of m_time.c: gmtime_r and mktime. */
module Calendar {
  const TIME_MAX: int := 2147483647
  const SECS_DAY: int := 86400

  // C division and remainder, which truncate toward zero.
  function TruncDiv(x: int, k: int): int
    requires k > 0
  {
    if x >= 0 then x / k else -((-x) / k)
  }

  function TruncMod(x: int, k: int): int
    requires k > 0
  {
    x - k * TruncDiv(x, k)
  }

  // A truncated division put right after a negative remainder is the flooring one.
  lemma TruncFixed(x: int, k: int)
    requires k == 60 || k == 24 || k == 12
    ensures if TruncMod(x, k) < 0 then TruncDiv(x, k) - 1 == x / k && TruncMod(x, k) + k == x % k
            else TruncDiv(x, k) == x / k && TruncMod(x, k) == x % k
  {}

  // LEAPYEAR, YEARSIZE and _ytab

  predicate Leap(year: int) { year % 4 == 0 && (year % 100 != 0 || year % 400 == 0) }

  function YearSize(year: int): int { if Leap(year) then 366 else 365 }

  function MonthLen(leap: bool, month: int): (n: int)
    requires 0 <= month < 12
    ensures 28 <= n <= 31
  {
    if month == 1 then (if leap then 29 else 28)
    else if month == 3 || month == 5 || month == 8 || month == 10 then 30
    else 31
  }

  // Days from the start of the year to the start of a month.
  function MonthStart(leap: bool, month: int): int
    requires 0 <= month <= 12
    decreases month
  {
    if month == 0 then 0 else MonthStart(leap, month - 1) + MonthLen(leap, month - 1)
  }

  lemma YearHasItsMonths(leap: bool)
    ensures MonthStart(leap, 12) == if leap then 366 else 365
  {
    assert MonthStart(leap, 3) == if leap then 91 else 90;
    assert MonthStart(leap, 6) == if leap then 182 else 181;
    assert MonthStart(leap, 9) == if leap then 274 else 273;
  }

  // Days from the first of January 1970 to the first of January of any year of the Gregorian calendar, year by year.
  function YearStart(year: int): int
    decreases if year < 1970 then 1970 - year else year - 1970
  {
    if year == 1970 then 0
    else if year > 1970 then YearStart(year - 1) + YearSize(year - 1)
    else YearStart(year + 1) - YearSize(year)
  }

  lemma YearStep(year: int)
    ensures YearStart(1970) == 0 && YearStart(year + 1) == YearStart(year) + YearSize(year)
  {}

  lemma {:induction false} YearsApart(a: int, b: int)
    requires a < b
    ensures YearStart(a) + YearSize(a) <= YearStart(b)
    decreases b - a
  {
    YearStep(a);
    if a + 1 < b { YearsApart(a + 1, b); }
  }

  // The day a place in a year and month denotes, counted from the first of January 1970.
  function DayNo(year: int, month: int, day: int): int
    requires 0 <= month <= 12
  {
    YearStart(year) + MonthStart(Leap(year), month) + day
  }

  lemma MonthStep(year: int, month: int, day: int)
    requires 0 <= month < 12
    ensures DayNo(year, month + 1, day) == DayNo(year, month, day + MonthLen(Leap(year), month))
    ensures month == 11 ==> DayNo(year + 1, 0, day) == DayNo(year, 12, day)
  {
    YearStep(year);
    YearHasItsMonths(Leap(year));
  }

  lemma {:induction false} MonthsApart(leap: bool, a: int, b: int)
    requires 0 <= a < b <= 12
    ensures MonthStart(leap, a) + MonthLen(leap, a) <= MonthStart(leap, b)
    decreases b - a
  {
    if a + 1 < b { MonthsApart(leap, a + 1, b); }
  }

  // The day of a date in closed form. Counted from March, month m starts on day (153 * m + 2) / 5 of its year, and
  // January and February are the last months of the year before.

  function Civil(year: int, month: int, mday: int): int {
    var y, m := if month < 2 then year - 1 else year, (month + 10) % 12;
    365 * y + y / 4 - y / 100 + y / 400 + (153 * m + 2) / 5 + mday - 1 - 719468
  }

  // The day of its week in closed form, Sunday being 0.
  function CivilWeekday(year: int, month: int, mday: int): int {
    var y, m := if month < 2 then year - 1 else year, (month + 10) % 12;
    (y + y / 4 - y / 100 + y / 400 + (13 * m + 2) / 5 + mday + 2) % 7
  }

  // The years go on in the same way in both directions from 1970.
  lemma {:induction false} YearStartIs(year: int)
    ensures YearStart(year) == 365 * (year - 1) + (year - 1) / 4 - (year - 1) / 100 + (year - 1) / 400 - 719162
    decreases if year < 1970 then 1970 - year else year - 1970
  {
    if year > 1970 {
      YearStartIs(year - 1);
      LeapTerms(year - 1);
    } else if year < 1970 {
      YearStartIs(year + 1);
      LeapTerms(year);
    }
  }

  lemma LeapTerms(y: int)
    ensures YearSize(y) == 365 + (y / 4 - (y - 1) / 4) - (y / 100 - (y - 1) / 100) + (y / 400 - (y - 1) / 400)
  {
    LastDivided(y, 4);
    LastDivided(y, 100);
    LastDivided(y, 400);
    Divided(y, 4, 25);
    Divided(y, 100, 4);
  }

  lemma LastDivided(y: int, k: int)
    requires k == 4 || k == 100 || k == 400
    ensures y / k - (y - 1) / k == if y % k == 0 then 1 else 0
  {}

  lemma Divided(y: int, k: int, n: int)
    requires (k == 4 && n == 25) || (k == 100 && n == 4)
    ensures y % (k * n) == 0 ==> y % k == 0
  {}

  lemma MonthStartIs(leap: bool, month: int)
    requires 0 <= month < 12
    ensures month < 2 ==> MonthStart(leap, month) == 31 * month
    ensures month >= 2 ==> MonthStart(leap, month) == 59 + (if leap then 1 else 0) + (153 * (month - 2) + 2) / 5
  {
    assert MonthStart(leap, 3) == if leap then 91 else 90;
    assert MonthStart(leap, 6) == if leap then 182 else 181;
    assert MonthStart(leap, 9) == if leap then 274 else 273;
  }

  lemma DayNoIsCivil(year: int, month: int, day: int)
    requires 0 <= month < 12
    ensures DayNo(year, month, day) == Civil(year, month, day + 1)
  {
    hide YearStart, MonthStart, Leap;
    YearStartIs(year);
    MonthStartIs(Leap(year), month);
    if month < 2 {
      assert (month + 10) % 12 == month + 10;
      assert (153 * (month + 10) + 2) / 5 == 306 + 31 * month;
    } else {
      assert (month + 10) % 12 == month - 2;
      LeapTerms(year);
    }
  }

  // So what is counted month by month is the length of each month.
  lemma MonthLenIs(year: int, month: int)
    requires 0 <= month < 12
    ensures MonthLen(Leap(year), month)
         == if month < 11 then Civil(year, month + 1, 1) - Civil(year, month, 1)
            else Civil(year + 1, 0, 1) - Civil(year, 11, 1)
  {
    hide Civil, YearStart, MonthStart, MonthLen, Leap;
    MonthStep(year, month, 0);
    DayNoIsCivil(year, month, 0);
    if month < 11 {
      DayNoIsCivil(year, month + 1, 0);
    } else {
      DayNoIsCivil(year + 1, 0, 0);
    }
  }

  lemma WeekdayIs(year: int, month: int, mday: int)
    ensures (Civil(year, month, mday) + 4) % 7 == CivilWeekday(year, month, mday)
  {
    var y, m := if month < 2 then year - 1 else year, (month + 10) % 12;
    ThirtyDays(m);
    SameWeekday(Civil(year, month, mday) + 4,
                y + y / 4 - y / 100 + y / 400 + (13 * m + 2) / 5 + mday + 2, 52 * y + 4 * m - 102781);
  }

  lemma ThirtyDays(m: int)
    ensures (153 * m + 2) / 5 == 28 * m + (13 * m + 2) / 5
  {}

  lemma SameWeekday(a: int, b: int, k: int)
    requires a == b + 7 * k
    ensures a % 7 == b % 7
  {}

  // A day of the calendar is denoted in one way only.

  lemma InYear(year: int, month: int, day: int)
    requires 0 <= month < 12 && 0 <= day < MonthLen(Leap(year), month)
    ensures YearStart(year) <= DayNo(year, month, day) < YearStart(year) + YearSize(year)
  {
    YearHasItsMonths(Leap(year));
    MonthsApart(Leap(year), month, 12);
    if month > 0 { MonthsApart(Leap(year), 0, month); }
  }

  lemma DayUnique(y: int, m: int, d: int, y': int, m': int, d': int)
    requires 0 <= m < 12 && 0 <= d < MonthLen(Leap(y), m) && 0 <= m' < 12 && 0 <= d' < MonthLen(Leap(y'), m')
    requires DayNo(y, m, d) == DayNo(y', m', d')
    ensures y == y' && m == m' && d == d'
  {
    InYear(y, m, d);
    InYear(y', m', d');
    if y < y' { YearsApart(y, y'); }
    if y' < y { YearsApart(y', y); }
    if m < m' { MonthsApart(Leap(y), m, m'); }
    if m' < m { MonthsApart(Leap(y), m', m); }
  }

  // The fields of a struct tm.
  datatype Fields =
    Fields(sec: int, min: int, hour: int, mday: int, mon: int, year: int, wday: int, yday: int, isdst: int)

  // The second the fields denote, counted from the start of 1970, whether or not they are in their ranges.
  function Abs(f: Fields): int {
    SECS_DAY * DayNo(1900 + f.year + f.mon / 12, f.mon % 12, f.mday - 1) + 3600 * f.hour + 60 * f.min + f.sec
  }

  // The same second, and the days of the year and the week, in closed form.

  function Second(f: Fields): int {
    SECS_DAY * Civil(1900 + f.year + f.mon / 12, f.mon % 12, f.mday) + 3600 * f.hour + 60 * f.min + f.sec
  }

  predicate Dated(f: Fields) {
    && f.yday == Civil(1900 + f.year, f.mon, f.mday) - Civil(1900 + f.year, 0, 1)
    && f.wday == CivilWeekday(1900 + f.year, f.mon, f.mday)
  }

  lemma AbsIsSecond(f: Fields)
    ensures Abs(f) == Second(f)
  {
    DayNoIsCivil(1900 + f.year + f.mon / 12, f.mon % 12, f.mday - 1);
  }

  lemma DaysRightIsDated(f: Fields)
    requires 0 <= f.mon < 12
    ensures DaysRight(f) <==> Dated(f)
  {
    hide Civil, CivilWeekday, YearStart, Leap;
    var year := 1900 + f.year;
    DayNoIsCivil(year, f.mon, f.mday - 1);
    DayNoIsCivil(year, 0, 0);
    WeekdayIs(year, f.mon, f.mday);
    assert DayNo(year, 0, 0) == YearStart(year);
  }

  predicate Normal(f: Fields) {
    && 0 <= f.sec < 60 && 0 <= f.min < 60 && 0 <= f.hour < 24 && 0 <= f.mon < 12
    && 1 <= f.mday <= MonthLen(Leap(1900 + f.year), f.mon)
  }

  // The day of the week, the day of the year.
  predicate DaysRight(f: Fields)
    requires 0 <= f.mon < 12
  {
    && f.yday == MonthStart(Leap(1900 + f.year), f.mon) + f.mday - 1
    && f.wday == (DayNo(1900 + f.year, f.mon, f.mday - 1) + 4) % 7
  }

  lemma NormalAbs(f: Fields, day: int)
    requires 0 <= f.mon < 12 && day == DayNo(1900 + f.year, f.mon, f.mday - 1)
    ensures Abs(f) == SECS_DAY * day + 3600 * f.hour + 60 * f.min + f.sec
  {}

  lemma NormalizedAbs(f: Fields, g: Fields, year: int, month: int, day: int)
    requires year == 1900 + f.year + f.mon / 12 && month == f.mon % 12 && 0 <= g.mon < 12
    requires DayNo(1900 + g.year, g.mon, g.mday - 1) == DayNo(year, month, day + (f.mday - 1))
    requires SECS_DAY * day + 3600 * g.hour + 60 * g.min + g.sec == 3600 * f.hour + 60 * f.min + f.sec
    ensures Abs(g) == Abs(f)
  {
    NormalAbs(g, DayNo(year, month, f.mday - 1) + day);
  }

  lemma DaysSet(f: Fields, g: Fields, day: int)
    requires Normal(f) && g == f.(wday := g.wday, yday := g.yday) && day == DayNo(1900 + f.year, f.mon, f.mday - 1)
    requires g.yday == MonthStart(Leap(1900 + f.year), f.mon) + f.mday - 1 && g.wday == (day + 4) % 7
    ensures Normal(g) && DaysRight(g) && Abs(g) == Abs(f) == SECS_DAY * day + 3600 * g.hour + 60 * g.min + g.sec
  {
    hide DayNo, YearStart, MonthStart, MonthLen, Leap;
    NormalAbs(f, day);
    NormalAbs(g, day);
  }

  lemma ClockUnique(day: int, h: int, m: int, s: int, day': int, h': int, m': int, s': int)
    requires 0 <= h < 24 && 0 <= m < 60 && 0 <= s < 60 && 0 <= h' < 24 && 0 <= m' < 60 && 0 <= s' < 60
    requires SECS_DAY * day + 3600 * h + 60 * m + s == SECS_DAY * day' + 3600 * h' + 60 * m' + s'
    ensures day == day' && h == h' && m == m' && s == s'
  {}

  // Fields in their ranges that denote the same second are the same.
  lemma NormalUnique(f: Fields, g: Fields)
    requires Normal(f) && Normal(g) && Abs(f) == Abs(g) && DaysRight(f) && DaysRight(g) && f.isdst == g.isdst
    ensures f == g
  {
    hide DayNo, YearStart, MonthStart, MonthLen, Leap;
    NormalAbs(f, DayNo(1900 + f.year, f.mon, f.mday - 1));
    NormalAbs(g, DayNo(1900 + g.year, g.mon, g.mday - 1));
    ClockUnique(DayNo(1900 + f.year, f.mon, f.mday - 1), f.hour, f.min, f.sec,
                DayNo(1900 + g.year, g.mon, g.mday - 1), g.hour, g.min, g.sec);
    DayUnique(1900 + f.year, f.mon, f.mday - 1, 1900 + g.year, g.mon, g.mday - 1);
  }

  // The closed form of mktime for the days before a year.
  function DaysTo(year: int): int
    requires year >= 1970
  {
    (year - 1970) * 365 + Term4(year) - Term100(year) + Term400(year)
  }

  // It counts the leap years as going through the years one by one does.
  lemma {:induction false} DaysToIs(year: int)
    requires year >= 1970
    ensures DaysTo(year) == YearStart(year)
  {
    if year > 1970 {
      DaysToIs(year - 1);
      Quarter(year - 1);
      Century(year - 1);
      FourCenturies(year - 1);
      LeapParts(year - 1);
    }
  }

  // Each of the three terms of the closed form goes up behind a year that it divides.

  function Term4(y: int): int { (y - 1970) / 4 + if y % 4 != 0 && y % 4 < 1970 % 4 then 1 else 0 }

  function Term100(y: int): int { (y - 1970) / 100 + if y % 100 != 0 && y % 100 < 1970 % 100 then 1 else 0 }

  function Term400(y: int): int { (y - 1970) / 400 + if y % 400 != 0 && y % 400 < 1970 % 400 then 1 else 0 }

  lemma Term4At(y: int, q: int, r: int)
    requires y == 4 * q + r && 0 <= r < 4
    ensures Term4(y) == q - 493 + if r > 0 then 1 else 0
  {
    if r >= 2 { assert y - 1970 == 4 * (q - 492) + (r - 2); } else { assert y - 1970 == 4 * (q - 493) + (r + 2); }
  }

  lemma Term100At(y: int, q: int, r: int)
    requires y == 100 * q + r && 0 <= r < 100
    ensures Term100(y) == q - 20 + if r > 0 then 1 else 0
  {
    if r >= 70 { assert y - 1970 == 100 * (q - 19) + (r - 70); } else { assert y - 1970 == 100 * (q - 20) + (r + 30); }
  }

  lemma Term400At(y: int, q: int, r: int)
    requires y == 400 * q + r && 0 <= r < 400
    ensures Term400(y) == q - 5 + if r > 0 then 1 else 0
  {
    if r >= 370 { assert y - 1970 == 400 * (q - 4) + (r - 370); } else { assert y - 1970 == 400 * (q - 5) + (r + 30); }
  }

  lemma Quarter(y: int)
    ensures Term4(y + 1) == Term4(y) + if y % 4 == 0 then 1 else 0
  {
    var q, r := y / 4, y % 4;
    Term4At(y, q, r);
    Term4At(y + 1, if r == 3 then q + 1 else q, if r == 3 then 0 else r + 1);
  }

  lemma Century(y: int)
    ensures Term100(y + 1) == Term100(y) + if y % 100 == 0 then 1 else 0
  {
    var q, r := y / 100, y % 100;
    Term100At(y, q, r);
    Term100At(y + 1, if r == 99 then q + 1 else q, if r == 99 then 0 else r + 1);
  }

  lemma FourCenturies(y: int)
    ensures Term400(y + 1) == Term400(y) + if y % 400 == 0 then 1 else 0
  {
    var q, r := y / 400, y % 400;
    Term400At(y, q, r);
    Term400At(y + 1, if r == 399 then q + 1 else q, if r == 399 then 0 else r + 1);
  }

  lemma LeapParts(y: int)
    ensures YearSize(y)
            == 365 + (if y % 4 == 0 then 1 else 0) - (if y % 100 == 0 then 1 else 0) + if y % 400 == 0 then 1 else 0
  {
    assert y == 100 * (y / 100) + y % 100 && 100 * (y / 100) == 4 * (25 * (y / 100));
    assert y == 400 * (y / 400) + y % 400 && 400 * (y / 400) == 100 * (4 * (y / 400));
  }

  class Tm {
    var sec: int
    var min: int
    var hour: int
    var mday: int
    var mon: int
    var year: int
    var wday: int
    var yday: int
    var isdst: int

    ghost function F(): Fields
      reads this
    {
      Fields(sec, min, hour, mday, mon, year, wday, yday, isdst)
    }

    // gmtime_r. A negative time counts as the unsigned number of the same 32 bits.
    method Gmtime(timer: int)
      requires -0x8000_0000 <= timer < 0x8000_0000
      modifies this
      ensures Normal(F()) && DaysRight(F()) && isdst == 0
      ensures Abs(F()) == if timer >= 0 then timer else timer + 0x1_0000_0000
      ensures Second(F()) == Abs(F()) && Dated(F())
    {
      hide Second, Dated, DayNo, YearStart, MonthStart, MonthLen, Leap;
      var time := if timer >= 0 then timer else timer + 0x1_0000_0000;
      var dayclock, dayno := time % SECS_DAY, time / SECS_DAY;
      SetClock(dayclock);
      wday := (dayno + 4) % 7;
      SetDate(dayno);
      isdst := 0;
      NormalAbs(F(), dayno);
      AbsIsSecond(F());
      DaysRightIsDated(F());
    }

    // The seconds of a day as a time of day.
    method SetClock(dayclock: int)
      requires 0 <= dayclock < SECS_DAY
      modifies this`sec, this`min, this`hour
      ensures 0 <= sec < 60 && 0 <= min < 60 && 0 <= hour < 24 && 3600 * hour + 60 * min + sec == dayclock
    {
      sec := dayclock % 60;
      min := dayclock % 3600 / 60;
      hour := dayclock / 3600;
      ClockParts(dayclock);
    }

    // The loops of gmtime_r: the year, month and day of a day number.
    method SetDate(total: int)
      requires total >= 0
      modifies this`year, this`yday, this`mon, this`mday
      ensures 0 <= mon < 12 && 1 <= mday <= MonthLen(Leap(1900 + year), mon)
      ensures DayNo(1900 + year, mon, mday - 1) == total
      ensures yday == MonthStart(Leap(1900 + year), mon) + mday - 1
    {
      var dayno, y := total, 1970;
      YearStep(y);
      while dayno >= YearSize(y)
        invariant dayno >= 0 && YearStart(y) + dayno == total
        decreases dayno
      {
        YearStep(y);
        dayno := dayno - YearSize(y);
        y := y + 1;
      }
      year := y - 1900;
      yday := dayno;
      SetMonth(dayno, Leap(y));
    }

    method SetMonth(days: int, leap: bool)
      requires 0 <= days < if leap then 366 else 365
      modifies this`mon, this`mday
      ensures 0 <= mon < 12 && 1 <= mday <= MonthLen(leap, mon)
      ensures MonthStart(leap, mon) + mday - 1 == days
    {
      var dayno := days;
      mon := 0;
      YearHasItsMonths(leap);
      while dayno >= MonthLen(leap, mon)
        invariant 0 <= mon < 12 && dayno >= 0 && MonthStart(leap, mon) + dayno == days
        decreases dayno
      {
        dayno := dayno - MonthLen(leap, mon);
        mon := mon + 1;
      }
      mday := dayno + 1;
    }

    // The carries of mktime from the seconds to the hours: the days that the hours make.
    method CarryClock() returns (day: int)
      modifies this`sec, this`min, this`hour
      ensures 0 <= sec < 60 && 0 <= min < 60 && 0 <= hour < 24
      ensures SECS_DAY * day + 3600 * hour + 60 * min + sec == old(3600 * hour + 60 * min + sec)
    {
      TruncFixed(sec, 60);
      min := min + TruncDiv(sec, 60);
      sec := TruncMod(sec, 60);
      if sec < 0 {
        sec := sec + 60;
        min := min - 1;
      }
      TruncFixed(min, 60);
      hour := hour + TruncDiv(min, 60);
      min := TruncMod(min, 60);
      if min < 0 {
        min := min + 60;
        hour := hour - 1;
      }
      TruncFixed(hour, 24);
      day := TruncDiv(hour, 24);
      hour := TruncMod(hour, 24);
      if hour < 0 {
        hour := hour + 24;
        day := day - 1;
      }
    }

    // The carry from the months to the years.
    method CarryMonths()
      modifies this`mon, this`year
      ensures mon == old(mon) % 12 && year == old(year) + old(mon) / 12
    {
      TruncFixed(mon, 12);
      year := year + TruncDiv(mon, 12);
      mon := TruncMod(mon, 12);
      if mon < 0 {
        mon := mon + 12;
        year := year - 1;
      }
    }

    // The carries from the days to the months: first months are borrowed until the days are not negative, ...
    method BorrowMonths(days: int) returns (day: int)
      requires 0 <= mon < 12
      modifies this`mon, this`year
      ensures 0 <= mon < 12 && day >= 0
      ensures DayNo(1900 + year, mon, day) == DayNo(1900 + old(year), old(mon), days)
    {
      day := days;
      while day < 0
        invariant 0 <= mon < 12
        invariant DayNo(1900 + year, mon, day) == DayNo(1900 + old(year), old(mon), days)
        decreases -day
      {
        mon := mon - 1;
        if mon < 0 {
          year := year - 1;
          mon := 11;
        }
        MonthStep(1900 + year, mon, day);
        day := day + MonthLen(Leap(1900 + year), mon);
      }
    }

    // ... then they are spent on whole months.
    method SpendDays(days: int)
      requires 0 <= mon < 12 && days >= 0
      modifies this`mday, this`mon, this`year
      ensures 0 <= mon < 12 && 1 <= mday <= MonthLen(Leap(1900 + year), mon)
      ensures DayNo(1900 + year, mon, mday - 1) == DayNo(1900 + old(year), old(mon), days)
    {
      var day := days;
      while day >= MonthLen(Leap(1900 + year), mon)
        invariant 0 <= mon < 12 && day >= 0
        invariant DayNo(1900 + year, mon, day) == DayNo(1900 + old(year), old(mon), days)
        decreases day
      {
        var n := MonthLen(Leap(1900 + year), mon);
        MonthStep(1900 + year, mon, day - n);
        day := day - n;
        mon := mon + 1;
        if mon == 12 {
          mon := 0;
          year := year + 1;
        }
      }
      mday := day + 1;
    }

    // The first half of mktime: the fields get into their ranges and still denote the same second.
    method Normalize()
      modifies this`sec, this`min, this`hour, this`mday, this`mon, this`year
      ensures Normal(F()) && Abs(F()) == old(Abs(F()))
    {
      ghost var f := F();
      var day := CarryClock();
      CarryMonths();
      ghost var carried := day;
      day := day + (mday - 1);
      day := BorrowMonths(day);
      SpendDays(day);
      NormalizedAbs(f, F(), 1900 + f.year + f.mon / 12, f.mon % 12, carried);
    }

    // mktime
    method Mktime(timezone: int, dstbias: int) returns (t: int)
      requires -0x8000_0000 <= dstbias < 0x8000_0000
      modifies this
      ensures Normal(F()) && Abs(F()) == old(Abs(F())) && isdst == old(isdst)
      ensures Abs(F()) >= 0 ==> DaysRight(F())
      ensures Abs(F()) < 0 ==> wday == old(wday) && yday == old(yday)
      ensures Second(F()) == old(Second(F())) == Abs(F()) && (Second(F()) >= 0 ==> Dated(F()))
      ensures var a, dst := Second(F()), if isdst != 0 then dstbias else 0;
              t == if 0 <= a <= 2147483647 && 0 <= a + timezone <= 2147483647 && dst <= a + timezone
                   then Int32(a + timezone - dst) else -1
    {
      hide Second, Dated;
      AbsIsSecond(F());
      Normalize();
      ghost var f := F();
      AbsIsSecond(f);
      NotBefore1970(f);
      if year < 1970 - 1900 {
        return -1;
      }
      var day, overflow := CountDays();
      DaysSet(f, F(), day);
      DaysRightIsDated(F());
      AbsIsSecond(F());
      t := CountSeconds(day, overflow, timezone, dstbias);
    }

    // mktime, from the fields in their ranges to the day they denote.
    method CountDays() returns (day: int, overflow: int)
      requires 0 <= mon < 12 && 1 <= mday && year >= 70
      modifies this`yday, this`wday
      ensures day == DayNo(1900 + year, mon, mday - 1) >= 0
      ensures yday == MonthStart(Leap(1900 + year), mon) + mday - 1 && wday == (day + 4) % 7
      ensures overflow >= 0 && (overflow > 0 ==> SECS_DAY * day > TIME_MAX)
    {
      overflow := 0;
      var tmYear := year + 1900;
      AtLeast365(tmYear);
      if TIME_MAX / 365 < tmYear - 1970 { overflow := overflow + 1; }
      day := (tmYear - 1970) * 365;
      if TIME_MAX - day < (tmYear - 1970) / 4 + 1 { overflow := overflow + 1; }
      day := DaysTo(tmYear);
      DaysToIs(tmYear);
      var y := DayOfYear(tmYear);
      MonthsNotNegative(Leap(tmYear), mon);
      if day + y < 0 { overflow := overflow + 1; }
      day := day + y;
      yday := y;
      wday := (day + 4) % 7;
    }

    // ... and from there to the result.
    method CountSeconds(day: int, overflow0: int, timezone: int, dstbias: int) returns (t: int)
      requires 0 <= sec < 60 && 0 <= min < 60 && 0 <= hour < 24 && day >= 0
      requires overflow0 >= 0 && (overflow0 > 0 ==> SECS_DAY * day > TIME_MAX)
      ensures t == MadeTime(SECS_DAY * day + 3600 * hour + 60 * min + sec, timezone, if isdst != 0 then dstbias else 0)
    {
      var overflow := overflow0;
      var seconds := (hour * 60 + min) * 60 + sec;
      if (TIME_MAX - seconds) / SECS_DAY < day { overflow := overflow + 1; }
      seconds := seconds + day * SECS_DAY;
      if (timezone > 0 && TIME_MAX - timezone < seconds) || (timezone < 0 && seconds < -timezone) {
        overflow := overflow + 1;
      }
      seconds := seconds + timezone;
      var dst := if isdst != 0 then dstbias else 0;
      if dst > seconds { overflow := overflow + 1; }
      seconds := seconds - dst;
      t := if overflow > 0 then -1 else Int32(seconds);
    }

    // The loop of mktime that adds up the months.
    method DayOfYear(tmYear: int) returns (y: int)
      requires 0 <= mon < 12
      ensures y == MonthStart(Leap(tmYear), mon) + mday - 1
    {
      y := 0;
      var month := 0;
      while month < mon
        invariant 0 <= month <= mon && y == MonthStart(Leap(tmYear), month)
      {
        y := y + MonthLen(Leap(tmYear), month);
        month := month + 1;
      }
      y := y + (mday - 1);
    }
  }

  lemma {:induction false} AtLeast365(year: int)
    requires year >= 1970
    ensures YearStart(year) >= 365 * (year - 1970)
  {
    if year > 1970 {
      AtLeast365(year - 1);
      YearStep(year - 1);
    }
  }

  lemma {:induction false} MonthsNotNegative(leap: bool, month: int)
    requires 0 <= month <= 12
    ensures MonthStart(leap, month) >= 0
    decreases month
  {
    if month == 0 {
    } else {
      MonthsNotNegative(leap, month - 1);
    }
  }

  // A value kept in 32 bits.
  function Int32(x: int): (i: int)
    ensures -0x8000_0000 <= i < 0x8000_0000 && (x - i) % 0x1_0000_0000 == 0
  {
    if x % 0x1_0000_0000 < 0x8000_0000 then x % 0x1_0000_0000 else x % 0x1_0000_0000 - 0x1_0000_0000
  }

  // The result of mktime for the second a that the fields denote: that second, moved by the zone and the bias, or -1 if
  // one of the times on the way is out of range. A negative bias, which is not looked at, can take it beyond 31 bits.
  function MadeTime(a: int, timezone: int, dst: int): (t: int) {
    if 0 <= a <= TIME_MAX && 0 <= a + timezone <= TIME_MAX && 0 <= a + timezone - dst then Int32(a + timezone - dst)
    else -1
  }

  // Fields in their ranges denote a second from 1970 on exactly if their year does.
  lemma NotBefore1970(f: Fields)
    requires Normal(f)
    ensures Abs(f) >= 0 <==> f.year >= 70
  {
    var y := 1900 + f.year;
    InYear(y, f.mon, f.mday - 1);
    YearStep(1970);
    if y < 1970 { YearsApart(y, 1970); }
    if y > 1970 { YearsApart(1970, y); }
    NormalAbs(f, DayNo(y, f.mon, f.mday - 1));
  }

  lemma ClockParts(c: int)
    requires 0 <= c
    ensures c == 3600 * (c / 3600) + 60 * (c % 3600 / 60) + c % 60
  {
    var a, b := c / 3600, c % 3600;
    var e, g := b / 60, b % 60;
    assert c == 60 * (60 * a + e) + g;
  }

  // localtime_r and mktime, or with no zone gmtime_r and mktime: every time from 1970 on comes back.
  method TimeTrip(t: int, timezone: int, dstbias: int) returns (t': int)
    requires 0 <= t <= TIME_MAX && 0 <= t - timezone <= TIME_MAX && -0x8000_0000 <= dstbias < 0x8000_0000
    ensures t' == t
  {
    hide Second, Dated, Normal, DaysRight, Abs;
    var tm := new Tm;
    tm.Gmtime(t - timezone);
    t' := tm.Mktime(timezone, dstbias);
  }

  // mktime and gmtime_r: the fields come back as mktime has put them right, the days of the week and the year with
  // them, earlier by the bias if they were marked as daylight saving time. The mark does not come back.
  method FieldsTrip(tm: Tm, dstbias: int) returns (t: int, tm': Tm)
    requires -0x8000_0000 <= dstbias < 0x8000_0000
    modifies tm
    ensures var a, dst := old(Abs(tm.F())), if old(tm.isdst) != 0 then dstbias else 0;
            && (t == -1 <==> !(0 <= a <= TIME_MAX && 0 <= a - dst < 0xFFFF_FFFF))
            && (t != -1 ==> t == Int32(a - dst) && Abs(tm'.F()) == a - dst && tm'.isdst == 0)
            && (t != -1 ==> Normal(tm'.F()) && DaysRight(tm'.F()))
            && (t != -1 && dst == 0 ==> tm'.F() == tm.F().(isdst := 0))
  {
    hide DayNo, DaysRight, Normal, Abs, Second, Dated;
    ghost var a, dst := Abs(tm.F()), if tm.isdst != 0 then dstbias else 0;
    t := tm.Mktime(0, dstbias);
    tm' := new Tm;
    if t != -1 {
      WrappedBack(a - dst);
      tm'.Gmtime(t);
      if dst == 0 { SameFields(tm.F(), tm'.F()); }
    }
  }

  lemma SameFields(f: Fields, g: Fields)
    requires Normal(f) && Normal(g) && Abs(f) == Abs(g) && DaysRight(f) && DaysRight(g) && g.isdst == 0
    ensures g == f.(isdst := 0)
  {
    var h := f.(isdst := 0);
    Unmarked(f, h);
    hide Normal, DaysRight, Abs;
    NormalUnique(h, g);
  }

  lemma Unmarked(f: Fields, h: Fields)
    requires h == f.(isdst := 0) && 0 <= f.mon < 12
    ensures Abs(h) == Abs(f) && (Normal(h) <==> Normal(f)) && (DaysRight(h) <==> DaysRight(f))
  {
    hide DayNo, MonthStart, Leap;
  }

  // gmtime_r takes a time for the unsigned number of the same 32 bits.
  lemma WrappedBack(x: int)
    requires 0 <= x < 0x1_0000_0000
    ensures (if Int32(x) >= 0 then Int32(x) else Int32(x) + 0x1_0000_0000) == x
  {}
}
