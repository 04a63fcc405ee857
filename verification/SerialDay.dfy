/** The closed form behind both conversions: years start on 1 March, so that
    the leap day is the last day of a year and month lengths repeat every
    five months. The main result is that this number counts days. */
module SerialDay {
  import opened CInt
  import opened CivilCalendar

  /** A converted date, or the news that an intermediate value does not fit the
      C variable it is assigned to (the C program has no defined result). */
  datatype DateResult = Converted(date: Date) | DateOverflow

  datatype SdnResult = Sdn(value: int) | SdnOverflow

  const ZERO_DATE := Date(0, 0, 0)

  /** Year of the March-based calendar, counted from 4801 B.C. (astronomical -4800). */
  function MarchYear(d: Date): int {
    Astronomical(d.year) + 4800 - (if d.month <= 2 then 1 else 0)
  }

  /** Months since March. */
  function MarchMonth(d: Date): int {
    if d.month > 2 then d.month - 3 else d.month + 9
  }

  /** Days of the March-based year before month `m`. */
  function DaysBeforeMonth(m: int): int {
    (m * 153 + 2) / 5
  }

  /** Serial number of the day before 1 March of March-year `y`. */
  function YearOffset(cal: Calendar, y: int): int {
    match cal
    case Gregorian => ((y / 100) * 146097) / 4 + ((y % 100) * 1461) / 4 - 32045
    case Julian => (y * 1461) / 4 - 32083
  }

  /** Day of the March-year, from 1. */
  function DayOfYear(d: Date): int {
    DaysBeforeMonth(MarchMonth(d)) + d.day
  }

  function Serial(cal: Calendar, d: Date): int {
    YearOffset(cal, MarchYear(d)) + DayOfYear(d)
  }

  /** Length of the March-year `y`: its February belongs to the next calendar year. */
  function YearLength(cal: Calendar, y: int): int {
    if IsLeap(cal, y + 1 - 4800) then 366 else 365
  }

  /** The Gregorian leap rule, read off the century `c` and the year `r` within it. */
  lemma GregorianLeap(c: int, r: int)
    requires 0 <= r < 100
    ensures IsLeap(Gregorian, c * 100 + r + 1 - 4800) <==> r % 4 == 3 && (r == 99 ==> c % 4 == 3)
  {
    var a := c * 100 + r + 1 - 4800;
    Division(a, 4, c * 25 + (r + 1) / 4 - 1200, (r + 1) % 4);
    if r == 99 {
      Division(a, 100, c + 1 - 48, 0);
      Division(a, 400, (c + 1) / 4 - 12, (c + 1) % 4 * 100);
    } else {
      Division(a, 100, c - 48, r + 1);
    }
  }

  /** Without the scaled products: days are counted by whole years plus leap days. */
  lemma GregorianOffset(c: int, r: int)
    requires 0 <= r < 100
    ensures YearOffset(Gregorian, c * 100 + r) == 36524 * c + c / 4 + 365 * r + r / 4 - 32045
  {
    Division(c * 100 + r, 100, c, r);
    Division(c * 146097, 4, 36524 * c + c / 4, c % 4);
    Division(r * 1461, 4, 365 * r + r / 4, r % 4);
  }

  lemma GregorianNextYear(c: int, r: int)
    requires 0 <= r < 100
    ensures var y := c * 100 + r;
            YearOffset(Gregorian, y + 1) == YearOffset(Gregorian, y) + YearLength(Gregorian, y)
  {
    GregorianLeap(c, r);
    GregorianOffset(c, r);
    if r == 99 {
      GregorianOffset(c + 1, 0);
    } else {
      GregorianOffset(c, r + 1);
    }
  }

  lemma JulianOffset(y: int)
    ensures YearOffset(Julian, y) == 365 * y + y / 4 - 32083
  {
    Division(y * 1461, 4, 365 * y + y / 4, y % 4);
  }

  lemma NextYear(cal: Calendar, y: int)
    ensures YearOffset(cal, y + 1) == YearOffset(cal, y) + YearLength(cal, y)
  {
    if cal.Gregorian? {
      GregorianNextYear(y / 100, y % 100);
    } else {
      JulianOffset(y);
      JulianOffset(y + 1);
    }
  }

  lemma {:induction false} YearOffsetMonotone(cal: Calendar, y: int, z: int)
    requires y <= z
    ensures YearOffset(cal, z) >= YearOffset(cal, y) + 365 * (z - y)
    decreases z - y
  {
    if y < z {
      YearOffsetMonotone(cal, y, z - 1);
      NextYear(cal, z - 1);
    }
  }

  /** Within a March-year the months tile the days. */
  lemma MonthTiling(cal: Calendar, d: Date)
    requires IsDate(cal, d)
    ensures 0 <= MarchMonth(d) <= 11
    ensures 1 <= DayOfYear(d) <= YearLength(cal, MarchYear(d))
    ensures d.day == MonthLength(cal, d.year, d.month) ==>
              DayOfYear(d) == if d.month == 2 then YearLength(cal, MarchYear(d)) else DaysBeforeMonth(MarchMonth(d) + 1)
  {
  }

  /** The closed form advances by one from each day to the next. */
  lemma SerialOfNextDay(cal: Calendar, d: Date)
    requires IsDate(cal, d)
    ensures Serial(cal, NextDay(cal, d)) == Serial(cal, d) + 1
  {
    var next := NextDay(cal, d);
    MonthTiling(cal, d);
    if d.day < MonthLength(cal, d.year, d.month) {
      assert MarchYear(next) == MarchYear(d) && MarchMonth(next) == MarchMonth(d);
    } else if d.month == 2 {
      assert MarchYear(next) == MarchYear(d) + 1 && MarchMonth(next) == 0;
      NextYear(cal, MarchYear(d));
    } else {
      assert MarchYear(next) == MarchYear(d) && MarchMonth(next) == MarchMonth(d) + 1;
    }
  }

  lemma SerialOfFirstDay(cal: Calendar)
    ensures Serial(cal, FirstDay(cal)) == 1
    ensures MarchYear(FirstDay(cal)) == 87
  {
    GregorianOffset(0, 87);
    JulianOffset(87);
  }

  /** Counting days one at a time gives the closed form. */
  lemma {:induction false} SerialOfNthDay(cal: Calendar, sdn: int)
    requires sdn >= 1
    ensures Serial(cal, NthDay(cal, sdn)) == sdn
    ensures IsDate(cal, NthDay(cal, sdn))
    ensures MarchYear(NthDay(cal, sdn)) >= 0
    decreases sdn
  {
    NthDayIsDate(cal, sdn);
    if sdn == 1 {
      SerialOfFirstDay(cal);
    } else {
      var d, next := NthDay(cal, sdn - 1), NthDay(cal, sdn);
      assert next == NextDay(cal, d);
      SerialOfNthDay(cal, sdn - 1);
      SerialOfNextDay(cal, d);
      YearNeverDrops(cal, d);
    }
  }

  lemma YearNeverDrops(cal: Calendar, d: Date)
    requires IsDate(cal, d)
    ensures MarchYear(NextDay(cal, d)) >= MarchYear(d)
  {
  }

  /** Dividing by the 5-month cycle finds the month and the day of the month. */
  lemma MonthCycle(cal: Calendar, d: Date)
    requires IsDate(cal, d)
    ensures var temp := DayOfYear(d) * 5 - 3;
            Div(temp, 153) == MarchMonth(d) && Div(Mod(temp, 153), 5) + 1 == d.day
  {
  }

  /** The date with a given March-based year, month and day. */
  function FromMarch(year: int, month: int, day: int): Date {
    var astronomical := year - 4800 + (if month < 10 then 0 else 1);
    Date(if astronomical <= 0 then astronomical - 1 else astronomical,
         if month < 10 then month + 3 else month - 9,
         day)
  }

  /** The text with which both conversions end (calendar/gregor.c:164-180 and
      calendar/julian.c:186-202): month and day of the month, years that start
      in January, B.C./A.D. numbering. */
  method ToCivil(marchYear: Int32, dayOfYear: Int32) returns (r: DateResult)
    requires marchYear >= 0 && 1 <= dayOfYear <= 366
    ensures var m, d := Div(dayOfYear * 5 - 3, 153), Div(Mod(dayOfYear * 5 - 3, 153), 5) + 1;
            r == if m >= 10 && marchYear == INT_MAX then DateOverflow else Converted(FromMarch(marchYear, m, d))
  {
    var year := marchYear;
    var temp: Int64 := dayOfYear * 5 - 3;
    var month: Int32 := Div(temp, 153);
    var day: Int32 := Div(Mod(temp, 153), 5) + 1;
    if month < 10 {
      month := month + 3;
    } else {
      if year == INT_MAX {
        return DateOverflow;  // year + 1 does not fit
      }
      year := year + 1;
      month := month - 9;
    }
    year := year - 4800;
    if year <= 0 {
      year := year - 1;
    }
    return Converted(Date(year, month, day));
  }

  lemma FromMarchInverts(cal: Calendar, d: Date)
    requires IsDate(cal, d)
    ensures FromMarch(MarchYear(d), MarchMonth(d), d.day) == d
  {
  }

  /** A day lies in its March-year. */
  lemma DayWithinYear(cal: Calendar, d: Date)
    requires IsDate(cal, d)
    ensures YearOffset(cal, MarchYear(d)) < Serial(cal, d) <= YearOffset(cal, MarchYear(d) + 1)
  {
    MonthTiling(cal, d);
    NextYear(cal, MarchYear(d));
  }

  /** A March-year ends where the next one starts. */
  lemma YearBoundary(cal: Calendar, d: Date, y: int)
    requires IsDate(cal, d)
    ensures MarchYear(d) <= y <==> Serial(cal, d) <= YearOffset(cal, y + 1)
  {
    DayWithinYear(cal, d);
    if MarchYear(d) <= y {
      YearOffsetMonotone(cal, MarchYear(d) + 1, y + 1);
    } else {
      YearOffsetMonotone(cal, y + 1, MarchYear(d));
    }
  }

  lemma SameYear(cal: Calendar, a: Date, b: Date)
    requires IsDate(cal, a) && IsDate(cal, b)
    requires Serial(cal, a) == Serial(cal, b)
    ensures MarchYear(a) == MarchYear(b)
  {
    DayWithinYear(cal, a);
    DayWithinYear(cal, b);
    if MarchYear(a) < MarchYear(b) {
      YearOffsetMonotone(cal, MarchYear(a) + 1, MarchYear(b));
    } else if MarchYear(b) < MarchYear(a) {
      YearOffsetMonotone(cal, MarchYear(b) + 1, MarchYear(a));
    }
  }

  lemma SameDay(cal: Calendar, a: Date, b: Date)
    requires IsDate(cal, a) && IsDate(cal, b)
    requires MarchYear(a) == MarchYear(b) && DayOfYear(a) == DayOfYear(b)
    ensures a == b
  {
    MonthCycle(cal, a);
    MonthCycle(cal, b);
    FromMarchInverts(cal, a);
    FromMarchInverts(cal, b);
  }

  /** Different days have different numbers. */
  lemma SerialInjective(cal: Calendar, a: Date, b: Date)
    requires IsDate(cal, a) && IsDate(cal, b)
    requires Serial(cal, a) == Serial(cal, b)
    ensures a == b
  {
    SameYear(cal, a, b);
    SameDay(cal, a, b);
  }

  /** Every real date on or after the first one is reached by counting. */
  lemma {:induction false} CountingReaches(cal: Calendar, d: Date)
    requires IsDate(cal, d) && Serial(cal, d) >= 1
    ensures NthDay(cal, Serial(cal, d)) == d
  {
    SerialOfNthDay(cal, Serial(cal, d));
    SerialInjective(cal, NthDay(cal, Serial(cal, d)), d);
  }

  /** A day number that the month does not reach counts on from its last day. */
  lemma CountsOn(cal: Calendar, year: int, month: int, day: int)
    requires year != 0 && 1 <= month <= 12 && MonthLength(cal, year, month) < day <= 31
    ensures var length := MonthLength(cal, year, month);
            && IsDate(cal, Date(year, month, length)) && IsDate(cal, Date(year, month + 1, day - length))
            && Serial(cal, Date(year, month, day)) == Serial(cal, Date(year, month, length)) + (day - length)
  {
    FirstOfNext(cal, year, month);
    SameMonth(cal, Date(year, month, MonthLength(cal, year, month)), Date(year, month, day));
  }

  /** That is the number of a day of the next month. */
  lemma SpillsOver(cal: Calendar, year: int, month: int, day: int, length: int)
    requires year != 0 && 1 <= month <= 12 && length == MonthLength(cal, year, month) < day <= 31
    ensures Serial(cal, Date(year, month + 1, day - length)) == Serial(cal, Date(year, month, day))
  {
    var last, first := Date(year, month, length), Date(year, month + 1, 1);
    NextSerial(cal, year, month, length);
    SameMonth(cal, last, Date(year, month, day));
    SameMonth(cal, first, Date(year, month + 1, day - length));
  }

  lemma SameMonth(cal: Calendar, a: Date, b: Date)
    requires a.year == b.year && a.month == b.month
    ensures Serial(cal, b) == Serial(cal, a) + (b.day - a.day)
  {
  }

  lemma NextSerial(cal: Calendar, year: int, month: int, length: int)
    requires year != 0 && 1 <= month <= 12 && length == MonthLength(cal, year, month) < 31
    ensures Serial(cal, Date(year, month + 1, 1)) == Serial(cal, Date(year, month, length)) + 1
  {
    FirstOfNext(cal, year, month);
    SerialOfNextDay(cal, Date(year, month, length));
  }

  lemma FirstOfNext(cal: Calendar, year: int, month: int)
    requires year != 0 && 1 <= month <= 12 && MonthLength(cal, year, month) < 31
    ensures 28 <= MonthLength(cal, year, month) && month < 12 && 28 <= MonthLength(cal, year, month + 1)
    ensures IsDate(cal, Date(year, month, MonthLength(cal, year, month)))
    ensures NextDay(cal, Date(year, month, MonthLength(cal, year, month))) == Date(year, month + 1, 1)
  {
  }

  /** Numeric order is chronological order. */
  lemma SerialOrder(cal: Calendar, a: Date, b: Date)
    requires IsDate(cal, a) && IsDate(cal, b)
    requires Serial(cal, a) >= 1 && Serial(cal, b) >= 1
    ensures Serial(cal, a) < Serial(cal, b) <==> Before(a, b)
  {
    CountingReaches(cal, a);
    CountingReaches(cal, b);
    NumberOrder(cal, Serial(cal, a), Serial(cal, b));
  }
}
