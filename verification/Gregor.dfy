/** calendar/gregor.c: serial day numbers to and from Gregorian dates. */
module Gregor {
  import opened CInt
  import opened CivilCalendar
  import opened SerialDay

  const GREGOR_SDN_OFFSET := 32045
  const DAYS_PER_5_MONTHS := 153
  const DAYS_PER_4_YEARS := 1461
  const DAYS_PER_400_YEARS := 146097

  /** Largest argument `SdnToGregorian` does not turn away. */
  const SDN_GUARD := (LONG_MAX - 4 * GREGOR_SDN_OFFSET) / 4

  /** 31 December of the last March-year an `int` can hold; a day later the
      calendar year needs `INT_MAX + 1` before 4800 is subtracted. */
  const LAST_INT_SDN := 784352264200

  /** Last March-year for which `(year / 100) * 146097` fits an `int`. */
  const LAST_INT_YEAR := 1469999

  /** Last day of that March-year. */
  const LAST_ROUND_TRIP_SDN := 536874430

  /** A 366th day occurs only where the 4, 100 and 400 year rules put one. */
  lemma LeapDay(d: Date)
    requires IsDate(Gregorian, d) && MarchYear(d) >= 0
    ensures 1 <= DayOfYear(d) <= 366
    ensures DayOfYear(d) == 366 ==> MarchYear(d) % 100 % 4 == 3
    ensures DayOfYear(d) == 366 && MarchYear(d) % 100 == 99 ==> MarchYear(d) / 100 % 4 == 3
  {
    MonthTiling(Gregorian, d);
    GregorianLeap(MarchYear(d) / 100, MarchYear(d) % 100);
  }

  /** Dividing by the 400-year cycle finds the century `c`, and leaves the day `k` of the century. */
  lemma CenturyCycle(c: int, y: int, n: int, k: int)
    requires c >= 0 && 0 <= y < 100 && 1 <= n <= 366
    requires n == 366 ==> y % 4 == 3 && (y == 99 ==> c % 4 == 3)
    requires k == 365 * y + y / 4 + n - 1
    ensures var temp := (36524 * c + c / 4 + k + 1) * 4 - 1;
            && Div(temp, DAYS_PER_400_YEARS) == c
            && Div(Mod(temp, DAYS_PER_400_YEARS), 4) == k
  {
    var rest := 4 * k + 3 - c % 4;
    CDivision((36524 * c + c / 4 + k + 1) * 4 - 1, 146097, c, rest);
    CDivision(rest, 4, k, 3 - c % 4);
  }

  /** Dividing by the 4-year cycle finds the year `y` of the century and the day `n` of the year. */
  lemma YearCycle(y: int, n: int, k: int)
    requires 0 <= y < 100 && 1 <= n <= 366
    requires n == 366 ==> y % 4 == 3
    requires k == 365 * y + y / 4 + n - 1
    ensures Div(k * 4 + 3, DAYS_PER_4_YEARS) == y
    ensures Div(Mod(k * 4 + 3, DAYS_PER_4_YEARS), 4) + 1 == n
  {
    var rest := 4 * n - 1 - y % 4;
    CDivision(k * 4 + 3, 1461, y, rest);
    CDivision(rest, 4, n - 1, 3 - y % 4);
  }

  /** Which days have a year that fits an `int` at every step. */
  lemma LastIntDay(d: Date)
    requires IsDate(Gregorian, d)
    ensures Serial(Gregorian, d) <= LAST_INT_SDN
            <==> MarchYear(d) < INT_MAX || (MarchYear(d) == INT_MAX && MarchMonth(d) < 10)
  {
    YearBoundary(Gregorian, d, INT_MAX - 1);
    YearBoundary(Gregorian, d, INT_MAX);
    GregorianOffset(21474836, 47);
    NextYear(Gregorian, INT_MAX);
  }

  /** The quotients and remainders met on the way from a day number to its date:
      century, day of the century, year of the century, and day of the year. */
  lemma Digits(d: Date) returns (c: int, k: int, y: int)
    requires IsDate(Gregorian, d) && MarchYear(d) >= 0
    ensures c * 100 + y == MarchYear(d) && 1 <= DayOfYear(d) <= 366
    ensures c >= 0 && 0 <= k <= 36524 && 0 <= y < 100
    ensures var temp := (Serial(Gregorian, d) + GREGOR_SDN_OFFSET) * 4 - 1;
            Div(temp, DAYS_PER_400_YEARS) == c && Div(Mod(temp, DAYS_PER_400_YEARS), 4) == k
    ensures Div(k * 4 + 3, DAYS_PER_4_YEARS) == y
    ensures Div(Mod(k * 4 + 3, DAYS_PER_4_YEARS), 4) + 1 == DayOfYear(d)
  {
    LeapDay(d);
    c, y := MarchYear(d) / 100, MarchYear(d) % 100;
    k := 365 * y + y / 4 + DayOfYear(d) - 1;
    GregorianOffset(c, y);
    assert Serial(Gregorian, d) + GREGOR_SDN_OFFSET == 36524 * c + c / 4 + k + 1;
    CenturyCycle(c, y, DayOfYear(d), k);
    YearCycle(y, DayOfYear(d), k);
  }

  lemma DigitsOfNthDay(sdn: int) returns (c: int, k: int, y: int, n: int, m: int, day: int)
    requires sdn >= 1
    ensures NthDay(Gregorian, sdn) == FromMarch(c * 100 + y, m, day)
    ensures c >= 0 && 0 <= k <= 36524 && 0 <= y < 100 && 1 <= n <= 366 && 0 <= m <= 11 && 1 <= day <= 31
    ensures var temp := (sdn + GREGOR_SDN_OFFSET) * 4 - 1;
            Div(temp, DAYS_PER_400_YEARS) == c && Div(Mod(temp, DAYS_PER_400_YEARS), 4) == k
    ensures Div(k * 4 + 3, DAYS_PER_4_YEARS) == y && Div(Mod(k * 4 + 3, DAYS_PER_4_YEARS), 4) + 1 == n
    ensures Div(n * 5 - 3, DAYS_PER_5_MONTHS) == m && Div(Mod(n * 5 - 3, DAYS_PER_5_MONTHS), 5) + 1 == day
    ensures sdn <= LAST_INT_SDN <==> c * 100 + y < INT_MAX || (c * 100 + y == INT_MAX && m < 10)
  {
    var d := NthDay(Gregorian, sdn);
    SerialOfNthDay(Gregorian, sdn);
    c, k, y := Digits(d);
    n, m, day := DayOfYear(d), MarchMonth(d), d.day;
    MonthCycle(Gregorian, d);
    FromMarchInverts(Gregorian, d);
    LastIntDay(d);
  }

  /** Lines 156-162: century, year and day of the year, before they are stored in `int` variables. */
  method YearAndDay(sdn: Int64) returns (century: int, year: int, dayOfYear: Int32, ghost m: int, ghost day: int)
    requires 1 <= sdn <= SDN_GUARD
    ensures NthDay(Gregorian, sdn) == FromMarch(year, m, day)
    ensures 0 <= century * 100 <= year && 1 <= dayOfYear <= 366
    ensures Div(dayOfYear * 5 - 3, DAYS_PER_5_MONTHS) == m
              && Div(Mod(dayOfYear * 5 - 3, DAYS_PER_5_MONTHS), 5) + 1 == day
    ensures sdn <= LAST_INT_SDN <==> year < INT_MAX || (year == INT_MAX && m < 10)
  {
    ghost var c, k, y, n;
    c, k, y, n, m, day := DigitsOfNthDay(sdn);
    var temp: Int64 := (sdn + GREGOR_SDN_OFFSET) * 4 - 1;
    century := Div(temp, DAYS_PER_400_YEARS);
    assert century == c;
    temp := Div(Mod(temp, DAYS_PER_400_YEARS), 4) * 4 + 3;
    assert temp == k * 4 + 3;
    year := century * 100 + Div(temp, DAYS_PER_4_YEARS);
    dayOfYear := Div(Mod(temp, DAYS_PER_4_YEARS), 4) + 1;
  }

  /** The guard keeps exactly those day numbers of which four times the number, counted
      from the start of the cycles, fits a `long`. */
  lemma GuardIsExact(sdn: int)
    ensures sdn <= SDN_GUARD <==> (sdn + GREGOR_SDN_OFFSET) * 4 <= LONG_MAX
  {
  }

  method SdnToGregorian(sdn: Int64) returns (r: DateResult)
    ensures sdn <= 0 || sdn > SDN_GUARD ==> r == Converted(ZERO_DATE)
    ensures 1 <= sdn <= LAST_INT_SDN ==> r == Converted(NthDay(Gregorian, sdn))
    ensures LAST_INT_SDN < sdn <= SDN_GUARD ==> r == DateOverflow
  {
    if sdn <= 0 || sdn > Div(LONG_MAX - 4 * GREGOR_SDN_OFFSET, 4) {
      return Converted(ZERO_DATE);
    }
    var century, year, dayOfYear, m, day := YearAndDay(sdn);
    if !FitsInt(century) || !FitsInt(century * 100) || !FitsInt(year) {
      return DateOverflow;
    }
    r := ToCivil(year, dayOfYear);
  }

  /** The inputs refused up front: no such year, month or day number, or before day 1. */
  predicate Rejected(year: int, month: int, day: int) {
    || year == 0 || year < -4714
    || month <= 0 || month > 12
    || day <= 0 || day > 31
    || (year == -4714 && (month < 11 || (month == 11 && day < 25)))
  }

  function GregorianToSdn(inputYear: Int32, inputMonth: Int32, inputDay: Int32): SdnResult {
    if inputYear == 0 || inputYear < -4714 || inputMonth <= 0 || inputMonth > 12 || inputDay <= 0 || inputDay > 31 then
      Sdn(0)
    else if inputYear == -4714 && inputMonth < 11 then Sdn(0)
    else if inputYear == -4714 && inputMonth == 11 && inputDay < 25 then Sdn(0)
    else
      var positive: int := if inputYear < 0 then inputYear + 4801 else inputYear + 4800;
      if !FitsInt(positive) then SdnOverflow
      else
        var year := if inputMonth > 2 then positive else positive - 1;
        var month := if inputMonth > 2 then inputMonth - 3 else inputMonth + 9;
        if !FitsInt(Div(year, 100) * DAYS_PER_400_YEARS) then SdnOverflow
        else
          // every other value of the return expression fits an int
          var centuries: Int32 := Div(year, 100) * DAYS_PER_400_YEARS;
          var years: Int32 := Mod(year, 100) * DAYS_PER_4_YEARS;
          var months: Int32 := month * DAYS_PER_5_MONTHS + 2;
          var sum: Int32 := Div(centuries, 4) + Div(years, 4);
          var sum': Int32 := sum + Div(months, 5);
          var sum'': Int32 := sum' + inputDay;
          var sdn: Int32 := sum'' - GREGOR_SDN_OFFSET;
          Sdn(sdn)
  }

  /** What the formula computes for a triple that is not refused. */
  lemma ClosedForm(year: Int32, month: Int32, day: Int32)
    requires !Rejected(year, month, day)
    ensures var d := Date(year, month, day);
            GregorianToSdn(year, month, day)
            == if MarchYear(d) > LAST_INT_YEAR then SdnOverflow else Sdn(Serial(Gregorian, d))
  {
    var y := MarchYear(Date(year, month, day));
    assert y >= 87;
    ProductFits(y);
  }

  lemma ProductFits(y: int)
    requires y >= 0
    ensures FitsInt(Div(y, 100) * DAYS_PER_400_YEARS) <==> y <= LAST_INT_YEAR
  {
  }

  /** The day numbers of accepted triples start at 1. */
  lemma AcceptedIsPositive(d: Date)
    requires !Rejected(d.year, d.month, d.day)
    ensures MarchYear(d) >= 87 && Serial(Gregorian, d) >= 1
  {
    if MarchYear(d) == 87 {
      GregorianOffset(0, 87);
    } else {
      GregorianOffset(0, 88);
      YearOffsetMonotone(Gregorian, 88, MarchYear(d));
    }
  }

  /** The last day number before the product overflows leaves room in the `long`. */
  lemma AcceptedIsBounded(d: Date)
    requires !Rejected(d.year, d.month, d.day) && MarchYear(d) <= LAST_INT_YEAR
    ensures Serial(Gregorian, d) <= LAST_ROUND_TRIP_SDN + 3
  {
    GregorianOffset(14699, 99);
    YearOffsetMonotone(Gregorian, MarchYear(d), LAST_INT_YEAR);
  }

  /** Exactly three outcomes: zero for a refused triple, overflow past March-year
      1469999, and otherwise the number of the day, which is positive. */
  lemma ToSdnOutcome(year: Int32, month: Int32, day: Int32)
    ensures var d, r := Date(year, month, day), GregorianToSdn(year, month, day);
            && (r == Sdn(0) <==> Rejected(year, month, day))
            && (r == SdnOverflow <==> !Rejected(year, month, day) && MarchYear(d) > LAST_INT_YEAR)
            && (r.Sdn? && r.value != 0 ==> r.value == Serial(Gregorian, d) && 1 <= r.value <= LAST_INT_SDN)
  {
    if !Rejected(year, month, day) {
      ClosedForm(year, month, day);
      AcceptedIsPositive(Date(year, month, day));
      if MarchYear(Date(year, month, day)) <= LAST_INT_YEAR {
        AcceptedIsBounded(Date(year, month, day));
      }
    }
  }

  /** The validity test of calendar/sdncal.h:50-64: converting back returns the
      same triple exactly when it is a real date. */
  lemma SurvivesIffReal(year: Int32, month: Int32, day: Int32)
    requires var r := GregorianToSdn(year, month, day); r.Sdn? && r.value > 0
    ensures var r := GregorianToSdn(year, month, day);
            && r.value <= LAST_INT_SDN
            && (NthDay(Gregorian, r.value) == Date(year, month, day) <==> IsDate(Gregorian, Date(year, month, day)))
  {
    ToSdnOutcome(year, month, day);
    if IsDate(Gregorian, Date(year, month, day)) {
      CountingReaches(Gregorian, Date(year, month, day));
    }
  }

  /** A real date that counting reaches is not refused. */
  lemma AcceptedDates(d: Date)
    requires IsDate(Gregorian, d)
    ensures Rejected(d.year, d.month, d.day) <==> Serial(Gregorian, d) < 1
  {
    YearBoundary(Gregorian, d, 86);
    GregorianOffset(0, 87);
    if !Rejected(d.year, d.month, d.day) {
      AcceptedIsPositive(d);
    }
  }

  lemma LastRoundTripDay(d: Date)
    requires IsDate(Gregorian, d)
    ensures Serial(Gregorian, d) <= LAST_ROUND_TRIP_SDN <==> MarchYear(d) <= LAST_INT_YEAR
  {
    YearBoundary(Gregorian, d, LAST_INT_YEAR);
    GregorianOffset(14700, 0);
  }

  lemma ToSdnOfDate(d: Date)
    requires IsDate(Gregorian, d) && Serial(Gregorian, d) >= 1 && FitsInt(d.year)
    ensures GregorianToSdn(d.year, d.month, d.day)
            == if Serial(Gregorian, d) <= LAST_ROUND_TRIP_SDN then Sdn(Serial(Gregorian, d)) else SdnOverflow
  {
    AcceptedDates(d);
    ClosedForm(d.year, d.month, d.day);
    LastRoundTripDay(d);
  }

  /** Converting a day number to a date and back returns it, as long as the
      formula's `int` product does not overflow. */
  lemma {:induction false} RoundTrip(sdn: int)
    requires 1 <= sdn <= LAST_INT_SDN
    ensures var d := NthDay(Gregorian, sdn);
            && IsDate(Gregorian, d) && FitsInt(d.year)
            && GregorianToSdn(d.year, d.month, d.day) == if sdn <= LAST_ROUND_TRIP_SDN then Sdn(sdn) else SdnOverflow
  {
    var d := NthDay(Gregorian, sdn);
    SerialOfNthDay(Gregorian, sdn);
    LastIntDay(d);
    ToSdnOfDate(d);
  }

  /** Zero is the answer to exactly the triples without such a year, month or day number,
      and to those before the first day. */
  lemma ZeroExactly(year: Int32, month: Int32, day: Int32)
    ensures GregorianToSdn(year, month, day) == Sdn(0)
            <==> || year == 0 || !(1 <= month <= 12) || !(1 <= day <= 31)
                 || Before(Date(year, month, day), FirstDay(Gregorian))
  {
    ToSdnOutcome(year, month, day);
  }

  /** A day number that the month does not reach counts on from the last day of the month,
      into the next one. */
  lemma SpillOver(year: Int32, month: Int32, day: Int32)
    requires year != 0 && 1 <= month <= 12 && MonthLength(Gregorian, year, month) < day <= 31
    requires !Before(Date(year, month, day), FirstDay(Gregorian))
    requires GregorianToSdn(year, month, day).Sdn?
    ensures var length, r := MonthLength(Gregorian, year, month), GregorianToSdn(year, month, day).value;
            && GregorianToSdn(year, month, length) == Sdn(r - (day - length))
            && r >= 1 && NthDay(Gregorian, r) == Date(year, month + 1, day - length)
  {
    var length := MonthLength(Gregorian, year, month);
    CountsOn(Gregorian, year, month, day);
    SpillsOver(Gregorian, year, month, day, length);
    ClosedForm(year, month, day);
    ClosedForm(year, month, length);
    AcceptedIsPositive(Date(year, month, day));
    CountingReaches(Gregorian, Date(year, month + 1, day - length));
  }

  /** Known day numbers, among them that of a 30 February. */
  lemma KnownDays()
    ensures GregorianToSdn(2000, 1, 1) == Sdn(2451545)
    ensures GregorianToSdn(2001, 2, 30) == GregorianToSdn(2001, 3, 2) == Sdn(2451971)
  {
  }

  /** Day numbers are in date order. */
  lemma SdnOrder(y1: Int32, m1: Int32, d1: Int32, y2: Int32, m2: Int32, d2: Int32)
    requires IsDate(Gregorian, Date(y1, m1, d1)) && IsDate(Gregorian, Date(y2, m2, d2))
    requires var r1, r2 := GregorianToSdn(y1, m1, d1), GregorianToSdn(y2, m2, d2);
             r1.Sdn? && r1.value > 0 && r2.Sdn? && r2.value > 0
    ensures GregorianToSdn(y1, m1, d1).value < GregorianToSdn(y2, m2, d2).value
            <==> Before(Date(y1, m1, d1), Date(y2, m2, d2))
  {
    ToSdnOutcome(y1, m1, d1);
    ToSdnOutcome(y2, m2, d2);
    SerialOrder(Gregorian, Date(y1, m1, d1), Date(y2, m2, d2));
  }

  /** The check that calendar/sdncal.h:54-64 prescribes, run on both conversions. */
  method IsValidDate(year: Int32, month: Int32, day: Int32) returns (valid: bool)
    ensures valid <==> && IsDate(Gregorian, Date(year, month, day))
                       && !Rejected(year, month, day)
                       && MarchYear(Date(year, month, day)) <= LAST_INT_YEAR
  {
    ToSdnOutcome(year, month, day);
    var sdn := GregorianToSdn(year, month, day);
    if sdn.SdnOverflow? || sdn.value <= 0 {
      return false;
    }
    SurvivesIffReal(year, month, day);
    var back := SdnToGregorian(sdn.value);
    return back == Converted(Date(year, month, day));
  }
}
