/** calendar/julian.c: serial day numbers to and from Julian dates. */
module Julian {
  import opened CInt
  import opened CivilCalendar
  import opened SerialDay

  const JULIAN_SDN_OFFSET := 32083
  const DAYS_PER_5_MONTHS := 153
  const DAYS_PER_4_YEARS := 1461

  /** 31 December of the last March-year an `int` can hold, and the end of the
      following February, where that March-year ends. */
  const LAST_INT_SDN := 784368370289
  const LAST_MARCH_SDN := 784368370349

  /** Last March-year for which `year * 1461` fits an `int` (INT_MAX / 1461), and its last day. */
  const LAST_INT_YEAR := 1469872
  const LAST_ROUND_TRIP_SDN := 536839030

  /** A 366th day occurs only where the 4 year rule puts one. */
  lemma LeapDay(d: Date)
    requires IsDate(Calendar.Julian, d)
    ensures 1 <= DayOfYear(d) <= 366
    ensures DayOfYear(d) == 366 ==> MarchYear(d) % 4 == 3
  {
    MonthTiling(Calendar.Julian, d);
  }

  /** Dividing by the 4-year cycle finds the year `y` and the day `n` of the year. */
  lemma YearCycle(y: int, n: int)
    requires 0 <= y && 1 <= n <= 366
    requires n == 366 ==> y % 4 == 3
    ensures var temp := (365 * y + y / 4 + n) * 4 - 1;
            Div(temp, DAYS_PER_4_YEARS) == y && Div(Mod(temp, DAYS_PER_4_YEARS), 4) + 1 == n
  {
    var rest := 4 * n - 1 - y % 4;
    CDivision((365 * y + y / 4 + n) * 4 - 1, 1461, y, rest);
    CDivision(rest, 4, n - 1, 3 - y % 4);
  }

  /** Where in the last March-year of an `int` a day lies. */
  lemma LastIntDay(d: Date)
    requires IsDate(Calendar.Julian, d)
    ensures Serial(Calendar.Julian, d) <= LAST_MARCH_SDN <==> MarchYear(d) <= INT_MAX
    ensures Serial(Calendar.Julian, d) <= LAST_INT_SDN
            <==> MarchYear(d) < INT_MAX || (MarchYear(d) == INT_MAX && MarchMonth(d) < 10)
  {
    YearBoundary(Calendar.Julian, d, INT_MAX - 1);
    YearBoundary(Calendar.Julian, d, INT_MAX);
    JulianOffset(INT_MAX);
    JulianOffset(INT_MAX + 1);
  }

  /** The quotients and remainders met on the way from a day number to its date:
      year, day of the year, month and day. */
  lemma DigitsOfNthDay(sdn: int) returns (y: int, n: int, m: int, day: int)
    requires sdn >= 1
    ensures NthDay(Calendar.Julian, sdn) == FromMarch(y, m, day)
    ensures y >= 0 && 1 <= n <= 366 && 0 <= m <= 11 && 1 <= day <= 31
    ensures var temp := sdn * 4 + (JULIAN_SDN_OFFSET * 4 - 1);
            Div(temp, DAYS_PER_4_YEARS) == y && Div(Mod(temp, DAYS_PER_4_YEARS), 4) + 1 == n
    ensures Div(n * 5 - 3, DAYS_PER_5_MONTHS) == m && Div(Mod(n * 5 - 3, DAYS_PER_5_MONTHS), 5) + 1 == day
    ensures sdn <= LAST_MARCH_SDN <==> y <= INT_MAX
    ensures sdn <= LAST_INT_SDN <==> y < INT_MAX || (y == INT_MAX && m < 10)
  {
    var d := NthDay(Calendar.Julian, sdn);
    SerialOfNthDay(Calendar.Julian, sdn);
    LeapDay(d);
    y, n, m, day := MarchYear(d), DayOfYear(d), MarchMonth(d), d.day;
    JulianOffset(y);
    YearCycle(y, n);
    MonthCycle(Calendar.Julian, d);
    FromMarchInverts(Calendar.Julian, d);
    LastIntDay(d);
  }

  method SdnToJulian(sdn: Int64) returns (r: DateResult)
    ensures sdn <= 0 || sdn > LAST_MARCH_SDN ==> r == Converted(ZERO_DATE)
    ensures 1 <= sdn <= LAST_INT_SDN ==> r == Converted(NthDay(Calendar.Julian, sdn))
    ensures LAST_INT_SDN < sdn <= LAST_MARCH_SDN ==> r == DateOverflow
  {
    if sdn <= 0 {
      return Converted(ZERO_DATE);
    }
    // check for overflow
    if sdn > Div(LONG_MAX - JULIAN_SDN_OFFSET * 4 + 1, 4) || sdn < Div(-LONG_MAX - 1, 4) {
      return Converted(ZERO_DATE);
    }
    ghost var y, n, m, d := DigitsOfNthDay(sdn);
    var temp: Int64 := sdn * 4 + (JULIAN_SDN_OFFSET * 4 - 1);

    // the year and the day of the year
    var yearl: Int64 := Div(temp, DAYS_PER_4_YEARS);
    if yearl > INT_MAX || yearl < -INT_MAX - 1 {
      return Converted(ZERO_DATE);
    }
    var year: Int32 := yearl;
    var dayOfYear: Int32 := Div(Mod(temp, DAYS_PER_4_YEARS), 4) + 1;
    assert year == y && dayOfYear == n;
    r := ToCivil(year, dayOfYear);
  }

  /** The inputs refused up front: no such year, month or day number, or before day 1. */
  predicate Rejected(year: int, month: int, day: int) {
    || year == 0 || year < -4713
    || month <= 0 || month > 12
    || day <= 0 || day > 31
    || (year == -4713 && month == 1 && day == 1)
  }

  function JulianToSdn(inputYear: Int32, inputMonth: Int32, inputDay: Int32): SdnResult {
    if inputYear == 0 || inputYear < -4713 || inputMonth <= 0 || inputMonth > 12 || inputDay <= 0 || inputDay > 31 then
      Sdn(0)
    else if inputYear == -4713 && inputMonth == 1 && inputDay == 1 then Sdn(0)
    else
      var positive: int := if inputYear < 0 then inputYear + 4801 else inputYear + 4800;
      if !FitsInt(positive) then SdnOverflow
      else
        var year := if inputMonth > 2 then positive else positive - 1;
        var month := if inputMonth > 2 then inputMonth - 3 else inputMonth + 9;
        if !FitsInt(year * DAYS_PER_4_YEARS) then SdnOverflow
        else
          // every other value of the return expression fits an int
          var years: Int32 := year * DAYS_PER_4_YEARS;
          var months: Int32 := month * DAYS_PER_5_MONTHS + 2;
          var sum: Int32 := Div(years, 4) + Div(months, 5);
          var sum': Int32 := sum + inputDay;
          var sdn: Int32 := sum' - JULIAN_SDN_OFFSET;
          Sdn(sdn)
  }

  /** What the formula computes for a triple that is not refused. */
  lemma ClosedForm(year: Int32, month: Int32, day: Int32)
    requires !Rejected(year, month, day)
    ensures var d := Date(year, month, day);
            JulianToSdn(year, month, day)
            == if MarchYear(d) > LAST_INT_YEAR then SdnOverflow else Sdn(Serial(Calendar.Julian, d))
  {
    var y := MarchYear(Date(year, month, day));
    assert y >= 87;
    assert FitsInt(y * DAYS_PER_4_YEARS) <==> y <= LAST_INT_YEAR;
  }

  /** The day numbers of accepted triples start at 1. */
  lemma AcceptedIsPositive(d: Date)
    requires !Rejected(d.year, d.month, d.day)
    ensures MarchYear(d) >= 87 && Serial(Calendar.Julian, d) >= 1
  {
    if MarchYear(d) == 87 {
      JulianOffset(87);
    } else {
      JulianOffset(88);
      YearOffsetMonotone(Calendar.Julian, 88, MarchYear(d));
    }
  }

  /** The last day number before the product overflows leaves room in the `long`. */
  lemma AcceptedIsBounded(d: Date)
    requires !Rejected(d.year, d.month, d.day) && MarchYear(d) <= LAST_INT_YEAR
    ensures Serial(Calendar.Julian, d) <= LAST_ROUND_TRIP_SDN + 3
  {
    JulianOffset(LAST_INT_YEAR);
    YearOffsetMonotone(Calendar.Julian, MarchYear(d), LAST_INT_YEAR);
  }

  /** Exactly three outcomes: zero for a refused triple, overflow past March-year
      INT_MAX / 1461, and otherwise the number of the day, which is positive. */
  lemma ToSdnOutcome(year: Int32, month: Int32, day: Int32)
    ensures var d, r := Date(year, month, day), JulianToSdn(year, month, day);
            && (r == Sdn(0) <==> Rejected(year, month, day))
            && (r == SdnOverflow <==> !Rejected(year, month, day) && MarchYear(d) > LAST_INT_YEAR)
            && (r.Sdn? && r.value != 0 ==> r.value == Serial(Calendar.Julian, d) && 1 <= r.value <= LAST_INT_SDN)
  {
    if !Rejected(year, month, day) {
      ClosedForm(year, month, day);
      AcceptedIsPositive(Date(year, month, day));
      if MarchYear(Date(year, month, day)) <= LAST_INT_YEAR {
        AcceptedIsBounded(Date(year, month, day));
      }
    }
  }

  /** The validity test of calendar/sdncal.h:50-64: converting back returns the
      same triple exactly when it is a real date. */
  lemma SurvivesIffReal(year: Int32, month: Int32, day: Int32)
    requires var r := JulianToSdn(year, month, day); r.Sdn? && r.value > 0
    ensures var r := JulianToSdn(year, month, day);
            && r.value <= LAST_INT_SDN
            && (NthDay(Calendar.Julian, r.value) == Date(year, month, day)
                <==> IsDate(Calendar.Julian, Date(year, month, day)))
  {
    ToSdnOutcome(year, month, day);
    if IsDate(Calendar.Julian, Date(year, month, day)) {
      CountingReaches(Calendar.Julian, Date(year, month, day));
    }
  }

  /** A real date that counting reaches is not refused. */
  lemma AcceptedDates(d: Date)
    requires IsDate(Calendar.Julian, d)
    ensures Rejected(d.year, d.month, d.day) <==> Serial(Calendar.Julian, d) < 1
  {
    YearBoundary(Calendar.Julian, d, 86);
    JulianOffset(87);
    if !Rejected(d.year, d.month, d.day) {
      AcceptedIsPositive(d);
    }
  }

  lemma LastRoundTripDay(d: Date)
    requires IsDate(Calendar.Julian, d)
    ensures Serial(Calendar.Julian, d) <= LAST_ROUND_TRIP_SDN <==> MarchYear(d) <= LAST_INT_YEAR
  {
    YearBoundary(Calendar.Julian, d, LAST_INT_YEAR);
    JulianOffset(LAST_INT_YEAR + 1);
  }

  lemma ToSdnOfDate(d: Date)
    requires IsDate(Calendar.Julian, d) && Serial(Calendar.Julian, d) >= 1 && FitsInt(d.year)
    ensures JulianToSdn(d.year, d.month, d.day)
            == if Serial(Calendar.Julian, d) <= LAST_ROUND_TRIP_SDN then Sdn(Serial(Calendar.Julian, d))
                else SdnOverflow
  {
    AcceptedDates(d);
    ClosedForm(d.year, d.month, d.day);
    LastRoundTripDay(d);
  }

  /** Converting a day number to a date and back returns it, as long as the
      formula's `int` product does not overflow. */
  lemma {:induction false} RoundTrip(sdn: int)
    requires 1 <= sdn <= LAST_INT_SDN
    ensures var d := NthDay(Calendar.Julian, sdn);
            && IsDate(Calendar.Julian, d) && FitsInt(d.year)
            && JulianToSdn(d.year, d.month, d.day) == if sdn <= LAST_ROUND_TRIP_SDN then Sdn(sdn) else SdnOverflow
  {
    var d := NthDay(Calendar.Julian, sdn);
    SerialOfNthDay(Calendar.Julian, sdn);
    LastIntDay(d);
    ToSdnOfDate(d);
  }

  /** Zero is the answer to exactly the triples without such a year, month or day number,
      and to those before the first day. */
  lemma ZeroExactly(year: Int32, month: Int32, day: Int32)
    ensures JulianToSdn(year, month, day) == Sdn(0)
            <==> || year == 0 || !(1 <= month <= 12) || !(1 <= day <= 31)
                 || Before(Date(year, month, day), FirstDay(Calendar.Julian))
  {
    ToSdnOutcome(year, month, day);
  }

  /** A day number that the month does not reach counts on from the last day of the month,
      into the next one. */
  lemma SpillOver(year: Int32, month: Int32, day: Int32)
    requires year != 0 && 1 <= month <= 12 && MonthLength(Calendar.Julian, year, month) < day <= 31
    requires !Before(Date(year, month, day), FirstDay(Calendar.Julian))
    requires JulianToSdn(year, month, day).Sdn?
    ensures var length, r := MonthLength(Calendar.Julian, year, month), JulianToSdn(year, month, day).value;
            && JulianToSdn(year, month, length) == Sdn(r - (day - length))
            && r >= 1 && NthDay(Calendar.Julian, r) == Date(year, month + 1, day - length)
  {
    var length := MonthLength(Calendar.Julian, year, month);
    CountsOn(Calendar.Julian, year, month, day);
    SpillsOver(Calendar.Julian, year, month, day, length);
    ClosedForm(year, month, day);
    ClosedForm(year, month, length);
    AcceptedIsPositive(Date(year, month, day));
    CountingReaches(Calendar.Julian, Date(year, month + 1, day - length));
  }

  /** Known day numbers, among them that of a 30 February. */
  lemma KnownDays()
    ensures JulianToSdn(1582, 10, 4) == Sdn(2299160)
    ensures JulianToSdn(1500, 2, 30) == JulianToSdn(1500, 3, 1) == Sdn(2268993)
  {
  }

  /** Day numbers are in date order. */
  lemma SdnOrder(y1: Int32, m1: Int32, d1: Int32, y2: Int32, m2: Int32, d2: Int32)
    requires IsDate(Calendar.Julian, Date(y1, m1, d1)) && IsDate(Calendar.Julian, Date(y2, m2, d2))
    requires var r1, r2 := JulianToSdn(y1, m1, d1), JulianToSdn(y2, m2, d2);
             r1.Sdn? && r1.value > 0 && r2.Sdn? && r2.value > 0
    ensures JulianToSdn(y1, m1, d1).value < JulianToSdn(y2, m2, d2).value
            <==> Before(Date(y1, m1, d1), Date(y2, m2, d2))
  {
    ToSdnOutcome(y1, m1, d1);
    ToSdnOutcome(y2, m2, d2);
    SerialOrder(Calendar.Julian, Date(y1, m1, d1), Date(y2, m2, d2));
  }

  /** The check that calendar/sdncal.h:54-64 prescribes, run on both conversions. */
  method IsValidDate(year: Int32, month: Int32, day: Int32) returns (valid: bool)
    ensures valid <==> && IsDate(Calendar.Julian, Date(year, month, day))
                       && !Rejected(year, month, day)
                       && MarchYear(Date(year, month, day)) <= LAST_INT_YEAR
  {
    ToSdnOutcome(year, month, day);
    var sdn := JulianToSdn(year, month, day);
    if sdn.SdnOverflow? || sdn.value <= 0 {
      return false;
    }
    SurvivesIffReal(year, month, day);
    var back := SdnToJulian(sdn.value);
    return back == Converted(Date(year, month, day));
  }
}
