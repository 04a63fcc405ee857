/** Results that tie the calendar files together: both conversions, the day of
    the week and Easter. */
module Calendars {
  import opened CInt
  import opened CivilCalendar
  import opened SerialDay
  import opened Dow
  import G = Gregor
  import J = Julian
  import E = Easter

  /** Astronomical year counted from March, and its century. */
  function Century(d: Date): int {
    (MarchYear(d) - 4800) / 100
  }

  lemma OffsetGap(y: int)
    ensures YearOffset(Calendar.Julian, y) - YearOffset(Calendar.Gregorian, y)
            == (y - 4800) / 100 - (y - 4800) / 100 / 4 - 2
  {
    var c, r := y / 100, y % 100;
    assert y == c * 100 + r;
    GregorianOffset(c, r);
    JulianOffset(y);
    Division(y, 4, 25 * c + r / 4, r % 4);
    Division(y - 4800, 100, c - 48, r);
    Division(c - 48, 4, c / 4 - 12, c % 4);
  }

  /** How many days the same triple differs by in the two calendars. */
  lemma CalendarGap(year: Int32, month: Int32, day: Int32)
    requires var g := G.GregorianToSdn(year, month, day); g.Sdn? && g.value > 0
    requires var j := J.JulianToSdn(year, month, day); j.Sdn? && j.value > 0
    ensures var c := Century(Date(year, month, day));
            J.JulianToSdn(year, month, day).value - G.GregorianToSdn(year, month, day).value == c - c / 4 - 2
  {
    G.ToSdnOutcome(year, month, day);
    J.ToSdnOutcome(year, month, day);
    OffsetGap(MarchYear(Date(year, month, day)));
  }

  /** The reform of 1582: Thursday 4 October was followed by Friday 15 October. */
  lemma ReformOf1582()
    ensures J.JulianToSdn(1582, 10, 4).Sdn? && G.GregorianToSdn(1582, 10, 15).Sdn?
    ensures G.GregorianToSdn(1582, 10, 15).value == J.JulianToSdn(1582, 10, 4).value + 1 == 2299161
    ensures DayOfWeek(2299160) == THURSDAY && DayOfWeek(2299161) == FRIDAY
  {
    G.ClosedForm(1582, 10, 15);
    J.ClosedForm(1582, 10, 4);
    GregorianOffset(63, 82);
    JulianOffset(6382);
  }

  /** Day number of a date, by the conversion of the calendar named. */
  function ToSdn(cal: Calendar, year: Int32, month: Int32, day: Int32): SdnResult {
    match cal
    case Gregorian => G.GregorianToSdn(year, month, day)
    case Julian => J.JulianToSdn(year, month, day)
  }

  /** Easter is a Sunday by the repository's own day count and day of the week,
      for every year of the Christian era whose dates the conversions can number. */
  lemma EasterIsSunday(cal: Calendar, year: Int32, days: int)
    requires 1 <= year && E.IsEaster(cal, year, days)
    requires ToSdn(cal, year, 3, 21).Sdn?
    ensures var sdn := ToSdn(cal, year, 3, 21).value + days;
            1 <= sdn < LONG_MAX && DayOfWeek(sdn) == SUNDAY
  {
    E.EasterIsUnique(cal, year, days, days);
    G.ToSdnOutcome(year, 3, 21);
    J.ToSdnOutcome(year, 3, 21);
    Congruence(ToSdn(cal, year, 3, 21).value + days);
  }

  /** The six days before Easter and back to the full moon hold no Sunday: Easter
      is the first one after the moon. */
  lemma NoEarlierSunday(cal: Calendar, year: Int32, days: int, other: int)
    requires 1 <= year && E.IsEaster(cal, year, days)
    requires ToSdn(cal, year, 3, 21).Sdn?
    requires E.PaschalMoon(cal, year) < other < days
    ensures var sdn := ToSdn(cal, year, 3, 21).value + other;
            1 <= sdn < LONG_MAX && DayOfWeek(sdn) != SUNDAY
  {
    E.EasterIsUnique(cal, year, days, other);
    E.MoonRange(E.Golden(year), E.Correction(cal, year));
    G.ToSdnOutcome(year, 3, 21);
    J.ToSdnOutcome(year, 3, 21);
    Congruence(ToSdn(cal, year, 3, 21).value + other);
  }

  lemma EasterDateInMarchOrApril(cal: Calendar, d: Date)
    requires d.year >= 1 && E.IsEasterDate(cal, d)
    ensures d.month == 3 || d.month == 4
  {
    var days := Serial(cal, d) - E.March21(cal, d.year);
    E.EasterIsUnique(cal, d.year, days, days);
    E.MarchAprilSplit(cal, d.year, days);
    SerialInjective(cal, d, if days < 11 then Date(d.year, 3, days + 21) else Date(d.year, 4, days - 10));
  }

  lemma EasterDateIsSunday(cal: Calendar, d: Date)
    requires d.year >= 1 && E.IsEasterDate(cal, d)
    ensures (Serial(cal, d) + 1) % 7 == 0
  {
  }

  lemma ThirteenDaysBefore(sunday: int)
    requires (sunday + 1) % 7 == 0
    ensures (sunday - 13 + 1) % 7 == 1
  {
  }

  lemma GapIsThirteen(d: Date)
    requires 1970 <= d.year <= 2037 && 3 <= d.month <= 4
    ensures Century(d) - Century(d) / 4 - 2 == 13
  {
  }

  /** In those years the number of the same triple is 13 less in the Gregorian calendar. */
  lemma ModernNumbers(year: Int32, month: Int32, day: Int32)
    requires 1970 <= year <= 2037 && 3 <= month <= 4 && 1 <= day <= 31
    ensures var d := Date(year, month, day);
            && G.GregorianToSdn(year, month, day) == Sdn(Serial(Gregorian, d)) && 1 <= Serial(Gregorian, d) < LONG_MAX
            && Serial(Gregorian, d) == Serial(Julian, d) - 13
  {
    var d := Date(year, month, day);
    G.ClosedForm(year, month, day);
    G.AcceptedIsPositive(d);
    G.AcceptedIsBounded(d);
    OffsetGap(MarchYear(d));
    GapIsThirteen(d);
  }

  /** A timestamp is made by reading the triple as a Gregorian date. That is Easter
      Sunday except under "always Julian", where it always is a Monday. */
  lemma TimestampWeekday(year: Int32, month: Int32, day: Int32, choice: int)
    requires 1970 <= year <= 2037 && E.IsEasterDate(E.RuleOf(year, choice), Date(year, month, day))
    ensures var r := G.GregorianToSdn(year, month, day);
            && r.Sdn? && 1 <= r.value < LONG_MAX
            && DayOfWeek(r.value) == if choice == E.CAL_EASTER_ALWAYS_JULIAN then MONDAY else SUNDAY
  {
    var d := Date(year, month, day);
    EasterDateInMarchOrApril(E.RuleOf(year, choice), d);
    ModernNumbers(year, month, day);
    EasterDateIsSunday(E.RuleOf(year, choice), d);
    Congruence(Serial(Gregorian, d));
    if choice == E.CAL_EASTER_ALWAYS_JULIAN {
      ThirteenDaysBefore(Serial(Julian, d));
    }
  }
}
