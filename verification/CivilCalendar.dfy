/** The reference calendars: what a date is, and which date follows it.
    Nothing here is a closed form; the conversion routines are proved against
    counting days one at a time with `NthDay`. */
module CivilCalendar {
  datatype Calendar = Gregorian | Julian

  /** `year` is in B.C./A.D. numbering: -1 is 1 B.C., and there is no year 0. */
  datatype Date = Date(year: int, month: int, day: int)

  function Astronomical(year: int): int {
    if year < 0 then year + 1 else year
  }

  predicate IsLeap(cal: Calendar, astronomicalYear: int) {
    && astronomicalYear % 4 == 0
    && (cal.Gregorian? ==> astronomicalYear % 100 != 0 || astronomicalYear % 400 == 0)
  }

  function MonthLength(cal: Calendar, year: int, month: int): int {
    if month == 2 then (if IsLeap(cal, Astronomical(year)) then 29 else 28)
    else if month in {4, 6, 9, 11} then 30
    else 31
  }

  /** The triples that name a day. */
  predicate IsDate(cal: Calendar, d: Date) {
    && d.year != 0
    && 1 <= d.month <= 12
    && 1 <= d.day <= MonthLength(cal, d.year, d.month)
  }

  function NextDay(cal: Calendar, d: Date): Date {
    if d.day < MonthLength(cal, d.year, d.month) then d.(day := d.day + 1)
    else if d.month < 12 then Date(d.year, d.month + 1, 1)
    else if d.year == -1 then Date(1, 1, 1)
    else Date(d.year + 1, 1, 1)
  }

  /** Serial day number 1 (calendar/sdncal.h:21, calendar/julian.c:229). */
  function FirstDay(cal: Calendar): Date {
    match cal
    case Gregorian => Date(-4714, 11, 25)
    case Julian => Date(-4713, 1, 2)
  }

  /** The date reached by counting `sdn - 1` days from the first one. */
  ghost function NthDay(cal: Calendar, sdn: int): Date
    requires sdn >= 1
    decreases sdn
  {
    if sdn == 1 then FirstDay(cal) else NextDay(cal, NthDay(cal, sdn - 1))
  }

  /** Counting only meets real dates. */
  lemma {:induction false} NthDayIsDate(cal: Calendar, sdn: int)
    requires sdn >= 1
    ensures IsDate(cal, NthDay(cal, sdn))
    decreases sdn
  {
    if sdn > 1 {
      NthDayIsDate(cal, sdn - 1);
    }
  }

  /** Chronological order. */
  predicate Before(a: Date, b: Date) {
    || a.year < b.year
    || (a.year == b.year && (a.month < b.month || (a.month == b.month && a.day < b.day)))
  }

  lemma {:induction false} LaterNumberLaterDate(cal: Calendar, m: int, n: int)
    requires 1 <= m < n
    ensures Before(NthDay(cal, m), NthDay(cal, n))
    decreases n
  {
    if m < n - 1 {
      LaterNumberLaterDate(cal, m, n - 1);
    }
    NthDayIsDate(cal, n - 1);
    assert Before(NthDay(cal, n - 1), NthDay(cal, n));
  }

  /** Numbers are in the order of the dates they count. */
  lemma {:induction false} NumberOrder(cal: Calendar, m: int, n: int)
    requires m >= 1 && n >= 1
    ensures m < n <==> Before(NthDay(cal, m), NthDay(cal, n))
  {
    if m < n {
      LaterNumberLaterDate(cal, m, n);
    } else if n < m {
      LaterNumberLaterDate(cal, n, m);
    }
  }
}
