/** calendar/easter.c: the date of Easter. */
module Easter {
  import opened CInt
  import opened CivilCalendar
  import opened SerialDay
  import opened Dow

  const CAL_EASTER_ROMAN := 1
  const CAL_EASTER_ALWAYS_GREGORIAN := 2
  const CAL_EASTER_ALWAYS_JULIAN := 3

  /** What the caller gets: FALSE, days after 21 March, or the `tmMon` and
      `tmMday` handed to `mktime`. */
  datatype EasterResult = OutOfRange | Days(days: int) | LocalDate(tmMon: int, tmMday: int)

  /** The years for which no `long` sum overflows. */
  predicate SumsFit(year: int) {
    -LONG_MAX - 1 <= year - 1600 && -LONG_MAX - 1 <= year + Div(year, 4) && year + Div(year, 4) + 5 <= LONG_MAX
  }

  /** The calendar whose rule applies. */
  function RuleOf(year: int, choice: int): Calendar {
    if choice == CAL_EASTER_ALWAYS_JULIAN then Julian
    else if choice == CAL_EASTER_ALWAYS_GREGORIAN then Gregorian
    else if year <= 1582 then Julian
    else if year <= 1752 && choice != CAL_EASTER_ROMAN then Julian
    else Gregorian
  }

  /** Place of the year in the 19-year lunar cycle. */
  function Golden(year: int): int {
    Mod(year, 19) + 1
  }

  /** Solar minus lunar correction. In the Julian calendar it is fixed. */
  function Correction(cal: Calendar, year: int): int {
    match cal
    case Julian => -7
    case Gregorian =>
      (Div(year - 1600, 100) - Div(year - 1600, 400)) - Div(Div(year - 1400, 100) * 8, 25)
  }

  /** Uncorrected full moon, from the golden number and the correction. */
  function RawMoon(golden: int, correction: int): int {
    (3 - 11 * golden + correction) % 30
  }

  /** The Paschal full moon, in days after 21 March. */
  function Moon(golden: int, correction: int): int {
    var raw := RawMoon(golden, correction);
    if raw == 29 || (raw == 28 && golden > 11) then raw - 1 else raw
  }

  function PaschalMoon(cal: Calendar, year: int): int {
    Moon(Golden(year), Correction(cal, year))
  }

  /** 21 March of a year of the Christian era. */
  function March21(cal: Calendar, year: int): int {
    Serial(cal, Date(year, 3, 21))
  }

  predicate IsSunday(sdn: int) {
    (sdn + 1) % 7 == SUNDAY
  }

  /** Easter is the first Sunday after the Paschal full moon. */
  predicate IsEaster(cal: Calendar, year: int, days: int) {
    && PaschalMoon(cal, year) < days <= PaschalMoon(cal, year) + 7
    && IsSunday(March21(cal, year) + days)
  }

  /** The "dominical number". */
  function Dominical(cal: Calendar, year: int): int {
    match cal
    case Julian => (year + Div(year, 4) + 5) % 7
    case Gregorian => (year + Div(year, 4) - Div(year, 100) + Div(year, 400)) % 7
  }

  lemma YearDigits(year: int) returns (c: int, y: int)
    ensures year == c * 100 + y && 0 <= y < 100
    ensures year / 100 == c && year / 400 == c / 4 && year / 4 == 25 * c + y / 4
  {
    c, y := year / 100, year % 100;
    Division(year, 400, c / 4, c % 4 * 100 + y);
    Division(year, 4, 25 * c + y / 4, y % 4);
  }

  lemma SameResidue(n: int, m: int, k: int, t: int)
    requires k > 0 && n == m + k * t
    ensures n % k == m % k
  {
    assert m == k * (m / k) + m % k;
    assert n == k * (m / k + t) + m % k;
    Division(n, k, m / k + t, m % k);
  }

  /** 21 March moves through the week with the sum of which the dominical number is the residue. */
  lemma GregorianMarch21(year: int) returns (weeks: int)
    requires year >= 1
    ensures March21(Gregorian, year) + 1 == (year + year / 4 - year / 100 + year / 400) - 5 + 7 * weeks
  {
    var c, y := YearDigits(year);
    assert March21(Gregorian, year) == YearOffset(Gregorian, (c + 48) * 100 + y) + 21;
    GregorianOffset(c + 48, y);
    Division(c + 48, 4, c / 4 + 12, c % 4);
    weeks := 5200 * c + 52 * y + 245878;
  }

  lemma JulianMarch21(year: int) returns (weeks: int)
    requires year >= 1
    ensures March21(Julian, year) + 1 == (year + year / 4 + 5) - 5 + 7 * weeks
  {
    assert March21(Julian, year) == YearOffset(Julian, year + 4800) + 21;
    JulianOffset(year + 4800);
    weeks := 52 * year + 245877;
  }

  /** The dominical number says which days after 21 March are Sundays. */
  lemma DominicalFindsSundays(cal: Calendar, year: int, days: int)
    requires year >= 1
    ensures IsSunday(March21(cal, year) + days) <==> (days + Dominical(cal, year) - 5) % 7 == 0
  {
    var sum := if cal.Julian? then year + year / 4 + 5 else year + year / 4 - year / 100 + year / 400;
    var weeks;
    if cal.Julian? {
      weeks := JulianMarch21(year);
    } else {
      weeks := GregorianMarch21(year);
    }
    SameResidue(March21(cal, year) + days + 1, days + sum - 5, 7, weeks);
    SameResidue(days + sum - 5, days + sum % 7 - 5, 7, sum / 7);
  }

  /** A date of Easter. */
  predicate IsEasterDate(cal: Calendar, d: Date) {
    IsDate(cal, d) && IsEaster(cal, d.year, Serial(cal, d) - March21(cal, d.year))
  }

  /** The March and April branches name the day that many days after 21 March. */
  lemma MarchAprilSplit(cal: Calendar, year: int, days: int)
    requires year >= 1 && 1 <= days <= 35
    ensures var d := if days < 11 then Date(year, 3, days + 21) else Date(year, 4, days - 10);
            IsDate(cal, d) && Serial(cal, d) == March21(cal, year) + days
  {
    assert DaysBeforeMonth(0) == 0 && DaysBeforeMonth(1) == 31;
  }

  /** Lines 100-118: a local date for `mktime`, or the number of days. */
  method Report(ghost cal: Calendar, year: Int64, easter: int, gm: bool) returns (r: EasterResult)
    requires gm ==> year >= 1 && 1 <= easter <= 35 && IsEaster(cal, year, easter)
    ensures !gm ==> r == Days(easter)
    ensures gm ==> r.LocalDate? && IsEasterDate(cal, Date(year, r.tmMon + 1, r.tmMday))
  {
    if gm {
      MarchAprilSplit(cal, year, easter);
      if easter < 11 {
        r := LocalDate(2, easter + 21);
      } else {
        r := LocalDate(3, easter - 10);
      }
    } else {
      r := Days(easter);
    }
  }

  /** Lines 65-73: dominical number and uncorrected full moon by the Julian rule. */
  method JulianNumbers(year: Int64, golden: int) returns (dom: int, pfm: int)
    requires SumsFit(year) && golden == Golden(year)
    ensures pfm == RawMoon(golden, Correction(Julian, year))
    ensures dom == Dominical(Julian, year)
  {
    dom := Mod(year + Div(year, 4) + 5, 7);
    if dom < 0 {
      dom := dom + 7;
    }
    pfm := Mod(3 - 11 * golden - 7, 30);
    if pfm < 0 {
      pfm := pfm + 30;
    }
    TruncatedResidue(year + Div(year, 4) + 5, 7, dom);
    TruncatedResidue(3 - 11 * golden - 7, 30, pfm);
  }

  /** Lines 75-86: the same by the Gregorian rule. */
  method GregorianNumbers(year: Int64, golden: int) returns (dom: int, pfm: int)
    requires SumsFit(year) && golden == Golden(year)
    ensures pfm == RawMoon(golden, Correction(Gregorian, year))
    ensures dom == Dominical(Gregorian, year)
  {
    dom := Mod(year + Div(year, 4) - Div(year, 100) + Div(year, 400), 7);
    if dom < 0 {
      dom := dom + 7;
    }
    var solar := Div(year - 1600, 100) - Div(year - 1600, 400);
    var lunar := Div(Div(year - 1400, 100) * 8, 25);
    pfm := Mod(3 - 11 * golden + solar - lunar, 30);
    if pfm < 0 {
      pfm := pfm + 30;
    }
    TruncatedResidue(year + Div(year, 4) - Div(year, 100) + Div(year, 400), 7, dom);
    TruncatedResidue(3 - 11 * golden + solar - lunar, 30, pfm);
  }

  /** What the dominical number calls the first Sunday after the full moon. */
  predicate FirstAfterMoon(cal: Calendar, year: int, days: int) {
    && PaschalMoon(cal, year) < days <= PaschalMoon(cal, year) + 7
    && (days + Dominical(cal, year) - 5) % 7 == 0
  }

  /** From year 1 on that is Easter: what the dominical number calls a Sunday is one
      by the day count. */
  lemma FirstAfterMoonIsEaster(cal: Calendar, year: int, days: int)
    requires year >= 1
    ensures FirstAfterMoon(cal, year, days) <==> IsEaster(cal, year, days)
  {
    DominicalFindsSundays(cal, year, days);
  }

  lemma OffsetIsFirst(pfm: int, dom: int, tmp: int)
    requires 0 <= tmp < 7 && (tmp - (4 - pfm - dom)) % 7 == 0
    ensures pfm < pfm + tmp + 1 <= pfm + 7 && (pfm + tmp + 1 + dom - 5) % 7 == 0
  {
  }

  /** Lines 93-98: the first such Sunday after the full moon. */
  method SundayAfter(pfm: int, dom: int) returns (easter: int)
    ensures pfm < easter <= pfm + 7 && (easter + dom - 5) % 7 == 0
  {
    var tmp := Mod(4 - pfm - dom, 7);
    if tmp < 0 {
      tmp := tmp + 7;
    }
    TruncatedResidue(4 - pfm - dom, 7, tmp);
    easter := pfm + tmp + 1;
    OffsetIsFirst(pfm, dom, tmp);
  }

  /** Lines 89-98: corrected full moon, and the days after 21 March. */
  method EasterDays(ghost cal: Calendar, year: Int64, golden: int, dom: int, rawMoon: int) returns (easter: int)
    requires golden == Golden(year) && rawMoon == RawMoon(golden, Correction(cal, year)) && dom == Dominical(cal, year)
    ensures 1 <= easter <= 35 && FirstAfterMoon(cal, year, easter)
    ensures year >= 1 ==> IsEaster(cal, year, easter)
  {
    var pfm := rawMoon;
    if pfm == 29 || (pfm == 28 && golden > 11) {
      pfm := pfm - 1;
    }
    easter := SundayAfter(pfm, dom);
    if year >= 1 {
      FirstAfterMoonIsEaster(cal, year, easter);
    }
  }

  method CalEaster(year: Int64, choice: Int64, gm: bool) returns (r: EasterResult)
    requires SumsFit(year)
    ensures r == OutOfRange <==> gm && (year < 1970 || year > 2037)
    ensures !gm ==> r.Days? && 1 <= r.days <= 35 && FirstAfterMoon(RuleOf(year, choice), year, r.days)
    ensures !gm && year >= 1 ==> IsEaster(RuleOf(year, choice), year, r.days)
    ensures gm && r != OutOfRange ==>
              r.LocalDate? && IsEasterDate(RuleOf(year, choice), Date(year, r.tmMon + 1, r.tmMday))
  {
    if gm && (year < 1970 || year > 2037) {
      return OutOfRange;
    }
    var golden := Mod(year, 19) + 1;
    var dom, pfm;
    ghost var cal := RuleOf(year, choice);

    if || (year <= 1582 && choice != CAL_EASTER_ALWAYS_GREGORIAN)
       || (year >= 1583 && year <= 1752 && choice != CAL_EASTER_ROMAN && choice != CAL_EASTER_ALWAYS_GREGORIAN)
       || choice == CAL_EASTER_ALWAYS_JULIAN {
      dom, pfm := JulianNumbers(year, golden);
    } else {
      dom, pfm := GregorianNumbers(year, golden);
    }

    var easter := EasterDays(cal, year, golden, dom, pfm);
    r := Report(cal, year, easter, gm);
  }

  /** Adding the divisor to a negative remainder gives the residue. */
  lemma TruncatedResidue(n: int, k: int, r: int)
    requires k > 0 && r == (if Mod(n, k) < 0 then Mod(n, k) + k else Mod(n, k))
    ensures 0 <= r < k && r == n % k && (r - n) % k == 0
  {
    if n < 0 {
      var q, s := (-n) / k, (-n) % k;
      assert n == k * (if s == 0 then -q else -q - 1) + r;
      Division(n, k, if s == 0 then -q else -q - 1, r);
      Division(r - n, k, if s == 0 then q else q + 1, 0);
    } else {
      assert n == k * (n / k) + n % k;
      assert r - n == k * -(n / k);
      Division(r - n, k, -(n / k), 0);
    }
  }

  /** The number of the week, counted by Sundays, in which a full moon falls. */
  function Week(moon: int, dominical: int): int {
    (moon + dominical - 5) / 7
  }

  /** The Sunday after that week. */
  lemma EasterFromWeek(moon: int, dominical: int, days: int)
    ensures moon < days <= moon + 7 && (days + dominical - 5) % 7 == 0
            <==> days == 7 * Week(moon, dominical) + 12 - dominical
  {
    var n := days + dominical - 5;
    var q, r := Week(moon, dominical), (moon + dominical - 5) % 7;
    assert moon + dominical - 5 == 7 * q + r;
    assert n == 7 * (n / 7) + n % 7;
  }

  /** Easter in closed form. */
  lemma EasterInClosedForm(cal: Calendar, year: int, days: int)
    requires year >= 1
    ensures IsEaster(cal, year, days)
            <==> days == 7 * Week(PaschalMoon(cal, year), Dominical(cal, year)) + 12 - Dominical(cal, year)
  {
    FirstAfterMoonIsEaster(cal, year, days);
    EasterFromWeek(PaschalMoon(cal, year), Dominical(cal, year), days);
  }

  /** There is one Easter a year, and it lies 1 to 35 days after 21 March. */
  lemma EasterIsUnique(cal: Calendar, year: int, days: int, other: int)
    requires year >= 1 && IsEaster(cal, year, days)
    ensures 1 <= days <= 35
    ensures IsEaster(cal, year, other) <==> other == days
  {
    MoonRange(Golden(year), Correction(cal, year));
    EasterInClosedForm(cal, year, days);
    EasterInClosedForm(cal, year, other);
  }

  lemma MoonRange(golden: int, correction: int)
    ensures 0 <= Moon(golden, correction) <= 28
  {
  }

  /** Within one correction the 19 golden numbers have 19 different full moons:
      that is what moving 29 to 28, and 28 to 27 when the golden number exceeds
      11, achieves. */
  lemma DistinctMoons(g: int, h: int, correction: int)
    requires 1 <= g <= 19 && 1 <= h <= 19
    ensures Moon(g, correction) == Moon(h, correction) <==> g == h
  {
    var a, b := 3 - 11 * g + correction, 3 - 11 * h + correction;
    assert a == 30 * (a / 30) + RawMoon(g, correction);
    assert b == 30 * (b / 30) + RawMoon(h, correction);
  }

  /** For any two years of the Christian era with the same correction. */
  lemma DistinctPaschalMoons(cal: Calendar, year: int, other: int)
    requires year >= 1 && other >= 1
    requires Correction(cal, year) == Correction(cal, other)
    ensures PaschalMoon(cal, year) == PaschalMoon(cal, other) <==> Golden(year) == Golden(other)
  {
    DistinctMoons(Golden(year), Golden(other), Correction(cal, year));
  }

  /** A moon is moved from 29 always, and from 28 exactly when 28 is the place to which
      another golden number's 29 moves. */
  lemma MovedWhenTaken(g: int, correction: int)
    requires 1 <= g <= 19
    ensures Moon(g, correction) != RawMoon(g, correction)
            <==> || RawMoon(g, correction) == 29
                 || (RawMoon(g, correction) == 28 && exists h :: 1 <= h <= 19 && RawMoon(h, correction) == 29)
    ensures Moon(g, correction) != RawMoon(g, correction) ==> Moon(g, correction) == RawMoon(g, correction) - 1
  {
    var a := 3 - 11 * g + correction;
    if RawMoon(g, correction) == 28 {
      if g > 11 {
        SameResidue(3 - 11 * (g - 11) + correction, a + 1, 30, 4);
        Division(a + 1, 30, a / 30, 29);
        assert RawMoon(g - 11, correction) == 29;
      } else {
        forall h | 1 <= h <= 19
          ensures RawMoon(h, correction) != 29
        {
          NotNextTo28(g, h, correction);
        }
      }
    }
  }

  lemma NotNextTo28(g: int, h: int, correction: int)
    requires 1 <= g <= 11 && 1 <= h <= 19 && RawMoon(g, correction) == 28
    ensures RawMoon(h, correction) != 29
  {
    var a, b := 3 - 11 * g + correction, 3 - 11 * h + correction;
    assert a == 30 * (a / 30) + 28;
    assert b == 30 * (b / 30) + RawMoon(h, correction);
    ElevenInverse(g - h, b / 30 - a / 30);
  }

  lemma ElevenInverse(d: int, t: int)
    requires -19 < d < 11
    ensures 11 * d != 30 * t + 1
  {
  }

  /** In the Julian calendar the moon follows the classical rule of the 19-year cycle. */
  lemma JulianMoonByCycle(year: int)
    requires year >= 1
    ensures PaschalMoon(Julian, year) == (19 * (year % 19) + 15) % 30
  {
    var a := year % 19;
    SameResidue(3 - 11 * (a + 1) - 7, 19 * a + 15, 30, -(a + 1));
    JulianPlaces(a);
  }

  /** No golden number has a Julian moon that would have to be moved. */
  lemma JulianPlaces(a: int)
    requires 0 <= a < 19
    ensures (19 * a + 15) % 30 != 29 && ((19 * a + 15) % 30 == 28 ==> a < 11)
  {
  }

  /** The number of a century in the classical rule. */
  function CenturyNumber(c: int): int {
    (15 + c - c / 4 - (8 * c + 13) / 25) % 30
  }

  /** In the Gregorian calendar, before it is moved, it follows the classical rule with
      the number of the century, except where the divisions truncate numbers below the
      years 1600 and 1400. */
  lemma GregorianMoonByCycle(year: int)
    requires year >= 1
    ensures RawMoon(Golden(year), Correction(Gregorian, year)) == (19 * (year % 19) + CenturyNumber(year / 100)) % 30
            <==> year >= 1401 && year != 1500
  {
    var c, y := YearDigits(year);
    var other, a := year + GREGORIAN_CYCLE, year % 19;
    SameResidue(other, year, 19, 300000);
    CorrectionCycle(year);
    MoonByCentury(c + 57000, y, a);
    SameNumber(c);
    SameMoon(Golden(year), Correction(Gregorian, year), Correction(Gregorian, other));
  }

  lemma SameMoon(golden: int, k: int, l: int)
    ensures RawMoon(golden, k) == RawMoon(golden, l) <==> (l - k) % 30 == 0
  {
    var a, b := 3 - 11 * golden + k, 3 - 11 * golden + l;
    assert a == 30 * (a / 30) + a % 30 && b == 30 * (b / 30) + b % 30;
    if a % 30 == b % 30 {
      Division(l - k, 30, b / 30 - a / 30, 0);
    } else {
      assert l - k == 30 * ((l - k) / 30) + (l - k) % 30;
    }
  }

  lemma SameNumber(c: int)
    ensures CenturyNumber(c + 57000) == CenturyNumber(c)
  {
    Division(8 * (c + 57000) + 13, 25, (8 * c + 13) / 25 + 18240, (8 * c + 13) % 25);
    Division(c + 57000, 4, c / 4 + 14250, c % 4);
    var n := 15 + c - c / 4 - (8 * c + 13) / 25;
    SameResidue(n + 24510, n, 30, 817);
  }

  lemma MoonByCentury(c: int, y: int, a: int)
    requires c >= 16 && 0 <= y < 100
    ensures RawMoon(a + 1, Correction(Gregorian, c * 100 + y)) == (19 * a + CenturyNumber(c)) % 30
  {
    var n := 15 + c - c / 4 - (8 * c + 13) / 25;
    CenturyCorrection(c, y);
    Division((c - 14) * 8, 25, (8 * c + 13) / 25 - 5, (8 * c + 13) % 25);
    SameResidue(3 - 11 * (a + 1) + (n - 22), 19 * a + n % 30, 30, n / 30 - a - 1);
  }

  /** The rule of each choice (calendar/php_calendar.h:43-46): the Gregorian one
      from 1753 on, but for choice 1 from 1583 on, for choice 2 always, for choice 3 never. */
  lemma RuleOfChoice(year: int, choice: int)
    ensures choice !in {1, 2, 3} ==> (RuleOf(year, choice).Gregorian? <==> year > 1752)
    ensures RuleOf(year, 1).Gregorian? <==> year > 1582
    ensures RuleOf(year, 2).Gregorian? && RuleOf(year, 3).Julian?
  {
  }

  /** Known Easters. */
  lemma KnownEasters()
    ensures IsEaster(RuleOf(1492, 0), 1492, 32) && IsEaster(RuleOf(1913, 0), 1913, 2)
    ensures IsEaster(RuleOf(1999, 0), 1999, 14) && IsEaster(RuleOf(2000, 0), 2000, 33)
  {
    ByMoon(Julian, 1492, 25, 1, 32);
    ByMoon(Gregorian, 1913, 1, 3, 2);
    ByMoon(Gregorian, 1999, 10, 5, 14);
    ByMoon(Gregorian, 2000, 28, 0, 33);
  }

  /** On both sides of the two changes of rule. */
  lemma EastersByRule()
    ensures IsEaster(RuleOf(1752, 0), 1752, 8) && IsEaster(RuleOf(1753, 0), 1753, 32)
    ensures IsEaster(RuleOf(1582, 1), 1582, 25) && IsEaster(RuleOf(1583, 1), 1583, 20)
  {
    ByMoon(Julian, 1752, 1, 4, 8);
    MoonOf1753();
    ByMoon(Gregorian, 1753, 28, 1, 32);
    ByMoon(Julian, 1582, 20, 1, 25);
    MoonOf1583();
    ByMoon(Gregorian, 1583, 16, 6, 20);
  }

  lemma MoonOf1753()
    ensures PaschalMoon(Gregorian, 1753) == 28 && Dominical(Gregorian, 1753) == 1
  {
    CenturyCorrection(17, 53);
  }

  lemma MoonOf1583()
    ensures PaschalMoon(Gregorian, 1583) == 16 && Dominical(Gregorian, 1583) == 6
  {
    EarlyCorrection(15, 83);
  }

  lemma ByMoon(cal: Calendar, year: int, moon: int, dominical: int, days: int)
    requires year >= 1 && PaschalMoon(cal, year) == moon && Dominical(cal, year) == dominical
    requires moon < days <= moon + 7 && (days + dominical - 5) % 7 == 0
    ensures IsEaster(cal, year, days)
  {
    FirstAfterMoonIsEaster(cal, year, days);
  }

  const JULIAN_CYCLE := 532
  const GREGORIAN_CYCLE := 5700000

  /** Same moon and same dominical number: same Easter. */
  lemma SameEaster(cal: Calendar, year: int, other: int, days: int)
    requires year >= 1 && other >= 1
    requires PaschalMoon(cal, year) == PaschalMoon(cal, other)
    requires Dominical(cal, year) == Dominical(cal, other)
    ensures IsEaster(cal, year, days) <==> IsEaster(cal, other, days)
  {
    FirstAfterMoonIsEaster(cal, year, days);
    FirstAfterMoonIsEaster(cal, other, days);
  }

  /** The Julian Easter repeats every 532 years. */
  lemma JulianEasterCycle(year: int, days: int)
    requires year >= 1
    ensures IsEaster(Julian, year + JULIAN_CYCLE, days) <==> IsEaster(Julian, year, days)
  {
    SameResidue(year + 532, year, 19, 28);
    SameResidue(year + 532 + (year + 532) / 4 + 5, year + year / 4 + 5, 7, 95);
    SameEaster(Julian, year, year + JULIAN_CYCLE, days);
  }

  /** Far from the truncated years the correction only depends on the century. */
  lemma CenturyCorrection(c: int, y: int)
    requires c >= 16 && 0 <= y < 100
    ensures Correction(Gregorian, c * 100 + y) == (c - 16) - (c / 4 - 4) - (c - 14) * 8 / 25
  {
    Division(c * 100 + y - 1600, 100, c - 16, y);
    Division(c * 100 + y - 1600, 400, c / 4 - 4, c % 4 * 100 + y);
    Division(c * 100 + y - 1400, 100, c - 14, y);
  }

  /** Division of a negative number of years by 100, truncated. */
  lemma TruncatedCenturies(c: int, y: int, base: int)
    requires c < base && 0 <= y < 100
    ensures Div(c * 100 + y - base * 100, 100) == c - base + (if y > 0 then 1 else 0)
  {
    Division(base * 100 - c * 100 - y, 100, if y > 0 then base - c - 1 else base - c, if y > 0 then 100 - y else 0);
  }

  lemma TruncatedQuadcenturies(c: int, y: int)
    requires c < 16 && 0 <= y < 100
    ensures Div(c * 100 + y - 1600, 400) == -((16 - c - (if y > 0 then 1 else 0)) / 4)
  {
    var n := 16 - c - (if y > 0 then 1 else 0);
    var rest := if y > 0 then 100 - y else 0;
    Division(1600 - c * 100 - y, 400, n / 4, n % 4 * 100 + rest);
  }

  lemma EarlyCorrection(c: int, y: int)
    requires 0 <= c < 16 && 0 <= y < 100
    ensures var up := if y > 0 then 1 else 0;
            Correction(Gregorian, c * 100 + y)
            == (c - 16 + up) + (16 - c - up) / 4 - (if c >= 14 then 0 else -((14 - c - up) * 8 / 25))
  {
    TruncatedCenturies(c, y, 16);
    TruncatedQuadcenturies(c, y);
    if c < 14 {
      TruncatedCenturies(c, y, 14);
    } else {
      Division(c * 100 + y - 1400, 100, c - 14, y);
    }
  }

  /** The Gregorian correction repeats, up to whole lunar cycles of 30, except
      where its divisions truncate numbers below the years 1600 and 1400. */
  lemma CorrectionCycle(year: int)
    requires year >= 1
    ensures (Correction(Gregorian, year + GREGORIAN_CYCLE) - Correction(Gregorian, year)) % 30 == 0
            <==> year >= 1401 && year != 1500
  {
    var c, y := YearDigits(year);
    CenturyCorrection(c + 57000, y);
    if c >= 16 {
      CenturyCorrection(c, y);
      Division((c + 57000 - 14) * 8, 25, (c - 14) * 8 / 25 + 18240, (c - 14) * 8 % 25);
    } else {
      EarlyCorrection(c, y);
      EarlyCycle(c, y);
    }
  }

  lemma EarlyCycle(c: int, y: int)
    requires 0 <= c < 16 && 0 <= y < 100
    ensures var up := if y > 0 then 1 else 0;
            var early := (c - 16 + up) + (16 - c - up) / 4 - (if c >= 14 then 0 else -((14 - c - up) * 8 / 25));
            var late := (c + 56984) - ((c + 57000) / 4 - 4) - (c + 56986) * 8 / 25;
            (late - early) % 30 == 0 <==> c * 100 + y >= 1401 && c * 100 + y != 1500
  {
    if c < 8 {
      EarlyCycleBefore800(c, y > 0);
    } else {
      EarlyCycleFrom800(c, y > 0);
    }
  }

  /** The correction of an early century, inside it or in its first year. */
  function EarlyOf(c: int, inside: bool): int {
    var up := if inside then 1 else 0;
    (c - 16 + up) + (16 - c - up) / 4 - (if c >= 14 then 0 else -((14 - c - up) * 8 / 25))
  }

  function LateOf(c: int): int {
    (c + 56984) - ((c + 57000) / 4 - 4) - (c + 56986) * 8 / 25
  }

  lemma EarlyCycleBefore800(c: int, inside: bool)
    requires 0 <= c < 8
    ensures (LateOf(c) - EarlyOf(c, inside)) % 30 != 0
  {
    assert c == 0 || c == 1 || c == 2 || c == 3 || c == 4 || c == 5 || c == 6 || c == 7;
  }

  lemma EarlyCycleFrom800(c: int, inside: bool)
    requires 8 <= c < 16
    ensures (LateOf(c) - EarlyOf(c, inside)) % 30 == 0 <==> inside && c >= 14
  {
    assert c == 8 || c == 9 || c == 10 || c == 11 || c == 12 || c == 13 || c == 14 || c == 15;
  }

  lemma GregorianMoonCycle(year: int)
    requires year >= 1401 && year != 1500
    ensures PaschalMoon(Gregorian, year + GREGORIAN_CYCLE) == PaschalMoon(Gregorian, year)
  {
    var other := year + GREGORIAN_CYCLE;
    CorrectionCycle(year);
    SameResidue(other, year, 19, 300000);
    var k, l := Correction(Gregorian, other), Correction(Gregorian, year);
    var t := (k - l) / 30;
    assert k == l + 30 * t;
    SameResidue(3 - 11 * Golden(year) + k, 3 - 11 * Golden(year) + l, 30, t);
  }

  lemma GregorianDominicalCycle(year: int)
    requires year >= 1
    ensures Dominical(Gregorian, year + GREGORIAN_CYCLE) == Dominical(Gregorian, year)
  {
    var other := year + GREGORIAN_CYCLE;
    Division(other, 4, year / 4 + 1425000, year % 4);
    Division(other, 100, year / 100 + 57000, year % 100);
    Division(other, 400, year / 400 + 14250, year % 400);
    SameResidue(other + other / 4 - other / 100 + other / 400, year + year / 4 - year / 100 + year / 400, 7, 1011750);
  }

  /** `k` days after 21 March lies behind one of two moons and not behind the other. */
  predicate Between(m: int, n: int, k: int) {
    m < k <= n || n < k <= m
  }

  /** No Sunday of the year separates two moons. */
  ghost predicate NoSundayBetween(cal: Calendar, year: int, m: int, n: int) {
    forall k :: Between(m, n, k) ==> !IsSunday(March21(cal, year) + k)
  }

  lemma SundayBetween(m: int, n: int, dominical: int) returns (k: int)
    requires Week(m, dominical) < Week(n, dominical)
    ensures m < k <= n && (k + dominical - 5) % 7 == 0
  {
    var p, q := Week(m, dominical), Week(n, dominical);
    k := 7 * q + 5 - dominical;
    Division(k + dominical - 5, 7, q, 0);
    assert m + dominical - 5 == 7 * p + (m + dominical - 5) % 7;
    assert n + dominical - 5 == 7 * q + (n + dominical - 5) % 7;
  }

  lemma WithinWeek(m: int, n: int, k: int, dominical: int)
    requires Week(m, dominical) == Week(n, dominical) && Between(m, n, k)
    ensures (k + dominical - 5) % 7 != 0
  {
    var q := Week(m, dominical);
    assert 7 * q <= m + dominical - 5 < 7 * q + 7 && 7 * q <= n + dominical - 5 < 7 * q + 7;
  }

  /** Two moons fall into one week exactly if no Sunday separates them. */
  lemma OneWeek(cal: Calendar, year: int, m: int, n: int)
    requires year >= 1
    ensures Week(m, Dominical(cal, year)) == Week(n, Dominical(cal, year)) <==> NoSundayBetween(cal, year, m, n)
  {
    var dom := Dominical(cal, year);
    if Week(m, dom) == Week(n, dom) {
      forall k | Between(m, n, k)
        ensures !IsSunday(March21(cal, year) + k)
      {
        WithinWeek(m, n, k, dom);
        DominicalFindsSundays(cal, year, k);
      }
    } else {
      var k;
      if Week(m, dom) < Week(n, dom) {
        k := SundayBetween(m, n, dom);
      } else {
        k := SundayBetween(n, m, dom);
      }
      DominicalFindsSundays(cal, year, k);
      assert Between(m, n, k);
    }
  }

  /** After 5700000 years the Gregorian Easter is the same exactly when no Sunday of the
      year lies between its own full moon and the later year's. */
  lemma GregorianEasterRepeats(year: int)
    requires year >= 1
    ensures var m, n := PaschalMoon(Gregorian, year), PaschalMoon(Gregorian, year + GREGORIAN_CYCLE);
            (forall days :: IsEaster(Gregorian, year + GREGORIAN_CYCLE, days) <==> IsEaster(Gregorian, year, days))
            <==> NoSundayBetween(Gregorian, year, m, n)
  {
    var other, dom := year + GREGORIAN_CYCLE, Dominical(Gregorian, year);
    var m, n := PaschalMoon(Gregorian, year), PaschalMoon(Gregorian, other);
    GregorianDominicalCycle(year);
    forall days
      ensures IsEaster(Gregorian, year, days) <==> days == 7 * Week(m, dom) + 12 - dom
      ensures IsEaster(Gregorian, other, days) <==> days == 7 * Week(n, dom) + 12 - dom
    {
      EasterInClosedForm(Gregorian, year, days);
      EasterInClosedForm(Gregorian, other, days);
    }
    assert IsEaster(Gregorian, year, 7 * Week(m, dom) + 12 - dom);
    OneWeek(Gregorian, year, m, n);
  }

  /** So it repeats every 5700000 years from 1600 on, and in the years of 1401-1599
      other than 1500. */
  lemma GregorianEasterCycle(year: int, days: int)
    requires year >= 1401 && year != 1500
    ensures IsEaster(Gregorian, year + GREGORIAN_CYCLE, days) <==> IsEaster(Gregorian, year, days)
  {
    GregorianMoonCycle(year);
    OneWeek(Gregorian, year, PaschalMoon(Gregorian, year), PaschalMoon(Gregorian, year));
    GregorianEasterRepeats(year);
  }

  /** Elsewhere truncation can move Easter: under "always Gregorian" the year 1500
      and the year 5701500 disagree. */
  lemma TruncationBreaksCycle()
    ensures exists days :: IsEaster(Gregorian, 1500, days) && !IsEaster(Gregorian, 1500 + GREGORIAN_CYCLE, days)
  {
    MoonsOf1500();
    EasterInClosedForm(Gregorian, 1500, 4);
    GregorianDominicalCycle(1500);
    EasterInClosedForm(Gregorian, 1500 + GREGORIAN_CYCLE, 4);
    assert IsEaster(Gregorian, 1500, 4);
  }

  lemma MoonsOf1500()
    ensures PaschalMoon(Gregorian, 1500) == 3 && PaschalMoon(Gregorian, 1500 + GREGORIAN_CYCLE) == 4
    ensures Dominical(Gregorian, 1500) == 1
  {
    EarlyCorrection(15, 0);
    CenturyCorrection(57015, 0);
    assert Correction(Gregorian, 1500) == -1 && Correction(Gregorian, 5701500) == 24510;
    assert Golden(1500) == 19 && Golden(5701500) == 19;
    Division(-207, 30, -7, 3);
    Division(24304, 30, 810, 4);
  }
}
