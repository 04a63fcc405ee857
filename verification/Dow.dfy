/** calendar/dow.c: the day of the week of a serial day number. */
module Dow {
  import opened CInt

  const SUNDAY := 0
  const MONDAY := 1
  const THURSDAY := 4
  const FRIDAY := 5

  function DayOfWeek(sdn: Int64): int
    requires sdn < LONG_MAX  // sdn + 1 is a long
  {
    var dow := Mod(sdn + 1, 7);
    if dow >= 0 then dow else dow + 7
  }

  /** Weekdays run in order over all day numbers, negative ones included. */
  lemma WeekdaysInOrder(sdn: Int64)
    requires sdn < LONG_MAX - 1
    ensures 0 <= DayOfWeek(sdn) <= 6
    ensures DayOfWeek(sdn + 1) == (DayOfWeek(sdn) + 1) % 7
  {
    Congruence(sdn);
    Congruence(sdn + 1);
    var q := (sdn + 1) / 7;
    Division(sdn + 2, 7, if DayOfWeek(sdn) == 6 then q + 1 else q, (DayOfWeek(sdn) + 1) % 7);
  }

  /** The correction for negative remainders makes the result the residue modulo 7. */
  lemma Congruence(sdn: Int64)
    requires sdn < LONG_MAX
    ensures DayOfWeek(sdn) == (sdn + 1) % 7
  {
    if sdn + 1 < 0 {
      var q, r := (-(sdn + 1)) / 7, (-(sdn + 1)) % 7;
      Division(sdn + 1, 7, if r == 0 then -q else -q - 1, if r == 0 then 0 else 7 - r);
    }
  }
}
