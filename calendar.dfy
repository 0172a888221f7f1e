/** Proleptic Gregorian day numbers, as ECMAScript's MakeDay computes them,
    and the weekday numbering of `Date.prototype.getDay` (0 is Sunday,
    6 is Saturday), taken in UTC. */
module Calendar {

  predicate IsLeapYear(y: int) {
    y % 4 == 0 && (y % 100 != 0 || y % 400 == 0)
  }

  function DaysInMonth(y: int, m: int): (n: int)
    requires 1 <= m <= 12
    ensures 28 <= n <= 31
  {
    if m == 2 then (if IsLeapYear(y) then 29 else 28)
    else if m == 4 || m == 6 || m == 9 || m == 11 then 30
    else 31
  }

  /** Days from 1970-01-01 to year `y`, month `m`, day `d`. A day past the
      end of its month simply counts on into the next month. The year is
      counted from March, so that February, the only month of varying
      length, ends it. */
  function DaysFromCivil(y: int, m: int, d: int): int
    requires 1 <= m <= 12
  {
    var y' := if m <= 2 then y - 1 else y;
    var era := y' / 400;
    var yoe := y' - era * 400;
    var mp := if m > 2 then m - 3 else m + 9;
    var doy := (153 * mp + 2) / 5 + d - 1;
    var doe := yoe * 365 + yoe / 4 - yoe / 100 + doy;
    era * 146097 + doe - 719468
  }

  /** `getDay()` of the instant that starts day number `days`. */
  function WeekDay(days: int): (w: int)
    ensures 0 <= w < 7
  {
    (days + 4) % 7
  }

  /** The weekday advances by one, Saturday wrapping to Sunday, each day. */
  lemma NextWeekDay(days: int)
    ensures WeekDay(days + 1) == (WeekDay(days) + 1) % 7
  {
  }

  /** Day numbering starts on Thursday 1 January 1970. */
  lemma Epoch()
    ensures DaysFromCivil(1970, 1, 1) == 0
    ensures WeekDay(DaysFromCivil(1970, 1, 1)) == 4
  {
  }

  /** Within a month, consecutive days have consecutive numbers. */
  lemma NextDay(y: int, m: int, d: int)
    requires 1 <= m <= 12
    ensures DaysFromCivil(y, m, d + 1) == DaysFromCivil(y, m, d) + 1
  {
  }

  /** A month begins where the previous month, counted with its Gregorian
      length, ends: the day numbering agrees with the calendar. */
  lemma NextMonth(y: int, m: int)
    requires 1 <= m < 12
    ensures DaysFromCivil(y, m + 1, 1) == DaysFromCivil(y, m, 1) + DaysInMonth(y, m)
  {
    if m == 2 {
      MarchFollowsFebruary(y);
    }
  }

  /** The year turns over after the 31 days of December. */
  lemma NextYear(y: int)
    ensures DaysFromCivil(y + 1, 1, 1) == DaysFromCivil(y, 12, 1) + 31
  {
  }

  /** Days in the first `yoe` years of a 400-year era, each year counted
      from March. */
  function EraDays(yoe: int): int {
    yoe * 365 + yoe / 4 - yoe / 100
  }

  lemma EraYearLength(yoe: int)
    requires 0 <= yoe < 399
    ensures EraDays(yoe + 1) - EraDays(yoe) ==
            365 + (if (yoe + 1) % 4 == 0 then 1 else 0) - (if (yoe + 1) % 100 == 0 then 1 else 0)
  {
    var q4, q100 := yoe / 4, yoe / 100;
    assert yoe == 4 * q4 + yoe % 4;
    assert yoe == 100 * q100 + yoe % 100;
    if (yoe + 1) % 4 == 0 {
      assert (yoe + 1) / 4 == q4 + 1;
    } else {
      assert (yoe + 1) / 4 == q4;
    }
    if (yoe + 1) % 100 == 0 {
      assert (yoe + 1) / 100 == q100 + 1;
    } else {
      assert (yoe + 1) / 100 == q100;
    }
  }

  lemma FebruaryStart(y: int)
    ensures DaysFromCivil(y, 2, 1) == ((y - 1) / 400) * 146097 + EraDays((y - 1) % 400) + 337 - 719468
  {
  }

  lemma MarchStart(y: int)
    ensures DaysFromCivil(y, 3, 1) == (y / 400) * 146097 + EraDays(y % 400) - 719468
  {
  }

  lemma EraStep(y: int)
    ensures (y - 1) % 400 == 399 ==> y / 400 == (y - 1) / 400 + 1 && y % 400 == 0
    ensures (y - 1) % 400 != 399 ==> y / 400 == (y - 1) / 400 && y % 400 == (y - 1) % 400 + 1
  {
  }

  lemma LeapFromYoe(y: int)
    ensures IsLeapYear(y) <==> y % 400 == 0 || ((y % 400) % 4 == 0 && (y % 400) % 100 != 0)
  {
    FourOfEra(y);
    HundredOfEra(y);
  }

  /** The remainder by 4 of a year is that of its year of the era. */
  lemma FourOfEra(y: int)
    ensures y % 4 == (y % 400) % 4
  {
    var yoe := y % 400;
    assert y == 4 * (100 * (y / 400) + yoe / 4) + yoe % 4;
  }

  /** The remainder by 100 of a year is that of its year of the era. */
  lemma HundredOfEra(y: int)
    ensures y % 100 == (y % 400) % 100
  {
    var yoe := y % 400;
    assert y == 100 * (4 * (y / 400) + yoe / 100) + yoe % 100;
  }

  lemma MarchFollowsFebruary(y: int)
    ensures DaysFromCivil(y, 3, 1) == DaysFromCivil(y, 2, 1) + DaysInMonth(y, 2)
  {
    FebruaryStart(y);
    MarchStart(y);
    EraStep(y);
    LeapFromYoe(y);
    if (y - 1) % 400 == 399 {
      EraTurn(y);
    } else {
      EraYearLength((y - 1) % 400);
    }
  }

  /** The year of the era that ends an era is the 97th leap year of 400;
      the next era starts afresh. */
  lemma EraTurn(y: int)
    requires (y - 1) % 400 == 399 && y % 400 == 0 && y / 400 == (y - 1) / 400 + 1
    ensures (y / 400) * 146097 + EraDays(y % 400) == ((y - 1) / 400) * 146097 + EraDays((y - 1) % 400) + 366
  {
    assert EraDays(399) == 145635 + 99 - 3;
    assert EraDays(0) == 0;
  }

}
