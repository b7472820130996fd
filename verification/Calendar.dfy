/** What a valid SGF date is, by the days that the months of a year have. */
module Calendar {
  import opened Dates

  predicate IsLeap(year: int) {
    year % 400 == 0 || (year % 4 == 0 && year % 100 != 0)
  }

  /** Long and short months take turns, and start again with a long one in August. */
  function DaysInMonth(year: int, month: int): int {
    if month == 2 then if IsLeap(year) then 29 else 28 else 30 + (month + month / 8) % 2
  }

  function DaysUpTo(year: int, month: nat): int {
    if month == 0 then 0 else DaysUpTo(year, month - 1) + DaysInMonth(year, month)
  }

  /** A year has 365 days, a leap year 366. */
  lemma DaysInYear(year: int)
    ensures DaysUpTo(year, 12) == if IsLeap(year) then 366 else 365
  {
    assert DaysUpTo(year, 2) == DaysUpTo(year, 1) + DaysInMonth(year, 2) && DaysUpTo(year, 1) == 31;
    assert DaysUpTo(year, 4) == DaysUpTo(year, 2) + 61;
    assert DaysUpTo(year, 6) == DaysUpTo(year, 4) + 61;
    assert DaysUpTo(year, 8) == DaysUpTo(year, 6) + 62;
    assert DaysUpTo(year, 10) == DaysUpTo(year, 8) + 61;
    assert DaysUpTo(year, 12) == DaysUpTo(year, 10) + 61;
  }

  /**
   * Main result on valid dates: a month and a day of it, or a month alone, or a year alone, and a shortcut of a day
   * alone; the year may be missing, and then the twenty-ninth of February is a day.
   */
  lemma ValidIff(d: SgfcDate)
    ensures d.IsValidSgfDate() <==>
            && 0 <= d.year <= 9999 && 0 <= d.month <= 12 && 0 <= d.day
            && (d.month > 0 ==> d.day <= DaysInMonth(d.year, d.month))
            && (d.month == 0 && d.year > 0 ==> d.day == 0)
            && (d.month == 0 && d.year == 0 ==> 1 <= d.day <= 31)
  {
  }
}
