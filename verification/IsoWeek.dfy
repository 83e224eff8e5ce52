/** ISO 8601 week dates: the closed formulas of tm_writer against the calendar. */
module IsoWeek {

  // ---------- The calendar ----------

  /** Days from 1 January of year 1, a Monday, to 1 January of the given year. */
  function DaysBefore(year: int): int
  {
    var y := year - 1;
    365 * y + y / 4 - y / 100 + y / 400
  }

  predicate Leap(year: int)
  {
    year % 4 == 0 && (year % 100 != 0 || year % 400 == 0)
  }

  function DaysIn(year: int): int
  {
    if Leap(year) then 366 else 365
  }

  /** The day count is the calendar's: every year adds its own length. */
  lemma YearLength(year: int)
    ensures DaysBefore(year + 1) == DaysBefore(year) + DaysIn(year)
  {
    var y := year - 1;
    NextMultiple(y, 4);
    NextMultiple(y, 100);
    NextMultiple(y, 400);
  }

  lemma NextMultiple(y: int, m: int)
    requires m > 0
    ensures (y + 1) / m == y / m + if (y + 1) % m == 0 then 1 else 0
  {
    var q, r := y / m, y % m;
    assert y == m * q + r;
    if r + 1 < m {
      QuotientIs(y + 1, m, q, r + 1);
    } else {
      assert m * (q + 1) == m * q + m;
      QuotientIs(y + 1, m, q + 1, 0);
    }
  }

  lemma QuotientIs(x: int, m: int, q: int, r: int)
    requires m > 0 && x == m * q + r && 0 <= r < m
    ensures x / m == q && x % m == r
  {
    var d := x / m - q;
    assert m * d == r - x % m;
    if d >= 1 {
      ProductAtLeast(m, d);
    } else if d <= -1 {
      ProductAtLeast(m, -d);
    }
  }

  lemma ProductAtLeast(m: int, d: int)
    requires m > 0 && d >= 1
    ensures m * d >= m && m * -d <= -m
  {
  }

  /** The Monday of week 1, the week with 4 January in it (section 3.2.2 of ISO 8601:2004). */
  function Week1Monday(year: int): int
  {
    var fourth := DaysBefore(year) + 3;
    fourth - fourth % 7
  }

  /** Weeks run from one week-1 Monday to the next. */
  function Weeks(year: int): int
  {
    (Week1Monday(year + 1) - Week1Monday(year)) / 7
  }

  /** day is the weekday-th day, Monday first, of the given week of a week-numbering year. */
  predicate IsWeekDate(day: int, year: int, week: int, weekday: int)
  {
    day == Week1Monday(year) + 7 * (week - 1) + (weekday - 1) && 1 <= week <= Weeks(year) && 1 <= weekday <= 7
  }

  lemma {:induction false} Week1MondayMonotone(a: int, b: int)
    requires a <= b
    ensures Week1Monday(a) + 364 * (b - a) <= Week1Monday(b)
    decreases b - a
  {
    if a < b {
      Week1MondayMonotone(a, b - 1);
      WeeksExact(b - 1);
    }
  }

  /** Every day has at most one week date. */
  lemma WeekDateUnique(day: int, y1: int, w1: int, d1: int, y2: int, w2: int, d2: int)
    requires IsWeekDate(day, y1, w1, d1) && IsWeekDate(day, y2, w2, d2)
    ensures y1 == y2 && w1 == w2 && d1 == d2
  {
    hide Week1Monday, Weeks;
    WeeksExact(y1);
    WeeksExact(y2);
    if y1 < y2 {
      Week1MondayMonotone(y1 + 1, y2);
    } else if y2 < y1 {
      Week1MondayMonotone(y2 + 1, y1);
    }
  }

  lemma WeeksExact(year: int)
    ensures Week1Monday(year + 1) == Week1Monday(year) + 7 * Weeks(year) && 52 <= Weeks(year) <= 53
    ensures Weeks(year) == 53 <==> DaysBefore(year) % 7 == 3 || DaysBefore(year + 1) % 7 == 4
  {
    hide DaysBefore;
    YearLength(year);
    MondayGap(DaysBefore(year), DaysIn(year));
  }

  lemma MondayGap(d: int, length: int)
    requires length == 365 || length == 366
    ensures var gap := (d + length + 3 - (d + length + 3) % 7) - (d + 3 - (d + 3) % 7);
            gap % 7 == 0 && (if d % 7 == 3 || (d + length) % 7 == 4 then gap == 371 else gap == 364)
  {
    var r := d % 7;
    assert (d + 3) % 7 == if r < 4 then r + 3 else r - 4;
    if length == 365 {
      assert (d + 365) % 7 == if r < 6 then r + 1 else 0;
      assert (d + 368) % 7 == if r < 3 then r + 4 else r - 3;
    } else {
      assert (d + 366) % 7 == if r < 5 then r + 2 else r - 5;
      assert (d + 369) % 7 == if r < 2 then r + 5 else r - 2;
    }
  }

  // ---------- The source's formulas ----------

  /** Integer division and remainder of C++, toward zero. */
  function Quotient(a: int, b: int): int
    requires b > 0
  {
    if a >= 0 then a / b else -((-a) / b)
  }

  function Remainder(a: int, b: int): int
    requires b > 0
  {
    if a >= 0 then a % b else -((-a) % b)
  }

  function Centuries(year: int): int
  {
    Remainder(year + Quotient(year, 4) - Quotient(year, 100) + Quotient(year, 400), 7)
  }

  function IsoYearWeeks(year: int): int
  {
    52 + if Centuries(year) == 4 || Centuries(year - 1) == 3 then 1 else 0
  }

  function IsoWeekNum(yday: int, wday: int): int
  {
    Quotient(yday + 11 - (if wday == 0 then 7 else wday), 7)
  }

  function IsoWeekYear(year: int, yday: int, wday: int): int
  {
    var w := IsoWeekNum(yday, wday);
    if w < 1 then year - 1 else if w > IsoYearWeeks(year) then year + 1 else year
  }

  function IsoWeekOfYear(year: int, yday: int, wday: int): int
  {
    var w := IsoWeekNum(yday, wday);
    if w < 1 then IsoYearWeeks(year - 1) else if w > IsoYearWeeks(year) then 1 else w
  }

  // ---------- Their meaning ----------

  /** For years from 1 on the truncated sum is the weekday of 1 January after the year. */
  lemma CenturiesMean(year: int)
    ensures year >= 0 ==> Centuries(year) == DaysBefore(year + 1) % 7
    ensures year <= 0 ==> Centuries(year) <= 0
  {
    if year >= 0 {
      var n := year + year / 4 - year / 100 + year / 400;
      assert DaysBefore(year + 1) == 7 * (52 * year) + n;
      QuotientIs(DaysBefore(year + 1), 7, 52 * year + n / 7, n % 7);
    }
  }

  /** The number of weeks is right for every year from 0 on; before that the formula
      always says 52, also for the long years. */
  lemma YearWeeksRight(year: int)
    ensures year >= 0 ==> IsoYearWeeks(year) == Weeks(year)
    ensures year < 0 ==> IsoYearWeeks(year) == 52
  {
    assert DaysBefore(0) == -366 && DaysBefore(1) == 0;
    hide DaysBefore, Centuries, Week1Monday;
    CenturiesMean(year);
    CenturiesMean(year - 1);
    WeeksExact(year);
  }

  /** A day of the year with its weekday, Sunday being 0. */
  predicate Consistent(year: int, yday: int, wday: int)
  {
    0 <= yday < DaysIn(year) && wday == (DaysBefore(year) + yday + 1) % 7
  }

  /** The Thursday of a day's week, which decides the week's year. */
  function Thursday(day: int): int
  {
    day - day % 7 + 3
  }

  /** The Thursday of the day's week is the 365th or 366th day of a year before 0. */
  ghost predicate LateInNegativeYear(day: int)
  {
    exists y :: y < 0 && DaysBefore(y) + 364 <= Thursday(day) < DaysBefore(y + 1)
  }

  lemma {:induction false} DaysBeforeMonotone(a: int, b: int)
    requires a <= b
    ensures DaysBefore(a) + 365 * (b - a) <= DaysBefore(b)
    decreases b - a
  {
    if a < b {
      DaysBeforeMonotone(a, b - 1);
      YearLength(b - 1);
    }
  }

  predicate InYear(day: int, year: int)
  {
    DaysBefore(year) <= day < DaysBefore(year + 1)
  }

  lemma YearUnique(day: int, a: int, b: int)
    requires InYear(day, a) && InYear(day, b)
    ensures a == b
  {
    if a < b {
      DaysBeforeMonotone(a + 1, b);
    } else if b < a {
      DaysBeforeMonotone(b + 1, a);
    }
  }

  /** A week belongs to the year its Thursday is in. */
  lemma WeekOfThursday(day: int, year: int)
    requires InYear(Thursday(day), year)
    ensures IsWeekDate(day, year, (Thursday(day) - DaysBefore(year)) / 7 + 1, day % 7 + 1)
  {
    hide DaysBefore;
    ThursdaysWeek(DaysBefore(year), Thursday(day), DaysBefore(year + 1));
  }

  /** The weeks up to a Thursday in a year from d up to next. */
  lemma ThursdaysWeek(d: int, t: int, next: int)
    requires t % 7 == 3 && d <= t < next
    ensures var first, last, k := d + 3 - (d + 3) % 7, next + 3 - (next + 3) % 7, (t - d) / 7;
            first + 7 * k == t - 3 && 0 <= k < (last - first) / 7
  {
    var a, b, c, m := (d + 3) / 7, (d + 3) % 7, (next + 3) / 7, t / 7;
    assert d == 7 * a + b - 3 && t == 7 * m + 3 && next + 3 == 7 * c + (next + 3) % 7;
    assert a <= m < c;
    SevenTimes(t - d, m - a, 6 - b);
    SevenTimes(7 * c - 7 * a, c - a, 0);
  }

  lemma SevenTimes(x: int, q: int, r: int)
    requires x == 7 * q + r && 0 <= r < 7
    ensures x / 7 == q
  {
  }

  /** The Thursday's week in its year y. */
  function WeekIn(day: int, y: int): int
  {
    (Thursday(day) - DaysBefore(y)) / 7 + 1
  }

  /** What the formulas compute, with the Thursday in the day's own year, the year before
      or the year after. */
  lemma SameYear(year: int, yday: int, wday: int)
    requires Consistent(year, yday, wday) && InYear(Thursday(DaysBefore(year) + yday), year)
    ensures FormulasRight(year, yday, wday, year) <==> WeekIn(DaysBefore(year) + yday, year) <= IsoYearWeeks(year)
  {
    hide DaysBefore, IsoYearWeeks, Week1Monday, Weeks;
    Formula(DaysBefore(year), yday, wday, if wday == 0 then 7 else wday);
  }

  lemma EarlierYear(year: int, yday: int, wday: int)
    requires Consistent(year, yday, wday) && InYear(Thursday(DaysBefore(year) + yday), year - 1)
    ensures FormulasRight(year, yday, wday, year - 1)
            <==> WeekIn(DaysBefore(year) + yday, year - 1) <= IsoYearWeeks(year - 1)
  {
    hide DaysBefore, Week1Monday, Weeks, Leap, Centuries;
    YearLength(year - 1);
    YearWeeksRight(year - 1);
    WeeksExact(year - 1);
    Formula(DaysBefore(year), yday, wday, if wday == 0 then 7 else wday);
    LastThursday(DaysBefore(year - 1), DaysIn(year - 1), Thursday(DaysBefore(year) + yday));
  }

  lemma LaterYear(year: int, yday: int, wday: int)
    requires Consistent(year, yday, wday) && InYear(Thursday(DaysBefore(year) + yday), year + 1)
    ensures FormulasRight(year, yday, wday, year + 1)
    ensures WeekIn(DaysBefore(year) + yday, year + 1) <= IsoYearWeeks(year + 1)
  {
    hide DaysBefore, Week1Monday, Weeks, Leap, Centuries;
    YearLength(year);
    YearWeeksRight(year);
    WeeksExact(year);
    Formula(DaysBefore(year), yday, wday, if wday == 0 then 7 else wday);
    LastThursday(DaysBefore(year), DaysIn(year), Thursday(DaysBefore(year) + yday) - 7);
  }

  predicate FormulasRight(year: int, yday: int, wday: int, y: int)
  {
    IsoWeekYear(year, yday, wday) == y && IsoWeekOfYear(year, yday, wday) == WeekIn(DaysBefore(year) + yday, y)
  }

  lemma Formula(d: int, yday: int, wday: int, weekday: int)
    requires yday >= 0 && wday == (d + yday + 1) % 7 && weekday == if wday == 0 then 7 else wday
    ensures IsoWeekNum(yday, wday) == (Thursday(d + yday) - d) / 7 + 1
    ensures Thursday(d + yday) % 7 == 3 && weekday == (d + yday) % 7 + 1
  {
    var day := d + yday;
    var r := day % 7;
    assert wday == if r == 6 then 0 else r + 1;
    assert Thursday(day) - d == yday + 4 - weekday;
    assert Thursday(day) == 7 * (day / 7) + 3;
  }

  /** In a long year, and only there, the last Thursday is in week 53. */
  lemma LastThursday(d: int, length: int, t: int)
    requires (length == 365 || length == 366) && t % 7 == 3 && d + length - 7 <= t < d + length
    ensures (t - d) / 7 + 1 == if d % 7 == 3 || (d + length) % 7 == 4 then 53 else 52
  {
    var r := d % 7;
    assert (d + length) % 7 == if length == 365 then if r < 6 then r + 1 else 0 else if r < 5 then r + 2 else r - 5;
    assert (t - d) % 7 == if r <= 3 then 3 - r else 10 - r;
  }

  /** The printed week year and week are the day's week date, and the only one, exactly
      unless the day is in week 53 of a year before 0. */
  lemma WeekDateRight(year: int, yday: int, wday: int)
    requires Consistent(year, yday, wday)
    ensures IsWeekDate(DaysBefore(year) + yday, IsoWeekYear(year, yday, wday), IsoWeekOfYear(year, yday, wday),
                       if wday == 0 then 7 else wday)
            <==> !LateInNegativeYear(DaysBefore(year) + yday)
  {
    var t := Thursday(DaysBefore(year) + yday);
    hide DaysBefore, IsoYearWeeks, FormulasRight, WeekIn, IsWeekDate, IsoWeekYear, IsoWeekOfYear, LateInNegativeYear;
    YearLength(year - 1);
    YearLength(year);
    YearLength(year + 1);
    if t < DaysBefore(year) {
      EarlierYear(year, yday, wday);
      RightInYear(year, yday, wday, year - 1);
    } else if t >= DaysBefore(year + 1) {
      LaterYear(year, yday, wday);
      RightInYear(year, yday, wday, year + 1);
    } else {
      SameYear(year, yday, wday);
      RightInYear(year, yday, wday, year);
    }
  }

  lemma RightInYear(year: int, yday: int, wday: int, y: int)
    requires Consistent(year, yday, wday) && InYear(Thursday(DaysBefore(year) + yday), y)
    requires FormulasRight(year, yday, wday, y) <==> WeekIn(DaysBefore(year) + yday, y) <= IsoYearWeeks(y)
    ensures IsWeekDate(DaysBefore(year) + yday, IsoWeekYear(year, yday, wday), IsoWeekOfYear(year, yday, wday),
                       if wday == 0 then 7 else wday)
            <==> !LateInNegativeYear(DaysBefore(year) + yday)
  {
    hide DaysBefore, IsoYearWeeks, IsoWeekYear, IsoWeekOfYear, Weeks, Week1Monday, IsWeekDate, Leap, LateInNegativeYear;
    var day, weekday := DaysBefore(year) + yday, if wday == 0 then 7 else wday;
    Formula(DaysBefore(year), yday, wday, weekday);
    WeekOfThursday(day, y);
    WeekNumber(day, y);
    YearWeeksRight(y);
    YearLength(y);
    LateMeans(day, y);
    var weekYear, w := IsoWeekYear(year, yday, wday), IsoWeekOfYear(year, yday, wday);
    if IsWeekDate(day, weekYear, w, weekday) {
      WeekDateUnique(day, weekYear, w, weekday, y, WeekIn(day, y), weekday);
    }
  }

  lemma WeekNumber(day: int, y: int)
    requires InYear(Thursday(day), y)
    ensures 1 <= WeekIn(day, y) <= Weeks(y) <= 53
  {
    WeekOfThursday(day, y);
    WeeksExact(y);
    hide DaysBefore, Week1Monday, Weeks;
  }

  lemma LateMeans(day: int, y: int)
    requires InYear(Thursday(day), y)
    ensures LateInNegativeYear(day) <==> y < 0 && Thursday(day) - DaysBefore(y) >= 364
  {
    forall z | z < 0 && DaysBefore(z) + 364 <= Thursday(day) < DaysBefore(z + 1) ensures z == y {
      DaysBeforeMonotone(z, z);
      YearUnique(Thursday(day), y, z);
    }
  }

  /** Thursday, the last day of year -2, is in that year's week 53, and comes out in week 1
      of year -1. */
  lemma WeekDateWrong()
    ensures Consistent(-2, 364, 4) && IsWeekDate(DaysBefore(-2) + 364, -2, 53, 4)
    ensures IsoWeekYear(-2, 364, 4) == -1 && IsoWeekOfYear(-2, 364, 4) == 1
  {
    assert DaysBefore(-2) == -1096 && DaysBefore(-1) == -731;
    assert Weeks(-2) == 53 && IsoYearWeeks(-2) == 52;
  }
}
