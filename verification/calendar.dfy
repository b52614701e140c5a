/** The proleptic Gregorian calendar in closed form. */
module Calendar {
  import opened Basics
  import opened Powers

  datatype Date = Date(year: int, month: int, day: int)

  /** Division as the engine's integers do it, towards zero. */
  function Quot(a: int, b: nat): int
    requires b > 0
  {
    if a >= 0 then a / b else -((-a) / b)
  }

  /** Days from 1970-01-01 to a date, the month counted from one. */
  function CivilDayCount(y1: int, m1: int, d1: int): int {
    var y := if m1 <= 2 then y1 - 1 else y1;
    var era := Quot(if y >= 0 then y else y - 399, 400);
    var yoe := y - era * 400;
    var doy := Quot(153 * (if m1 > 2 then m1 - 3 else m1 + 9) + 2, 5) + d1 - 1;
    var doe := yoe * 365 + Quot(yoe, 4) - Quot(yoe, 100) + doy;
    era * 146097 + doe - 719468
  }

  /** The date a number of days after 1970-01-01. */
  function CivilFromDays(z0: int): Date {
    var z := z0 + 719468;
    var era, doe := z / 146097, z % 146097;
    var yoe := (doe - doe / 1460 + doe / 36524 - doe / 146096) / 365;
    var y := yoe + era * 400;
    var doy := doe - (365 * yoe + yoe / 4 - yoe / 100);
    var mp := (5 * doy + 2) / 153;
    var d := doy - (153 * mp + 2) / 5 + 1;
    var m := if mp < 10 then mp + 3 else mp - 9;
    Date(if m <= 2 then y + 1 else y, m, d)
  }

  // ---- The calendar, day by day ----

  predicate IsLeap(y: int) {
    y % 4 == 0 && (y % 100 != 0 || y % 400 == 0)
  }

  function DaysInMonth(y: int, m: int): nat {
    if m in {1, 3, 5, 7, 8, 10, 12} then 31
    else if m in {4, 6, 9, 11} then 30
    else if m == 2 then if IsLeap(y) then 29 else 28
    else 0
  }

  predicate IsDate(c: Date) {
    1 <= c.month <= 12 && 1 <= c.day <= DaysInMonth(c.year, c.month)
  }

  function NextDate(c: Date): Date {
    if c.day < DaysInMonth(c.year, c.month) then c.(day := c.day + 1)
    else if c.month < 12 then Date(c.year, c.month + 1, 1)
    else Date(c.year + 1, 1, 1)
  }

  function PrevDate(c: Date): Date {
    if c.day > 1 then c.(day := c.day - 1)
    else if c.month > 1 then Date(c.year, c.month - 1, DaysInMonth(c.year, c.month - 1))
    else Date(c.year - 1, 12, 31)
  }

  /** n days later, or -n days earlier, one day at a time. */
  function Walk(c: Date, n: int): Date
    decreases if n < 0 then -n else n
  {
    if n == 0 then c else if n > 0 then NextDate(Walk(c, n - 1)) else PrevDate(Walk(c, n + 1))
  }

  // ---- Years that start in March ----

  /** Days before the year that starts in March of y. */
  function YearStart(y: int): int {
    365 * y + y / 4 - y / 100 + y / 400
  }

  /** Days before a month, counted from March. */
  function MonthStart(mp: int): int {
    (153 * mp + 2) / 5
  }

  function MarchYear(c: Date): int { if c.month <= 2 then c.year - 1 else c.year }

  function MarchMonth(c: Date): int { if c.month <= 2 then c.month + 9 else c.month - 3 }

  /** A quotient grows by one when the remainder wraps round. */
  lemma QuotientStep(y: int, k: int)
    requires k > 0
    ensures (y + 1) / k == y / k + if (y + 1) % k == 0 then 1 else 0
  {
    DivIdentity(y, k);
    var q, r := y / k, y % k;
    if r + 1 == k {
      DivUnique(y + 1, k, q + 1, 0);
    } else {
      DivUnique(y + 1, k, q, r + 1);
    }
  }

  /** A multiple of a b is a multiple of a. */
  lemma MultipleOf(y: int, a: int, b: int)
    requires a > 0 && b > 0 && y % (a * b) == 0
    ensures y % a == 0
  {
    DivIdentity(y, a * b);
    var q := y / (a * b);
    assert y == (q * b) * a;
    DivUnique(y, a, q * b, 0);
  }

  lemma YearLength(y: int)
    ensures YearStart(y + 1) - YearStart(y) == if IsLeap(y + 1) then 366 else 365
  {
    QuotientStep(y, 4);
    QuotientStep(y, 100);
    QuotientStep(y, 400);
    if (y + 1) % 100 == 0 { MultipleOf(y + 1, 4, 25); }
    if (y + 1) % 400 == 0 { MultipleOf(y + 1, 100, 4); }
  }

  lemma MonthLength(c: Date)
    requires 1 <= c.month <= 12 && c.month != 2
    ensures MonthStart(MarchMonth(c) + 1) - MonthStart(MarchMonth(c)) == DaysInMonth(c.year, c.month)
  {
  }

  lemma EraSplit(y: int)
    ensures
      var era := Quot(if y >= 0 then y else y - 399, 400);
      var yoe := y - era * 400;
      era == y / 400 && yoe == y % 400 && YearStart(y) == era * 146097 + 365 * yoe + yoe / 4 - yoe / 100
  {
    var era := y / 400;
    var yoe := y % 400;
    assert y == 400 * era + yoe;
    assert y / 4 == 100 * era + yoe / 4;
    assert y / 100 == 4 * era + yoe / 100;
  }

  lemma DayCountIs(c: Date)
    requires 1 <= c.month <= 12
    ensures CivilDayCount(c.year, c.month, c.day)
         == YearStart(MarchYear(c)) + MonthStart(MarchMonth(c)) + c.day - 1 - 719468
  {
    EraSplit(MarchYear(c));
  }

  // ---- Counting days agrees with the calendar ----

  /** The day after is counted one higher. */
  lemma CountNext(c: Date)
    requires IsDate(c)
    ensures IsDate(NextDate(c))
    ensures var n := NextDate(c); CivilDayCount(n.year, n.month, n.day) == CivilDayCount(c.year, c.month, c.day) + 1
  {
    hide CivilDayCount;
    var n := NextDate(c);
    DayCountIs(c);
    DayCountIs(n);
    if c.day == DaysInMonth(c.year, c.month) {
      if c.month == 2 {
        YearLength(MarchYear(c));
      } else {
        MonthLength(c);
      }
    }
  }

  lemma PrevIsPrev(c: Date)
    requires IsDate(c)
    ensures IsDate(PrevDate(c)) && NextDate(PrevDate(c)) == c
  {
  }

  // ---- Finding the date of a day ----

  /** The year within a 400-year era: c centuries, b leap cycles of four years and a
      years more. */
  lemma YearOfEra(doe: int)
    requires 0 <= doe < 146097
    ensures
      var yoe := (doe - doe / 1460 + doe / 36524 - doe / 146096) / 365;
      0 <= yoe < 400 && var doy := doe - (365 * yoe + yoe / 4 - yoe / 100);
      0 <= doy < (if IsLeap(yoe + 1) then 366 else 365)
  {
    var c, r := doe / 36524, doe % 36524;
    if c < 4 {
      var b, s := r / 1461, r % 1461;
      YearOfCentury(c, b, s);
    }
  }

  /** In the formula's terms: a century is 25 cycles of 1460 days and 24 more. */
  lemma YearFormula(c: int, b: int, s: int)
    requires 0 <= c < 4 && 0 <= b < 25 && 0 <= s < 1461 && 1461 * b + s < 36524
    ensures
      var doe := 36524 * c + 1461 * b + s;
      (doe - doe / 1460 + doe / 36524 - doe / 146096) / 365 == 100 * c + 4 * b + if s == 1460 then 3 else s / 365
  {
    var doe := 36524 * c + 1461 * b + s;
    DivUnique(doe, 36524, c, 1461 * b + s);
    DivUnique(doe, 146096, 0, doe);
    var e := if 24 * c + b + s >= 1460 then 1 else 0;
    DivUnique(doe, 1460, 25 * c + b + e, 24 * c + b + s - 1460 * e);
    var a := if s == 1460 then 3 else s / 365;
    var t := s - e;
    DivUnique(t, 365, a, t - 365 * a);
    DivUnique(365 * (100 * c + 4 * b) + t, 365, 100 * c + 4 * b + a, t - 365 * a);
  }

  lemma YearOfCentury(c: int, b: int, s: int)
    requires 0 <= c < 4 && 0 <= b < 25 && 0 <= s < 1461 && 1461 * b + s < 36524
    ensures
      var doe := 36524 * c + 1461 * b + s;
      var yoe := (doe - doe / 1460 + doe / 36524 - doe / 146096) / 365;
      0 <= yoe < 400 && var doy := doe - (365 * yoe + yoe / 4 - yoe / 100);
      0 <= doy < (if IsLeap(yoe + 1) then 366 else 365)
  {
    YearFormula(c, b, s);
    var a := if s == 1460 then 3 else s / 365;
    var yoe := 100 * c + 4 * b + a;
    DivUnique(yoe, 4, 25 * c + b, a);
    DivUnique(yoe, 100, c, 4 * b + a);
    if s == 1460 {
      assert b < 24;
      DivUnique(yoe + 1, 4, 25 * c + b + 1, 0);
      DivUnique(yoe + 1, 100, c, 4 * b + 4);
    }
  }

  lemma LeapInEra(era: int, yoe: int)
    ensures IsLeap(yoe + era * 400) <==> IsLeap(yoe)
  {
    DivShift(yoe, 4, era * 100);
    DivShift(yoe, 100, era * 4);
    DivShift(yoe, 400, era);
  }

  /** The month of a day of the year, and the day of that month. */
  lemma MonthOfYear(doy: int)
    requires 0 <= doy < 366
    ensures
      var mp := (5 * doy + 2) / 153;
      0 <= mp < 12 && MonthStart(mp) <= doy < MonthStart(mp + 1)
  {
  }

  /** The date of a day in a year that starts in March. */
  function DateInYear(y: int, doy: int): Date {
    var mp := (5 * doy + 2) / 153;
    var m := if mp < 10 then mp + 3 else mp - 9;
    Date(if m <= 2 then y + 1 else y, m, doy - (153 * mp + 2) / 5 + 1)
  }

  lemma CountInYear(y: int, doy: int)
    requires 0 <= doy < if IsLeap(y + 1) then 366 else 365
    ensures
      var c := DateInYear(y, doy);
      IsDate(c) && CivilDayCount(c.year, c.month, c.day) == YearStart(y) + doy - 719468
  {
    hide CivilDayCount, YearStart;
    MonthOfYear(doy);
    var mp := (5 * doy + 2) / 153;
    var c := DateInYear(y, doy);
    assert MarchYear(c) == y && MarchMonth(c) == mp && c.day == doy - MonthStart(mp) + 1;
    DayCountIs(c);
    if c.month != 2 {
      MonthLength(c);
    }
  }

  /** The closed form gives a date of the calendar, and counting its days gives the
      day back. */
  lemma CountOfDate(z: int)
    ensures IsDate(CivilFromDays(z))
    ensures var c := CivilFromDays(z); CivilDayCount(c.year, c.month, c.day) == z
  {
    hide CivilDayCount, YearStart, IsDate, IsLeap;
    var s := z + 719468;
    var era, doe := s / 146097, s % 146097;
    YearOfEra(doe);
    var yoe := (doe - doe / 1460 + doe / 36524 - doe / 146096) / 365;
    var y := yoe + era * 400;
    LeapInEra(era, yoe + 1);
    DivUnique(y, 400, era, yoe);
    EraSplit(y);
    var doy := doe - (365 * yoe + yoe / 4 - yoe / 100);
    CountInYear(y, doy);
    assert CivilFromDays(z) == DateInYear(y, doy);
  }

  /** The order of dates. */
  predicate Before(a: Date, b: Date) {
    a.year < b.year || (a.year == b.year && (a.month < b.month || (a.month == b.month && a.day < b.day)))
  }

  /** Counting respects the order, so different dates have different counts. */
  lemma CountOrdered(a: Date, b: Date)
    requires IsDate(a) && IsDate(b) && Before(a, b)
    ensures CivilDayCount(a.year, a.month, a.day) < CivilDayCount(b.year, b.month, b.day)
  {
    hide CivilDayCount, YearStart;
    DayCountIs(a);
    DayCountIs(b);
    var ya, yb := MarchYear(a), MarchYear(b);
    DayOfYear(a);
    if ya < yb {
      YearsGrow(ya + 1, yb);
    } else {
      assert ya == yb;
      if MarchMonth(a) < MarchMonth(b) {
        MonthLength(a);
        assert MonthStart(MarchMonth(a) + 1) <= MonthStart(MarchMonth(b));
      }
    }
  }

  lemma DayOfYear(c: Date)
    requires IsDate(c)
    ensures YearStart(MarchYear(c)) + MonthStart(MarchMonth(c)) + c.day <= YearStart(MarchYear(c) + 1)
  {
    YearLength(MarchYear(c));
  }

  lemma YearsGrow(a: int, b: int)
    requires a <= b
    ensures YearStart(a) <= YearStart(b)
  {
  }

  /** A date of the calendar is found again from its count. */
  lemma DateOfCount(c: Date)
    requires IsDate(c)
    ensures CivilFromDays(CivilDayCount(c.year, c.month, c.day)) == c
  {
    hide CivilDayCount, CivilFromDays, IsDate;
    var z := CivilDayCount(c.year, c.month, c.day);
    var r := CivilFromDays(z);
    CountOfDate(z);
    if Before(c, r) {
      CountOrdered(c, r);
    } else if Before(r, c) {
      CountOrdered(r, c);
    }
  }

  // ---- The closed form is the calendar ----

  lemma Epoch()
    ensures CivilFromDays(0) == Date(1970, 1, 1)
  {
    assert CivilDayCount(1970, 1, 1) == 0;
    hide CivilDayCount, CivilFromDays;
    DateOfCount(Date(1970, 1, 1));
  }

  lemma Successor(z: int)
    ensures CivilFromDays(z + 1) == NextDate(CivilFromDays(z))
  {
    hide CivilDayCount, CivilFromDays, IsDate, NextDate;
    var c := CivilFromDays(z);
    CountOfDate(z);
    CountNext(c);
    DateOfCount(NextDate(c));
  }

  /** Going n days forward or back in the count is walking n days in the calendar. */
  lemma {:induction false} WalkDays(z: int, n: int)
    ensures CivilFromDays(z + n) == Walk(CivilFromDays(z), n)
    decreases if n < 0 then -n else n
  {
    hide CivilFromDays, NextDate, PrevDate, IsDate;
    if n > 0 {
      WalkDays(z, n - 1);
      Successor(z + n - 1);
    } else if n < 0 {
      WalkDays(z, n + 1);
      Predecessor(z + n + 1);
    }
  }

  lemma Predecessor(z: int)
    ensures CivilFromDays(z - 1) == PrevDate(CivilFromDays(z))
  {
    hide CivilDayCount, CivilFromDays, IsDate, NextDate, PrevDate;
    var c := CivilFromDays(z);
    CountOfDate(z);
    PrevIsPrev(c);
    var p := PrevDate(c);
    CountNext(p);
    DateOfCount(p);
  }

  /** So the closed form is the calendar counted from the epoch. */
  lemma CalendarFromEpoch(z: int)
    ensures CivilFromDays(z) == Walk(Date(1970, 1, 1), z)
  {
    hide CivilFromDays, Walk;
    Epoch();
    WalkDays(0, z);
  }

  // ---- MakeDay ----

  const YEAR_BOUND: int := 1000000000
  const MONTH_BOUND: int := 12000000000
  const DAY_BOUND: int := 4000000000000

  predicate Within(v: int, bound: int) { -bound <= v <= bound }

  /** The day of year y, month m counted from zero, and day d, any of which may run
      over.  None stands for a component that is not finite. */
  function MakeDay(y: Option<int>, m: Option<int>, d: Option<int>): Option<int> {
    if y.None? || m.None? || d.None? then None
    else if !Within(y.value, YEAR_BOUND) || !Within(m.value, MONTH_BOUND) || !Within(d.value, DAY_BOUND) then None
    else
      var total := y.value * 12 + m.value;
      Some(CivilDayCount(total / 12, total % 12 + 1, d.value))
  }

  /** The first day of a month that may be beyond its year. */
  function FirstOfMonth(y: int, m: int): Date {
    Date(y + m / 12, m % 12 + 1, 1)
  }

  /** MakeDay starts at the first of the month, months beyond the year carried into
      years, and walks d - 1 days. */
  lemma MakeDayWalks(y: int, m: int, d: int)
    requires Within(y, YEAR_BOUND) && Within(m, MONTH_BOUND) && Within(d, DAY_BOUND)
    ensures
      var r := MakeDay(Some(y), Some(m), Some(d));
      r.Some? && CivilFromDays(r.value) == Walk(FirstOfMonth(y, m), d - 1)
  {
    hide CivilFromDays, Walk, CivilDayCount;
    var first := FirstOfMonth(y, m);
    assert (y * 12 + m) / 12 == y + m / 12 && (y * 12 + m) % 12 == m % 12;
    var z := CivilDayCount(first.year, first.month, 1);
    DayCountIs(first);
    DayCountIs(first.(day := d));
    DateOfCount(first);
    WalkDays(z, d - 1);
  }

  /** For a date of the calendar MakeDay finds its day. */
  lemma MakeDayOfDate(c: Date)
    requires IsDate(c) && Within(c.year, YEAR_BOUND)
    ensures
      var r := MakeDay(Some(c.year), Some(c.month - 1), Some(c.day));
      r.Some? && CivilFromDays(r.value) == c
  {
    hide CivilFromDays, CivilDayCount;
    DateOfCount(c);
  }
}
