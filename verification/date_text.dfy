/** Dates as text: `toISOString` and `toUTCString`. */
module DateText {
  import opened Basics
  import opened Powers
  import opened Calendar

  const MS_PER_DAY: int := 86400000
  const MS_LIMIT: int := 8640000000000000

  const WEEKDAYS: seq<string> := ["Sun", "Mon", "Tue", "Wed", "Thu", "Fri", "Sat"]
  const MONTHS: seq<string> :=
    ["Jan", "Feb", "Mar", "Apr", "May", "Jun", "Jul", "Aug", "Sep", "Oct", "Nov", "Dec"]

  /** A time value: milliseconds, or not a time. */
  datatype Time = NaN | At(ms: int)

  function Clip(ts: int): Time {
    if -MS_LIMIT <= ts <= MS_LIMIT then At(ts) else NaN
  }

  datatype Parts = Parts(date: Date, hour: int, minute: int, second: int, milli: int, weekday: int)

  function UtcParts(t: int): Parts {
    var days, rem := t / MS_PER_DAY, t % MS_PER_DAY;
    Parts(CivilFromDays(days), rem / 3600000, rem / 60000 % 60, rem / 1000 % 60, rem % 1000, (days + 4) % 7)
  }

  /** The time a date and a time of day stand for. */
  function TimeOf(c: Date, h: int, mi: int, sec: int, ms: int): int {
    CivilDayCount(c.year, c.month, c.day) * MS_PER_DAY + h * 3600000 + mi * 60000 + sec * 1000 + ms
  }

  /** The parts of a time are within bounds and make up the time. */
  lemma PartsOfTime(t: int)
    ensures
      var p := UtcParts(t);
      && IsDate(p.date)
      && 0 <= p.hour < 24 && 0 <= p.minute < 60 && 0 <= p.second < 60 && 0 <= p.milli < 1000 && 0 <= p.weekday < 7
      && TimeOf(p.date, p.hour, p.minute, p.second, p.milli) == t
  {
    hide CivilFromDays, CivilDayCount, IsDate;
    CountOfDate(t / MS_PER_DAY);
    DayParts(t % MS_PER_DAY);
  }

  lemma DayParts(rem: int)
    requires 0 <= rem < MS_PER_DAY
    ensures 0 <= rem / 3600000 < 24
    ensures rem == rem / 3600000 * 3600000 + rem / 60000 % 60 * 60000 + rem / 1000 % 60 * 1000 + rem % 1000
  {
    var s := rem / 1000;
    var m := s / 60;
    DivDiv(rem, 1000, 60);
    DivDiv(rem, 60000, 60);
  }

  /** The year of a time within the limit, or within a day of it, has at most six
      digits. */
  lemma YearOfTime(t: int)
    requires -MS_LIMIT - MS_PER_DAY <= t <= MS_LIMIT + MS_PER_DAY
    ensures -275760 <= UtcParts(t).date.year <= 275760
  {
    hide CivilFromDays, CivilDayCount;
    var z := t / MS_PER_DAY;
    var c := CivilFromDays(z);
    CountOfDate(z);
    DayCountIs(c);
    DayOfYear(c);
    assert -100000001 <= z <= 100000001;
    if c.year > 275760 {
      YearsGrow(275760, MarchYear(c));
      LastDay(c);
    } else if c.year < -275760 {
      YearsGrow(MarchYear(c) + 1, -275759);
    }
  }

  lemma LastDay(c: Date)
    requires IsDate(c) && c.year > 275760
    ensures YearStart(MarchYear(c)) + MonthStart(MarchMonth(c)) > 100000001 + 719468
  {
    hide YearStart;
    if c.year == 275761 && c.month <= 2 {
      assert MonthStart(MarchMonth(c)) >= 306;
      FirstDays();
    } else {
      YearsGrow(275761, MarchYear(c));
      FirstDays();
    }
  }

  lemma FirstDays()
    ensures YearStart(275760) + 306 > 100000001 + 719468
    ensures YearStart(275761) > 100000001 + 719468
  {
  }

  // ---- Numbers with leading zeros ----

  function D(n: int): (c: char)
    requires 0 <= n < 10
    ensures '0' <= c <= '9'
  {
    "0123456789"[n]
  }

  /** At least w digits. */
  function Pad(n: nat, w: nat): string {
    if n < 10 && w <= 1 then [D(n)] else Pad(n / 10, if w > 0 then w - 1 else 0) + [D(n % 10)]
  }

  function Val(c: char): (v: nat)
    requires IsDigit(c)
    ensures v < 10
  {
    c as int - '0' as int
  }

  predicate Digits(s: string) {
    forall i :: 0 <= i < |s| ==> IsDigit(s[i])
  }

  /** The number a string of digits stands for. */
  function Number(s: string): nat
    requires Digits(s)
  {
    if s == "" then 0 else 10 * Number(s[..|s| - 1]) + Val(s[|s| - 1])
  }

  lemma NumberSnoc(s: string, c: char)
    requires Digits(s) && IsDigit(c)
    ensures Digits(s + [c]) && Number(s + [c]) == 10 * Number(s) + Val(c)
  {
    assert (s + [c])[..|s|] == s;
  }

  lemma DigitVal(n: int)
    requires 0 <= n < 10
    ensures Val(D(n)) == n && Number([D(n)]) == n
  {
    hide D, Val, Number;
    DigitBack(n);
    NumberSnoc("", D(n));
    assert "" + [D(n)] == [D(n)];
    NoDigits();
  }

  lemma DigitBack(n: int)
    requires 0 <= n < 10
    ensures Val(D(n)) == n
  {
  }

  lemma NoDigits()
    ensures Number("") == 0
  {
  }

  /** A padded number is made of digits and stands for the number. */
  lemma {:induction false} PadNumber(n: nat, w: nat)
    ensures Digits(Pad(n, w)) && Number(Pad(n, w)) == n && Pad(n, w) != ""
  {
    hide Number, Val, D;
    DigitVal(n % 10);
    if !(n < 10 && w <= 1) {
      var w' := if w > 0 then w - 1 else 0;
      PadNumber(n / 10, w');
      NumberSnoc(Pad(n / 10, w'), D(n % 10));
    }
  }

  /** It has the width asked for if it fits. */
  lemma {:induction false} PadLength(n: nat, w: nat)
    requires n < Pow(10, w) && w > 0
    ensures |Pad(n, w)| == w
  {
    if w > 1 {
      PadLength(n / 10, w - 1);
    }
  }

  lemma SmallPowers()
    ensures Pow(10, 2) == 100 && Pow(10, 3) == 1000 && Pow(10, 4) == 10000 && Pow(10, 6) == 1000000
  {
    assert Pow(10, 4) == 10000;
    assert Pow(10, 6) == 100 * Pow(10, 4);
  }

  // ---- The texts ----

  function IsoYear(y: int): string {
    if y < 0 then "-" + Pad(-y, 6) else if y > 9999 then "+" + Pad(y, 6) else Pad(y, 4)
  }

  function Year4(y: int): string {
    if y < 0 then "-" + Pad(-y, 4) else Pad(y, 4)
  }

  function Clock(p: Parts): string
    requires 0 <= p.hour && 0 <= p.minute && 0 <= p.second
  {
    Pad(p.hour, 2) + ":" + Pad(p.minute, 2) + ":" + Pad(p.second, 2)
  }

  function IsoText(t: int): string {
    var p := UtcParts(t);
    PartsOfTime(t);
    IsoYear(p.date.year) + "-" + Pad(p.date.month, 2) + "-" + Pad(p.date.day, 2)
    + "T" + Clock(p) + "." + Pad(p.milli, 3) + "Z"
  }

  function UtcText(t: int): string {
    var p := UtcParts(t);
    PartsOfTime(t);
    WEEKDAYS[p.weekday] + ", " + Pad(p.date.day, 2) + " " + MONTHS[p.date.month - 1]
    + " " + Year4(p.date.year) + " " + Clock(p) + " GMT"
  }

  // ---- Weekdays and widths ----

  /** The weekday of a day, counted day by day from Thursday, 1 January 1970. */
  function WeekdayWalk(z: int): (w: nat)
    ensures w < 7
    decreases if z < 0 then -z else z
  {
    if z == 0 then 4 else if z > 0 then (WeekdayWalk(z - 1) + 1) % 7 else (WeekdayWalk(z + 1) + 6) % 7
  }

  lemma {:induction false} WeekdayIs(z: int)
    ensures WeekdayWalk(z) == (z + 4) % 7
    decreases if z < 0 then -z else z
  {
    if z > 0 {
      WeekdayIs(z - 1);
      NextMod7(z + 3);
    } else if z < 0 {
      WeekdayIs(z + 1);
      NextMod7(z + 4);
    }
  }

  lemma NextMod7(x: int)
    ensures (x % 7 + 1) % 7 == (x + 1) % 7 && ((x + 1) % 7 + 6) % 7 == x % 7
  {
  }

  lemma ThreeLetters(w: int)
    requires 0 <= w < 7
    ensures |WEEKDAYS[w]| == 3
  {
  }

  /** toUTCString starts with the weekday of the day. */
  lemma UtcWeekday(t: int)
    ensures UtcText(t)[..3] == WEEKDAYS[WeekdayWalk(t / MS_PER_DAY)]
  {
    hide Pad, CivilFromDays, Year4, Clock;
    WeekdayIs(t / MS_PER_DAY);
    PartsOfTime(t);
    ThreeLetters(UtcParts(t).weekday);
  }

  /** A padded number is the only text of digits for the number that is as wide as
      asked for, or wider without a leading zero. */
  lemma {:induction false} PadUnique(n: nat, w: nat, s: string)
    requires w > 0 && Digits(s) && s != "" && Number(s) == n
    requires |s| == w || (|s| > w && s[0] != '0')
    ensures s == Pad(n, w)
    decreases |s|
  {
    hide D, Val;
    var front, c := s[..|s| - 1], s[|s| - 1];
    assert s == front + [c];
    NumberSnoc(front, c);
    LastDigit(Number(front), c);
    if front == "" {
      assert n == Val(c);
    } else {
      if |s| > w {
        assert front[0] == s[0];
        NoLeadingZero(front);
      }
      if w > 1 || n >= 10 {
        PadUnique(n / 10, if w > 1 then w - 1 else 1, front);
        SamePad(n / 10);
      }
    }
  }

  lemma LastDigit(m: nat, c: char)
    requires IsDigit(c)
    ensures (10 * m + Val(c)) / 10 == m && (10 * m + Val(c)) % 10 == Val(c) && D(Val(c)) == c
  {
    DivUnique(10 * m + Val(c), 10, m, Val(c));
  }

  lemma SamePad(n: nat)
    ensures Pad(n, 0) == Pad(n, 1)
  {
  }

  lemma {:induction false} NoLeadingZero(s: string)
    requires Digits(s) && s != "" && s[0] != '0'
    ensures Number(s) > 0
  {
    if |s| > 1 {
      NoLeadingZero(s[..|s| - 1]);
    }
  }
}
