/** The strict ISO form as a grammar: which texts are read, and what they mean. */
module DateIso {
  import opened Basics
  import opened Powers
  import opened Calendar
  import opened DateText
  import opened DateParse

  // ---- Spellings ----

  datatype YearForm = FourDigits | SixDigits | SignedSix

  /** Hours and minutes east of UTC, or west of it. */
  datatype Zone =
    | NoZone
    | Zulu
    | Hours(west: bool, hours: nat)
    | Compact(west: bool, hours: nat, minutes: nat)
    | Colon(west: bool, hours: nat, minutes: nat)

  /** Seconds are optional, and milliseconds after them. */
  datatype TimeOfDay = TimeOfDay(hour: nat, minute: nat, second: Option<(nat, Option<nat>)>)

  datatype Iso =
    | YearOnly(year: int, form: YearForm)
    | DateOnly(date: Date, form: YearForm)
    | DateTime(date: Date, form: YearForm, time: TimeOfDay, zone: Zone)

  function YearText(y: int, form: YearForm): string {
    var n := if y < 0 then -y else y;
    match form
    case FourDigits => Pad(n, 4)
    case SixDigits => Pad(n, 6)
    case SignedSix => (if y < 0 then "-" else "+") + Pad(n, 6)
  }

  function DayText(c: Date): string
    requires IsDate(c)
  {
    "-" + (Pad(c.month, 2) + ("-" + Pad(c.day, 2)))
  }

  function TimeText(t: TimeOfDay): string {
    "T" + (Pad(t.hour, 2) + (":" + (Pad(t.minute, 2) +
    (if t.second.None? then ""
     else
       var (sec, ms) := t.second.value;
       ":" + (Pad(sec, 2) + if ms.None? then "" else "." + Pad(ms.value, 3))))))
  }

  function ZoneText(z: Zone): string {
    match z
    case NoZone => ""
    case Zulu => "Z"
    case Hours(west, h) => (if west then "-" else "+") + Pad(h, 2)
    case Compact(west, h, m) => (if west then "-" else "+") + (Pad(h, 2) + Pad(m, 2))
    case Colon(west, h, m) => (if west then "-" else "+") + (Pad(h, 2) + (":" + Pad(m, 2)))
  }

  function IsoSpelling(x: Iso): string
    requires ValidIso(x)
  {
    match x
    case YearOnly(y, form) => YearText(y, form)
    case DateOnly(c, form) => YearText(c.year, form) + DayText(c)
    case DateTime(c, form, t, z) => YearText(c.year, form) + (DayText(c) + (TimeText(t) + ZoneText(z)))
  }

  predicate ValidYear(y: int, form: YearForm) {
    match form
    case FourDigits => 0 <= y <= 9999
    case SixDigits => 0 <= y <= 999999
    case SignedSix => -999999 <= y <= 999999
  }

  /** Midnight may also be written as the end of the day before. */
  predicate ValidTime(t: TimeOfDay) {
    && t.hour <= 24 && t.minute <= 59
    && (t.second.Some? ==> t.second.value.0 <= 59 && (t.second.value.1.Some? ==> t.second.value.1.value <= 999))
    && (t.hour == 24 ==> t.minute == 0 && Seconds(t) == 0 && Millis(t) == 0)
  }

  function Seconds(t: TimeOfDay): nat {
    if t.second.None? then 0 else t.second.value.0
  }

  function Millis(t: TimeOfDay): nat {
    if t.second.None? || t.second.value.1.None? then 0 else t.second.value.1.value
  }

  predicate ValidZone(z: Zone) {
    match z
    case NoZone => true
    case Zulu => true
    case Hours(_, h) => h <= 23
    case Compact(_, h, m) => h <= 23 && m <= 59
    case Colon(_, h, m) => h <= 23 && m <= 59
  }

  predicate ValidIso(x: Iso) {
    match x
    case YearOnly(y, form) => ValidYear(y, form)
    case DateOnly(c, form) => IsDate(c) && ValidYear(c.year, form)
    case DateTime(c, form, t, z) => IsDate(c) && ValidYear(c.year, form) && ValidTime(t) && ValidZone(z)
  }

  // ---- Meaning ----

  /** How many minutes the clock of a zone is ahead of UTC. */
  function Ahead(z: Zone): int
    requires !z.NoZone?
  {
    match z
    case Zulu => 0
    case Hours(west, h) => if west then -60 * h else 60 * h
    case Compact(west, h, m) => if west then -60 * h - m else 60 * h + m
    case Colon(west, h, m) => if west then -60 * h - m else 60 * h + m
  }

  /** Midnight UTC for a year or a day; for a time of day, that time where the zone is,
      or what `local` makes of it. */
  function Meaning(x: Iso, local: int -> Option<int>): Option<Time> {
    match x
    case YearOnly(y, _) => Some(Clip(TimeOf(Date(y, 1, 1), 0, 0, 0, 0)))
    case DateOnly(c, _) => Some(Clip(TimeOf(c, 0, 0, 0, 0)))
    case DateTime(c, _, t, z) =>
      var clock := TimeOf(c, t.hour, t.minute, Seconds(t), Millis(t));
      if z.NoZone? then
        var ts := local(clock);
        if ts.None? then None else Some(Clip(ts.value))
      else Some(Clip(clock - 60000 * Ahead(z)))
  }

  // ---- Every spelling is read ----

  lemma Powers10()
    ensures Pow(10, 2) == 100 && Pow(10, 3) == 1000 && Pow(10, 4) == 10000 && Pow(10, 6) == 1000000
  {
    SmallPowers();
  }

  lemma YearComplete(y: int, form: YearForm, rest: string)
    requires ValidYear(y, form) && (rest == "" || rest[0] == '-')
    ensures Year(YearText(y, form) + rest) == Some((y, rest))
  {
    match form
    case FourDigits => FourComplete(y, rest);
    case SixDigits => SixComplete(y, rest);
    case SignedSix => SignedComplete(y, rest);
  }

  lemma FourComplete(y: nat, rest: string)
    requires y <= 9999 && (rest == "" || rest[0] == '-')
    ensures Year(Pad(y, 4) + rest) == Some((y, rest))
  {
    hide Pad, Number, Pow;
    Powers10();
    TakePad(y, 4, rest);
    var s := Pad(y, 4) + rest;
    assert s[0] == Pad(y, 4)[0];
    assert rest != "" ==> s[4] == '-';
  }

  lemma SixComplete(y: nat, rest: string)
    requires y <= 999999
    ensures Year(Pad(y, 6) + rest) == Some((y, rest))
  {
    hide Pad, Number, Pow;
    Powers10();
    TakePad(y, 6, rest);
    var p := Pad(y, 6);
    var s := p + rest;
    assert s[0] == p[0] && s[4] == p[4] && s[5] == p[5];
    assert s[..4] == p[..4];
    PadNumber(y, 6);
    NumberSnoc(p[..4], p[4]);
    NumberSnoc(p[..4] + [p[4]], p[5]);
    assert p == p[..4] + [p[4]] + [p[5]];
  }

  lemma SignedComplete(y: int, rest: string)
    requires -999999 <= y <= 999999
    ensures Year(YearText(y, SignedSix) + rest) == Some((y, rest))
  {
    hide Pad, Number, Pow;
    Powers10();
    var n := if y < 0 then -y else y;
    TakePad(n, 6, rest);
    var s := YearText(y, SignedSix) + rest;
    assert s[1..] == Pad(n, 6) + rest;
    assert s[7..] == (Pad(n, 6) + rest)[6..];
  }

  lemma DayComplete(c: Date, rest: string)
    requires IsDate(c)
    ensures MonthDay(c.year, DayText(c) + rest) == Some((c.month, c.day, rest))
    ensures DayText(c) != "" && DayText(c)[0] == '-'
  {
    hide Pad, MonthDay;
    MonthDayRead(c, rest);
    assert DayText(c) + rest == "-" + (Pad(c.month, 2) + ("-" + (Pad(c.day, 2) + rest)));
  }

  /** Hour and minute, with 24:00. */
  lemma HourComplete(h: nat, mi: nat, rest: string)
    requires h <= 24 && mi <= 59 && (h == 24 ==> mi == 0)
    ensures HourMinute("T" + (Pad(h, 2) + (":" + (Pad(mi, 2) + rest)))) == Some((h, mi, rest))
  {
    hide Pad, Number, Pow, Take;
    Powers10();
    var s2 := ":" + (Pad(mi, 2) + rest);
    var s := "T" + (Pad(h, 2) + s2);
    TakePad(h, 2, s2);
    TakePad(mi, 2, rest);
    assert s[1..] == Pad(h, 2) + s2;
    assert s[3..] == s2;
    assert s[4..] == s2[1..] == Pad(mi, 2) + rest;
    assert s[6..] == rest;
  }

  function SecondText(second: Option<(nat, Option<nat>)>): string {
    if second.None? then ""
    else ":" + (Pad(second.value.0, 2) + if second.value.1.None? then "" else "." + Pad(second.value.1.value, 3))
  }

  /** The milliseconds, if there are any, and the rest. */
  function MilliText(ms: Option<nat>, rest: string): string {
    if ms.None? then rest else "." + (Pad(ms.value, 3) + rest)
  }

  lemma SecondShape(sec: nat, ms: Option<nat>, rest: string)
    ensures SecondText(Some((sec, ms))) + rest == ":" + (Pad(sec, 2) + MilliText(ms, rest))
  {
    hide Pad;
  }

  lemma SecondComplete(t: TimeOfDay, rest: string)
    requires ValidTime(t) && (rest == "" || (rest[0] != ':' && rest[0] != '.'))
    ensures SecondMilli(t.hour, SecondText(t.second) + rest) == Some((Seconds(t), Millis(t), rest))
  {
    hide Pad, Number, Pow, Take;
    if t.second.None? {
      assert SecondText(t.second) + rest == rest;
    } else {
      hide SecondText, SecondMilli;
      var (sec, ms) := t.second.value;
      SecondShape(sec, ms, rest);
      SecondsComplete(t.hour, sec, ms, rest);
    }
  }

  lemma SecondsComplete(h: nat, sec: nat, ms: Option<nat>, rest: string)
    requires sec <= 59 && (ms.Some? ==> ms.value <= 999) && (rest == "" || rest[0] != '.')
    requires h == 24 ==> sec == 0 && (ms.Some? ==> ms.value == 0)
    ensures SecondMilli(h, ":" + (Pad(sec, 2) + MilliText(ms, rest)))
         == Some((sec, if ms.None? then 0 else ms.value, rest))
  {
    hide Pad, Number, Pow, Take;
    Powers10();
    var s2 := MilliText(ms, rest);
    var s := ":" + (Pad(sec, 2) + s2);
    TakePad(sec, 2, s2);
    assert s[1..] == Pad(sec, 2) + s2;
    assert s[3..] == s2;
    if ms.Some? {
      TakePad(ms.value, 3, rest);
      assert s[4..] == s2[1..] == Pad(ms.value, 3) + rest;
      assert s[7..] == rest;
    }
  }

  lemma TimeShape(t: TimeOfDay, rest: string)
    ensures TimeText(t) + rest == "T" + (Pad(t.hour, 2) + (":" + (Pad(t.minute, 2) + (SecondText(t.second) + rest))))
  {
    hide Pad;
  }

  lemma ZoneComplete(z: Zone)
    requires ValidZone(z)
    ensures DateParse.Zone(ZoneText(z)) == Some((if z.NoZone? then None else Some(Ahead(z)), ""))
    ensures ZoneText(z) == "" || (ZoneText(z)[0] != ':' && ZoneText(z)[0] != '.')
  {
    hide Pad, Number, Pow, Take;
    Powers10();
    var s := ZoneText(z);
    match z
    case NoZone =>
    case Zulu =>
      assert s[1..] == "";
    case Hours(_, h) =>
      TakePad(h, 2, "");
      assert s[1..] == Pad(h, 2) + "" && s[3..] == "";
    case Compact(_, h, m) =>
      TakePad(h, 2, Pad(m, 2));
      TakePad(m, 2, "");
      assert s[1..] == Pad(h, 2) + Pad(m, 2) && s[3..] == Pad(m, 2) == Pad(m, 2) + "";
      assert s[3] == Pad(m, 2)[0];
    case Colon(_, h, m) =>
      TakePad(h, 2, ":" + Pad(m, 2));
      TakePad(m, 2, "");
      assert s[1..] == Pad(h, 2) + (":" + Pad(m, 2)) && s[3..] == ":" + Pad(m, 2);
      assert s[3] == ':' && s[4..] == Pad(m, 2) == Pad(m, 2) + "";
  }

  lemma TimeComplete(c: Date, t: TimeOfDay, z: Zone, form: YearForm, local: int -> Option<int>)
    requires ValidTime(t) && ValidZone(z)
    ensures ParseTime(c, TimeText(t) + ZoneText(z), local) == Meaning(DateTime(c, form, t, z), local)
  {
    hide Pad, HourMinute, SecondMilli, DateParse.Zone, TimeOf, Clip, TimeText, ZoneText, SecondText;
    TimeShape(t, ZoneText(z));
    ZoneComplete(z);
    HourComplete(t.hour, t.minute, SecondText(t.second) + ZoneText(z));
    SecondComplete(t, ZoneText(z));
  }

  lemma TimeStarts(t: TimeOfDay, rest: string)
    ensures TimeText(t) + rest != "" && (TimeText(t) + rest)[0] == 'T'
  {
  }

  lemma Midnight(c: Date)
    ensures TimeOf(c, 0, 0, 0, 0) == CivilDayCount(c.year, c.month, c.day) * MS_PER_DAY
  {
  }

  /** Every spelling is read as what it means. */
  lemma IsoComplete(x: Iso, local: int -> Option<int>)
    requires ValidIso(x)
    ensures ParseIso(IsoSpelling(x), local) == Meaning(x, local)
  {
    hide Year, MonthDay, ParseTime, YearText, DayText, TimeText, ZoneText, CivilDayCount, TimeOf, Clip;
    match x
    case YearOnly(y, form) =>
      assert YearText(y, form) + "" == YearText(y, form);
      YearComplete(y, form, "");
      Midnight(Date(y, 1, 1));
    case DateOnly(c, form) =>
      DayComplete(c, "");
      assert DayText(c) + "" == DayText(c);
      YearComplete(c.year, form, DayText(c));
      Midnight(c);
    case DateTime(c, form, t, z) =>
      var rest := TimeText(t) + ZoneText(z);
      DayComplete(c, rest);
      TimeStarts(t, ZoneText(z));
      assert (DayText(c) + rest)[0] == '-';
      YearComplete(c.year, form, DayText(c) + rest);
      TimeComplete(c, t, z, form, local);
  }

  // ---- Nothing else is read ----

  lemma {:induction false} PadBack(s: string)
    requires Digits(s) && s != ""
    ensures Pad(Number(s), |s|) == s
  {
    hide Number, Val, D, Pad;
    var front, c := s[..|s| - 1], s[|s| - 1];
    assert s == front + [c];
    DigitOf(c);
    NumberSnoc(front, c);
    if front == "" {
      NoNumber();
      PadOne(Val(c));
    } else {
      PadBack(front);
      PadSnoc(Number(front), |front|, Val(c));
    }
  }

  lemma NoNumber()
    ensures Number("") == 0
  {
  }

  lemma PadOne(d: nat)
    requires d < 10
    ensures Pad(d, 1) == [D(d)]
  {
  }

  lemma PadSnoc(n: nat, w: nat, d: nat)
    requires w > 0 && d < 10
    ensures Pad(10 * n + d, w + 1) == Pad(n, w) + [D(d)]
  {
    hide D;
    DivUnique(10 * n + d, 10, n, d);
  }

  lemma DigitOf(c: char)
    requires IsDigit(c)
    ensures D(Val(c)) == c
  {
  }

  /** A number that was taken was written there. */
  lemma TakeSound(s: string, n: nat)
    requires n > 0 && Take(s, n).Some?
    ensures |s| >= n && s == Pad(Take(s, n).value, n) + s[n..] && Take(s, n).value < Pow(10, n)
  {
    hide Pad, Number;
    PadBack(s[..n]);
    NumberBound(s[..n]);
    assert s == s[..n] + s[n..];
  }

  lemma {:induction false} NumberBound(s: string)
    requires Digits(s)
    ensures Number(s) < Pow(10, |s|)
  {
    if s != "" {
      NumberBound(s[..|s| - 1]);
    }
  }

  lemma YearSound(s: string) returns (form: YearForm)
    requires Year(s).Some?
    ensures ValidYear(Year(s).value.0, form) && s == YearText(Year(s).value.0, form) + Year(s).value.1
  {
    hide Pad, Number, Pow;
    Powers10();
    if StartsWith(s, '+') || StartsWith(s, '-') {
      form := SignedSix;
      TakeSound(s[1..], 6);
      assert s == [s[0]] + s[1..] && s[1..][6..] == s[7..];
    } else {
      TakeSound(s, 4);
      if |s| >= 6 && IsDigit(s[4]) && IsDigit(s[5]) {
        form := SixDigits;
        SixSound(s);
      } else {
        form := FourDigits;
      }
    }
  }

  lemma SixSound(s: string)
    requires |s| >= 6 && Take(s, 4).Some? && IsDigit(s[4]) && IsDigit(s[5])
    ensures
      var n := Take(s, 4).value * 100 + Val(s[4]) * 10 + Val(s[5]);
      n < 1000000 && s == Pad(n, 6) + s[6..]
  {
    hide Pad, Number, Pow;
    Powers10();
    NumberSnoc(s[..4], s[4]);
    NumberSnoc(s[..4] + [s[4]], s[5]);
    assert s[..6] == s[..4] + [s[4]] + [s[5]];
    NumberBound(s[..6]);
    PadBack(s[..6]);
    assert s == s[..6] + s[6..];
  }

  lemma DaySound(y: int, s: string)
    requires MonthDay(y, s).Some?
    ensures
      var (m, d, rest) := MonthDay(y, s).value;
      IsDate(Date(y, m, d)) && s == DayText(Date(y, m, d)) + rest
  {
    hide Pad, Take;
    TakeSound(s[1..], 2);
    TakeSound(s[4..], 2);
    var (m, d, rest) := MonthDay(y, s).value;
    assert s[1..][2..] == s[3..] && s[4..][2..] == s[6..];
    assert s == "-" + s[1..] && s[3..] == "-" + s[4..];
    assert s == "-" + (Pad(m, 2) + ("-" + (Pad(d, 2) + rest)));
  }

  lemma HourSound(s: string)
    requires HourMinute(s).Some?
    ensures
      var (h, mi, rest) := HourMinute(s).value;
      && 0 <= h <= 24 && 0 <= mi <= 59 && (h == 24 ==> mi == 0)
      && s == "T" + (Pad(h, 2) + (":" + (Pad(mi, 2) + rest)))
  {
    hide Pad, Take;
    TakeSound(s[1..], 2);
    TakeSound(s[4..], 2);
    assert s[1..][2..] == s[3..] && s[4..][2..] == s[6..];
    assert s == "T" + s[1..] && s[3..] == ":" + s[4..];
  }

  lemma SecondSound(h: int, s: string) returns (second: Option<(nat, Option<nat>)>)
    requires SecondMilli(h, s).Some?
    ensures
      var (sec, ms, rest) := SecondMilli(h, s).value;
      var t := TimeOfDay(0, 0, second);
      && s == SecondText(second) + rest
      && sec == Seconds(t) && ms == Millis(t) && sec <= 59 && ms <= 999
      && (h == 24 ==> sec == 0 && ms == 0)
  {
    hide Pad, Take, Pow;
    Powers10();
    if !StartsWith(s, ':') {
      second := None;
    } else {
      TakeSound(s[1..], 2);
      var sec := Take(s[1..], 2).value;
      assert s[1..][2..] == s[3..] && s == ":" + s[1..];
      if !StartsWith(s[3..], '.') {
        second := Some((sec, None));
      } else {
        TakeSound(s[4..], 3);
        var ms := Take(s[4..], 3).value;
        second := Some((sec, Some(ms)));
        assert s[4..][3..] == s[7..] && s[3..] == "." + s[4..];
      }
    }
  }

  lemma ZoneSound(s: string) returns (z: Zone)
    requires DateParse.Zone(s).Some? && DateParse.Zone(s).value.1 == ""
    ensures ValidZone(z) && s == ZoneText(z)
  {
    hide Pad, Take;
    if s == "" {
      z := NoZone;
    } else if s[0] == 'Z' {
      z := Zulu;
      assert s == [s[0]] + s[1..];
    } else {
      TakeSound(s[1..], 2);
      var west, h := s[0] == '-', Take(s[1..], 2).value;
      assert s[1..][2..] == s[3..] && s == [s[0]] + s[1..];
      if s[3..] == "" || (s[3] != ':' && !IsDigit(s[3])) {
        z := Hours(west, h);
      } else {
        var rest := if s[3] == ':' then s[4..] else s[3..];
        TakeSound(rest, 2);
        var m := Take(rest, 2).value;
        assert rest == Pad(m, 2);
        z := if s[3] == ':' then Colon(west, h, m) else Compact(west, h, m);
        assert s[3] == ':' ==> s[3..] == ":" + s[4..];
      }
    }
  }

  lemma TimeSound(c: Date, s: string, local: int -> Option<int>) returns (t: TimeOfDay, z: Zone)
    requires ParseTime(c, s, local).Some?
    ensures ValidTime(t) && ValidZone(z) && s == TimeText(t) + ZoneText(z)
  {
    hide Pad, HourMinute, SecondMilli, DateParse.Zone, TimeOf, Clip, TimeText, ZoneText, SecondText;
    HourSound(s);
    var (h, mi, s3) := HourMinute(s).value;
    var second := SecondSound(h, s3);
    z := ZoneSound(SecondMilli(h, s3).value.2);
    t := TimeOfDay(h, mi, second);
    TimeShape(t, ZoneText(z));
  }

  lemma IsoSound(s: string, local: int -> Option<int>) returns (x: Iso)
    requires ParseIso(s, local).Some?
    ensures ValidIso(x) && s == IsoSpelling(x)
  {
    hide Year, MonthDay, ParseTime, YearText, DayText, TimeText, ZoneText, CivilDayCount, Clip;
    var form := YearSound(s);
    var (y, s1) := Year(s).value;
    if s1 == "" {
      x := YearOnly(y, form);
    } else {
      DaySound(y, s1);
      var (m, d, s2) := MonthDay(y, s1).value;
      if s2 == "" {
        x := DateOnly(Date(y, m, d), form);
      } else {
        var t, z := TimeSound(Date(y, m, d), s2, local);
        x := DateTime(Date(y, m, d), form, t, z);
      }
    }
  }

  ghost predicate Spells(s: string, x: Iso) {
    ValidIso(x) && s == IsoSpelling(x)
  }

  /** A text is read as a time exactly when it spells something that means that time. */
  lemma IsoExactly(s: string, local: int -> Option<int>, t: Time)
    ensures ParseIso(s, local) == Some(t) <==> exists x :: Spells(s, x) && Meaning(x, local) == Some(t)
  {
    hide ParseIso, IsoSpelling, Meaning, ValidIso;
    if ParseIso(s, local) == Some(t) {
      var x := IsoSound(s, local);
      IsoComplete(x, local);
      assert Spells(s, x);
    }
    forall x | Spells(s, x) && Meaning(x, local) == Some(t)
      ensures ParseIso(s, local) == Some(t)
    {
      IsoComplete(x, local);
    }
  }

  // ---- Times with an offset ----

  /** The clock of time t in a zone that is `ahead` minutes ahead, down to the
      millisecond. */
  function ClockIn(t: int, ahead: int): Parts {
    UtcParts(t + 60000 * ahead)
  }

  function Zoned(t: int, z: Zone): Iso
    requires !z.NoZone?
  {
    var p := ClockIn(t, Ahead(z));
    PartsOfTime(t + 60000 * Ahead(z));
    DateTime(p.date, if 0 <= p.date.year <= 9999 then FourDigits else SignedSix,
             TimeOfDay(p.hour, p.minute, Some((p.second, Some(p.milli)))), z)
  }

  lemma AheadBound(z: Zone)
    requires ValidZone(z) && !z.NoZone?
    ensures -1439 <= Ahead(z) <= 1439
  {
  }

  /** The clock of any zone, written with that zone, is read as the time. */
  lemma ZonedRoundTrip(t: int, z: Zone, local: int -> Option<int>)
    requires -MS_LIMIT <= t <= MS_LIMIT && ValidZone(z) && !z.NoZone?
    ensures ValidIso(Zoned(t, z)) && ParseIso(IsoSpelling(Zoned(t, z)), local) == Some(At(t))
  {
    hide UtcParts, ParseIso, IsoSpelling, TimeOf, Ahead;
    AheadBound(z);
    PartsOfTime(t + 60000 * Ahead(z));
    YearOfTime(t + 60000 * Ahead(z));
    IsoComplete(Zoned(t, z), local);
  }

  /** Every offset of less than a day can be written in the long forms, and one of whole
      hours in the short form. */
  lemma EveryOffset(ahead: int) returns (colon: Zone, compact: Zone)
    requires -1439 <= ahead <= 1439
    ensures ValidZone(colon) && colon.Colon? && Ahead(colon) == ahead
    ensures ValidZone(compact) && compact.Compact? && Ahead(compact) == ahead
    ensures ahead % 60 == 0 ==> Ahead(Hours(ahead < 0, (if ahead < 0 then -ahead else ahead) / 60)) == ahead
  {
    var n := if ahead < 0 then -ahead else ahead;
    colon := Colon(ahead < 0, n / 60, n % 60);
    compact := Compact(ahead < 0, n / 60, n % 60);
  }

  /** toISOString writes the full form with `Z`, four digits where they do. */
  lemma IsoTextIsZulu(t: int)
    requires -MS_LIMIT <= t <= MS_LIMIT
    ensures ValidIso(Zoned(t, Zulu)) && IsoText(t) == IsoSpelling(Zoned(t, Zulu))
  {
    hide Pad, UtcParts;
    YearOfTime(t);
    IsoShape(t);
    var p := UtcParts(t);
    assert t + 60000 * Ahead(Zulu) == t;
    assert IsoYear(p.date.year) == YearText(p.date.year, Zoned(t, Zulu).form);
    ZuluShape(YearText(p.date.year, Zoned(t, Zulu).form), p);
  }

  lemma ZuluShape(y: string, p: Parts)
    requires IsDate(p.date) && 0 <= p.hour && 0 <= p.minute && 0 <= p.second && 0 <= p.milli
    ensures
      var t := TimeOfDay(p.hour, p.minute, Some((p.second, Some(p.milli))));
      y + (DayText(p.date) + (TimeText(t) + ZoneText(Zulu)))
      == y + ("-" + (Pad(p.date.month, 2) + ("-" + (Pad(p.date.day, 2)
         + ("T" + (Pad(p.hour, 2) + (":" + (Pad(p.minute, 2)
         + (":" + (Pad(p.second, 2) + ("." + (Pad(p.milli, 3) + "Z"))))))))))))
  {
    hide Pad;
    var t := TimeOfDay(p.hour, p.minute, Some((p.second, Some(p.milli))));
    TimeShape(t, "Z");
    assert SecondText(t.second) + "Z" == ":" + (Pad(p.second, 2) + ("." + (Pad(p.milli, 3) + "Z")));
  }
}
