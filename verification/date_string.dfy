/** What the engine makes of its own `toString` texts. */
module DateString {
  import opened Basics
  import opened Powers
  import opened Calendar
  import opened DateText
  import opened DateParse
  import opened DateEngine

  /** The text of a time.  `off` is what the sampler of local offsets answers for it:
      the clock shows the time less the offset, the weekday is that of the time plus
      the offset, and the offset ends the text. */
  function StringText(t: int, off: int): string {
    var p := UtcParts(t - off);
    PartsOfTime(t - off);
    WEEKDAYS[((t + off) / MS_PER_DAY + 4) % 7] + " " + MONTHS[p.date.month - 1] + " " + Pad(p.date.day, 2)
    + " " + Year4(p.date.year) + " " + Clock(p) + " " + OffsetText(off)
  }

  lemma StringShape(w: string, m: string, d: string, y: string, c: string, z: string)
    ensures w + " " + m + " " + d + " " + y + " " + c + " " + z
         == w + (" " + (m + (" " + (d + (" " + (y + (" " + (c + (" " + z)))))))))
  {
  }

  lemma PlainWeekday(w: int)
    requires 0 <= w < 7
    ensures IsWord(WEEKDAYS[w]) && !EndsWith(WEEKDAYS[w], ',')
  {
  }

  lemma StringWords(t: int, off: int)
    requires -MS_LIMIT <= t <= MS_LIMIT && -MS_PER_DAY < off < MS_PER_DAY
    ensures
      var p := UtcParts(t - off);
      && IsDate(p.date) && 0 <= p.hour < 24 && 0 <= p.minute < 60 && 0 <= p.second < 60
      && Words(StringText(t, off)) == [WEEKDAYS[((t + off) / MS_PER_DAY + 4) % 7], MONTHS[p.date.month - 1],
                                       Pad(p.date.day, 2), Year4(p.date.year), Clock(p), OffsetText(off)]
  {
    hide Pad, UtcParts, Year4, Clock, Words, IsWord, OffsetText;
    var p := UtcParts(t - off);
    PartsOfTime(t - off);
    YearOfTime(t - off);
    PlainWeekday(((t + off) / MS_PER_DAY + 4) % 7);
    MonthFound(p.date.month);
    TwoFound(p.date.day);
    YearFound(p.date.year);
    ClockFound(p);
    OffsetFound(off);
    var w, m, d, y, c, z := WEEKDAYS[((t + off) / MS_PER_DAY + 4) % 7], MONTHS[p.date.month - 1], Pad(p.date.day, 2),
      Year4(p.date.year), Clock(p), OffsetText(off);
    SixWords(w, m, d, y, c, z);
    StringShape(w, m, d, y, c, z);
  }

  /** What the text is read as: the time it shows, less the minutes read from its
      end. */
  lemma StringRead(t: int, off: int)
    requires -MS_LIMIT <= t <= MS_LIMIT && -MS_PER_DAY < off < MS_PER_DAY
    ensures
      var shown := t - off;
      ParseEngine(StringText(t, off)) == Some(Clip(shown - shown % 1000 - MinutesRead(off) * 60000))
  {
    hide Pad, UtcParts, Year4, Clock, Words, StringText, MonthIndex, SignedYear, Hms, Take, CivilDayCount, OffsetText,
      Offset, MinutesRead;
    var p := UtcParts(t - off);
    PartsOfTime(t - off);
    YearOfTime(t - off);
    StringWords(t, off);
    PlainWeekday(((t + off) / MS_PER_DAY + 4) % 7);
    MonthFound(p.date.month);
    TwoFound(p.date.day);
    YearFound(p.date.year);
    ClockFound(p);
    OffsetFound(off);
    MilliOf(t - off);
  }

  /** The minutes read have the sign of the offset. */
  lemma MinutesSign(off: int)
    ensures off >= 0 ==> MinutesRead(off) >= 0
    ensures off <= 0 ==> MinutesRead(off) <= 0
    ensures -1000 < off < 1000 ==> MinutesRead(off) == 0
  {
  }

  /** Reading back a `toString` text gives the time, down to the second, exactly when
      the clock shown is in the same second as the time, which for offsets of whole
      seconds means that there is no offset. */
  lemma StringToSecond(t: int, off: int)
    requires -MS_LIMIT <= t <= MS_LIMIT && -MS_PER_DAY < off < MS_PER_DAY
    ensures ParseEngine(StringText(t, off)) == Some(At(t - t % 1000)) <==> (t - off) / 1000 == t / 1000
    ensures off % 1000 == 0 ==> (ParseEngine(StringText(t, off)) == Some(At(t - t % 1000)) <==> off == 0)
  {
    hide ParseEngine, StringText, MinutesRead, UtcParts;
    StringRead(t, off);
    MinutesSign(off);
    MilliOf(t);
    SameSecond(t, off, MinutesRead(off));
  }

  lemma SameSecond(t: int, off: int, v: int)
    requires (off >= 0 ==> v >= 0) && (off <= 0 ==> v <= 0) && (-1000 < off < 1000 ==> v == 0)
    ensures
      var shown := t - off;
      shown - shown % 1000 - v * 60000 == t - t % 1000 <==> shown / 1000 == t / 1000
    ensures off % 1000 == 0 ==> ((t - off) / 1000 == t / 1000 <==> off == 0)
  {
    DivIdentity(t, 1000);
    DivIdentity(t - off, 1000);
    DivIdentity(off, 1000);
    var a, b := t / 1000, (t - off) / 1000;
    assert t - t % 1000 == 1000 * a && (t - off) - (t - off) % 1000 == 1000 * b;
  }

  /** And it gives the time itself exactly when that has no milliseconds and the
      offset is none, or less than a second to the west. */
  lemma StringRoundTrip(t: int, off: int)
    requires -MS_LIMIT <= t <= MS_LIMIT && -MS_PER_DAY < off < MS_PER_DAY
    ensures ParseEngine(StringText(t, off)) == Some(At(t)) <==> t % 1000 == 0 && -1000 < off <= 0
  {
    hide ParseEngine, StringText, MinutesRead;
    StringRead(t, off);
    MinutesSign(off);
    DivIdentity(t, 1000);
    DivIdentity(t - off, 1000);
  }

  /** With an offset of half an hour the text of time zero is read as an hour
      earlier. */
  lemma HalfHourMisread()
    ensures ParseEngine(StringText(0, 1800000)) == Some(At(-3600000))
  {
    hide ParseEngine, StringText;
    StringRead(0, 1800000);
  }

  /** The weekday of the text is that of the time plus the offset.  It is the one of the
      day shown exactly when time plus offset and time less offset are on one day. */
  lemma StringWeekday(t: int, off: int)
    requires -MS_PER_DAY < off < MS_PER_DAY
    ensures StringText(t, off)[..3] == WEEKDAYS[WeekdayWalk((t + off) / MS_PER_DAY)]
    ensures StringText(t, off)[..3] == WEEKDAYS[WeekdayWalk((t - off) / MS_PER_DAY)]
            <==> (t + off) / MS_PER_DAY == (t - off) / MS_PER_DAY
  {
    hide WeekdayWalk, StringText;
    var a, b := (t + off) / MS_PER_DAY, (t - off) / MS_PER_DAY;
    WeekdayIs(a);
    WeekdayIs(b);
    StartsWithDay(t, off);
    NearDays(t + off, t - off);
    SameWeekday(a, b);
    DistinctNames((a + 4) % 7, (b + 4) % 7);
  }

  lemma StartsWithDay(t: int, off: int)
    ensures StringText(t, off)[..3] == WEEKDAYS[((t + off) / MS_PER_DAY + 4) % 7]
  {
    hide Pad, UtcParts, Year4, Clock, OffsetText;
    PartsOfTime(t - off);
    ThreeLetters(((t + off) / MS_PER_DAY + 4) % 7);
  }

  lemma NearDays(x: int, y: int)
    requires -2 * MS_PER_DAY < x - y < 2 * MS_PER_DAY
    ensures -2 <= x / MS_PER_DAY - y / MS_PER_DAY <= 2
  {
  }

  lemma SameWeekday(a: int, b: int)
    requires -2 <= a - b <= 2
    ensures (a + 4) % 7 == (b + 4) % 7 <==> a == b
  {
  }

  lemma DistinctNames(v: int, w: int)
    requires 0 <= v < 7 && 0 <= w < 7
    ensures WEEKDAYS[v] == WEEKDAYS[w] <==> v == w
  {
  }

  /** With an offset of half an hour the text of time zero shows the evening of a
      Wednesday and calls it Thursday. */
  lemma WrongWeekday()
    ensures StringText(0, 1800000)[..3] == "Thu"
    ensures UtcParts(0 - 1800000).date == Date(1969, 12, 31) && WEEKDAYS[WeekdayWalk(-1)] == "Wed"
  {
    hide StringText, WeekdayWalk;
    StartsWithDay(0, 1800000);
    WeekdayIs(-1);
    assert UtcParts(-1800000).date == CivilFromDays(-1);
    EveOfEpoch();
  }

  lemma EveOfEpoch()
    ensures CivilFromDays(-1) == Date(1969, 12, 31)
  {
    assert CivilDayCount(1969, 12, 31) == -1;
    DateOfCount(Date(1969, 12, 31));
  }
}
