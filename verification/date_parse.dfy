/** Reading dates: the strict ISO form and the engine's own UTC form. */
module DateParse {
  import opened Basics
  import opened Powers
  import opened Calendar
  import opened DateText

  // ---- Pieces of a text ----

  /** A number of exactly n digits at the front. */
  function Take(s: string, n: nat): Option<nat> {
    if |s| < n || !Digits(s[..n]) then None else Some(Number(s[..n]))
  }

  predicate StartsWith(s: string, c: char) { s != "" && s[0] == c }

  /** The year: six digits after a sign, else four or six. */
  function Year(s: string): Option<(int, string)> {
    if StartsWith(s, '+') || StartsWith(s, '-') then
      var v := Take(s[1..], 6);
      if v.None? || (s[0] == '-' && v.value == 0) then None
      else
        var n: int := v.value;
        Some((if s[0] == '-' then -n else n, s[7..]))
    else
      var v := Take(s, 4);
      if v.None? then None
      else if |s| >= 6 && IsDigit(s[4]) && IsDigit(s[5]) then
        Some((v.value * 100 + Val(s[4]) * 10 + Val(s[5]), s[6..]))
      else Some((v.value, s[4..]))
  }

  /** `-MM-DD`, a day of that month. */
  function MonthDay(y: int, s: string): Option<(int, int, string)> {
    if !StartsWith(s, '-') then None
    else
      var m := Take(s[1..], 2);
      if m.None? || !(1 <= m.value <= 12) then None
      else if !StartsWith(s[3..], '-') then None
      else
        var d := Take(s[4..], 2);
        if d.None? || !(1 <= d.value <= 31) || d.value > DaysInMonth(y, m.value) then None
        else Some((m.value, d.value, s[6..]))
  }

  /** `THH:mm`, where 24 is only allowed as 24:00. */
  function HourMinute(s: string): Option<(int, int, string)> {
    if !StartsWith(s, 'T') then None
    else
      var h := Take(s[1..], 2);
      if h.None? || h.value > 24 then None
      else if !StartsWith(s[3..], ':') then None
      else
        var mi := Take(s[4..], 2);
        if mi.None? || mi.value > 59 || (h.value == 24 && mi.value != 0) then None
        else Some((h.value, mi.value, s[6..]))
  }

  /** `:ss` and `.sss`, both optional. */
  function SecondMilli(h: int, s: string): Option<(int, int, string)> {
    if !StartsWith(s, ':') then Some((0, 0, s))
    else
      var sec := Take(s[1..], 2);
      if sec.None? || sec.value > 59 || (h == 24 && sec.value != 0) then None
      else if !StartsWith(s[3..], '.') then Some((sec.value, 0, s[3..]))
      else
        var ms := Take(s[4..], 3);
        if ms.None? || (h == 24 && ms.value != 0) then None
        else Some((sec.value, ms.value, s[7..]))
  }

  /** `Z` or an offset in hours and perhaps minutes; nothing means local time. */
  function Zone(s: string): Option<(Option<int>, string)> {
    if s == "" then Some((None, s))
    else if s[0] == 'Z' then Some((Some(0), s[1..]))
    else if s[0] != '+' && s[0] != '-' then None
    else
      var sign := if s[0] == '-' then -1 else 1;
      var oh := Take(s[1..], 2);
      if oh.None? || oh.value > 23 then None
      else if s[3..] == "" || (s[3] != ':' && !IsDigit(s[3])) then Some((Some(sign * (oh.value * 60)), s[3..]))
      else
        var rest := if s[3] == ':' then s[4..] else s[3..];
        var om := Take(rest, 2);
        if om.None? || om.value > 59 then None
        else Some((Some(sign * (oh.value * 60 + om.value)), rest[2..]))
  }

  /** The whole text.  `local` takes a local time to the time it is. */
  function ParseIso(s: string, local: int -> Option<int>): Option<Time> {
    var ys := Year(s);
    if ys.None? then None
    else
      var (y, s1) := ys.value;
      if s1 == "" then Some(Clip(CivilDayCount(y, 1, 1) * MS_PER_DAY))
      else
        var ds := MonthDay(y, s1);
        if ds.None? then None
        else
          var (m, d, s2) := ds.value;
          if s2 == "" then Some(Clip(CivilDayCount(y, m, d) * MS_PER_DAY))
          else ParseTime(Date(y, m, d), s2, local)
  }

  function ParseTime(c: Date, s2: string, local: int -> Option<int>): Option<Time> {
    var hs := HourMinute(s2);
    if hs.None? then None
    else
      var (h, mi, s3) := hs.value;
      var ss := SecondMilli(h, s3);
      if ss.None? then None
      else
        var (sec, ms, s4) := ss.value;
        var zs := Zone(s4);
        if zs.None? || zs.value.1 != "" then None
        else
          var naive := TimeOf(c, h, mi, sec, ms);
          if zs.value.0.Some? then Some(Clip(naive - zs.value.0.value * 60000))
          else
            var ts := local(naive);
            if ts.None? then None else Some(Clip(ts.value))
  }

  // ---- Reading what was printed ----

  lemma TakePad(n: nat, w: nat, rest: string)
    requires w > 0 && n < Pow(10, w)
    ensures Take(Pad(n, w) + rest, w) == Some(n)
    ensures (Pad(n, w) + rest)[w..] == rest && |Pad(n, w)| == w
    ensures Digits(Pad(n, w))
  {
    hide Pad, Number, Pow;
    PadNumber(n, w);
    PadLength(n, w);
    assert (Pad(n, w) + rest)[..w] == Pad(n, w);
  }

  lemma YearRead(y: int, rest: string)
    requires -275760 <= y <= 275760 && StartsWith(rest, '-')
    ensures Year(IsoYear(y) + rest) == Some((y, rest))
  {
    hide Pad, Number, Pow;
    SmallPowers();
    if 0 <= y <= 9999 {
      TakePad(y, 4, rest);
      var s := Pad(y, 4) + rest;
      assert s[0] == Pad(y, 4)[0] && s[4] == '-';
    } else {
      var n := if y < 0 then -y else y;
      TakePad(n, 6, rest);
      var s := IsoYear(y) + rest;
      assert s[1..] == Pad(n, 6) + rest;
      assert s[7..] == (Pad(n, 6) + rest)[6..];
    }
  }

  lemma MonthDayRead(c: Date, rest: string)
    requires IsDate(c)
    ensures MonthDay(c.year, "-" + (Pad(c.month, 2) + ("-" + (Pad(c.day, 2) + rest)))) == Some((c.month, c.day, rest))
  {
    hide Pad, Number, Pow, Take;
    SmallPowers();
    var s2 := "-" + (Pad(c.day, 2) + rest);
    var s := "-" + (Pad(c.month, 2) + s2);
    TakePad(c.month, 2, s2);
    TakePad(c.day, 2, rest);
    assert s[1..] == Pad(c.month, 2) + s2;
    assert s[3..] == s2;
    assert s[4..] == s2[1..] == Pad(c.day, 2) + rest;
    assert s[6..] == rest;
  }

  lemma HourMinuteRead(h: nat, mi: nat, rest: string)
    requires h < 24 && mi < 60
    ensures HourMinute("T" + (Pad(h, 2) + (":" + (Pad(mi, 2) + rest)))) == Some((h, mi, rest))
  {
    hide Pad, Number, Pow, Take;
    SmallPowers();
    var s2 := ":" + (Pad(mi, 2) + rest);
    var s := "T" + (Pad(h, 2) + s2);
    TakePad(h, 2, s2);
    TakePad(mi, 2, rest);
    assert s[1..] == Pad(h, 2) + s2;
    assert s[3..] == s2;
    assert s[4..] == s2[1..] == Pad(mi, 2) + rest;
    assert s[6..] == rest;
  }

  lemma SecondMilliRead(h: nat, sec: nat, ms: nat, rest: string)
    requires h < 24 && sec < 60 && ms < 1000
    ensures SecondMilli(h, ":" + (Pad(sec, 2) + ("." + (Pad(ms, 3) + rest)))) == Some((sec, ms, rest))
  {
    hide Pad, Number, Pow, Take;
    SmallPowers();
    var s2 := "." + (Pad(ms, 3) + rest);
    var s := ":" + (Pad(sec, 2) + s2);
    TakePad(sec, 2, s2);
    TakePad(ms, 3, rest);
    assert s[1..] == Pad(sec, 2) + s2;
    assert s[3..] == s2;
    assert s[4..] == s2[1..] == Pad(ms, 3) + rest;
    assert s[7..] == rest;
  }

  /** The ISO text, grouped from the right. */
  lemma IsoShape(t: int)
    ensures
      var p := UtcParts(t);
      && IsDate(p.date) && 0 <= p.hour < 24 && 0 <= p.minute < 60 && 0 <= p.second < 60 && 0 <= p.milli < 1000
      && IsoText(t) == IsoYear(p.date.year) + ("-" + (Pad(p.date.month, 2) + ("-" + (Pad(p.date.day, 2)
         + ("T" + (Pad(p.hour, 2) + (":" + (Pad(p.minute, 2)
         + (":" + (Pad(p.second, 2) + ("." + (Pad(p.milli, 3) + "Z"))))))))))))
  {
    hide Pad, UtcParts, IsoYear;
    PartsOfTime(t);
  }

  /** Reading the ISO text of a time gives the time back. */
  lemma IsoRoundTrip(t: int, local: int -> Option<int>)
    requires -MS_LIMIT <= t <= MS_LIMIT
    ensures ParseIso(IsoText(t), local) == Some(At(t))
  {
    hide Pad, UtcParts, IsoYear, IsoText, Year, MonthDay, HourMinute, SecondMilli, CivilDayCount, ParseTime;
    var p := UtcParts(t);
    IsoShape(t);
    YearOfTime(t);
    PartsOfTime(t);
    var s4 := ":" + (Pad(p.second, 2) + ("." + (Pad(p.milli, 3) + "Z")));
    var s3 := "T" + (Pad(p.hour, 2) + (":" + (Pad(p.minute, 2) + s4)));
    var s2 := "-" + (Pad(p.date.month, 2) + ("-" + (Pad(p.date.day, 2) + s3)));
    YearRead(p.date.year, s2);
    MonthDayRead(p.date, s3);
    IsoTimeRead(p, t, local);
  }

  lemma IsoTimeRead(p: Parts, t: int, local: int -> Option<int>)
    requires 0 <= p.hour < 24 && 0 <= p.minute < 60 && 0 <= p.second < 60 && 0 <= p.milli < 1000
    requires TimeOf(p.date, p.hour, p.minute, p.second, p.milli) == t && -MS_LIMIT <= t <= MS_LIMIT
    ensures
      var s4 := ":" + (Pad(p.second, 2) + ("." + (Pad(p.milli, 3) + "Z")));
      ParseTime(p.date, "T" + (Pad(p.hour, 2) + (":" + (Pad(p.minute, 2) + s4))), local) == Some(At(t))
  {
    hide Pad, HourMinute, SecondMilli, TimeOf;
    var s4 := ":" + (Pad(p.second, 2) + ("." + (Pad(p.milli, 3) + "Z")));
    HourMinuteRead(p.hour, p.minute, s4);
    SecondMilliRead(p.hour, p.second, p.milli, "Z");
  }

  // ---- The scanner ----

  lemma DropDrop(s: string, i: nat, j: nat)
    requires i + j <= |s|
    ensures s[i..][j..] == s[i + j..]
  {
  }

  /** Two digits at a place of the text. */
  method TwoDigits(b: string, pos: nat) returns (r: Option<int>)
    requires pos <= |b|
    ensures r == Take(b[pos..], 2)
  {
    var s := b[pos..];
    if |s| < 2 || !IsDigit(s[0]) || !IsDigit(s[1]) {
      assert |s| >= 2 ==> s[..2][0] == s[0] && s[..2][1] == s[1];
      return None;
    }
    TwoNumber(s);
    return Some(Val(s[0]) * 10 + Val(s[1]));
  }

  lemma TwoNumber(s: string)
    requires |s| >= 2 && IsDigit(s[0]) && IsDigit(s[1])
    ensures Take(s, 2) == Some(Val(s[0]) * 10 + Val(s[1]))
  {
    NumberSnoc("", s[0]);
    NumberSnoc([s[0]], s[1]);
    assert "" + [s[0]] == [s[0]];
    assert s[..2] == [s[0]] + [s[1]];
  }

  /** A run of n digits, read one after the other. */
  method ReadDigits(b: string, pos: nat, n: nat) returns (r: Option<int>)
    requires pos <= |b|
    ensures r == Take(b[pos..], n)
  {
    ghost var s := b[pos..];
    if |b| - pos < n {
      return None;
    }
    var v, i := 0, 0;
    while i < n
      invariant i <= n && Digits(s[..i]) && v == Number(s[..i])
    {
      if !IsDigit(b[pos + i]) {
        assert s[..n][i] == b[pos + i];
        return None;
      }
      NumberSnoc(s[..i], s[i]);
      assert s[..i + 1] == s[..i] + [s[i]];
      v := 10 * v + Val(b[pos + i]);
      i := i + 1;
    }
    return Some(v);
  }

  method ScanYear(b: string) returns (r: Option<(int, nat)>)
    ensures r.Some? ==> r.value.1 <= |b| && Year(b) == Some((r.value.0, b[r.value.1..]))
    ensures r.None? ==> Year(b) == None
  {
    hide Number;
    var pos := 0;
    if pos < |b| && (b[pos] == '+' || b[pos] == '-') {
      var neg := b[pos] == '-';
      pos := pos + 1;
      var v := ReadDigits(b, pos, 6);
      if v.None? || (neg && v.value == 0) {
        return None;
      }
      pos := pos + 6;
      return Some((if neg then -v.value else v.value, pos));
    }
    assert b[0..] == b;
    var v := ReadDigits(b, pos, 4);
    if v.None? {
      return None;
    }
    var y := v.value;
    pos := pos + 4;
    if pos + 2 <= |b| && IsDigit(b[pos]) && IsDigit(b[pos + 1]) {
      y := y * 100 + Val(b[pos]) * 10 + Val(b[pos + 1]);
      pos := pos + 2;
    }
    return Some((y, pos));
  }

  method ScanMonthDay(b: string, y: int, start: nat) returns (r: Option<(int, int, nat)>)
    requires start < |b|
    ensures r.Some? ==> r.value.2 <= |b| && MonthDay(y, b[start..]) == Some((r.value.0, r.value.1, b[r.value.2..]))
    ensures r.None? ==> MonthDay(y, b[start..]) == None
  {
    hide Take;
    ghost var s := b[start..];
    var pos := start;
    if b[pos] != '-' {
      return None;
    }
    pos := pos + 1;
    DropDrop(b, start, 1);
    var m := TwoDigits(b, pos);
    if m.None? || !(1 <= m.value <= 12) {
      return None;
    }
    TakeLength(b[pos..], 2);
    pos := pos + 2;
    DropDrop(b, start, 3);
    if pos >= |b| || b[pos] != '-' {
      return None;
    }
    pos := pos + 1;
    DropDrop(b, start, 4);
    var d := TwoDigits(b, pos);
    if d.None? || !(1 <= d.value <= 31) || d.value > DaysInMonth(y, m.value) {
      return None;
    }
    TakeLength(b[pos..], 2);
    pos := pos + 2;
    DropDrop(b, start, 6);
    return Some((m.value, d.value, pos));
  }

  lemma TakeLength(s: string, n: nat)
    ensures Take(s, n).Some? ==> |s| >= n
  {
  }

  method ScanHourMinute(b: string, start: nat) returns (r: Option<(int, int, nat)>)
    requires start < |b|
    ensures r.Some? ==> r.value.2 <= |b| && HourMinute(b[start..]) == Some((r.value.0, r.value.1, b[r.value.2..]))
    ensures r.None? ==> HourMinute(b[start..]) == None
  {
    hide Take;
    var pos := start;
    if b[pos] != 'T' {
      return None;
    }
    pos := pos + 1;
    DropDrop(b, start, 1);
    var h := TwoDigits(b, pos);
    if h.None? || h.value > 24 {
      return None;
    }
    TakeLength(b[pos..], 2);
    pos := pos + 2;
    DropDrop(b, start, 3);
    if pos >= |b| || b[pos] != ':' {
      return None;
    }
    pos := pos + 1;
    DropDrop(b, start, 4);
    var mi := TwoDigits(b, pos);
    if mi.None? || mi.value > 59 || (h.value == 24 && mi.value != 0) {
      return None;
    }
    TakeLength(b[pos..], 2);
    pos := pos + 2;
    DropDrop(b, start, 6);
    return Some((h.value, mi.value, pos));
  }

  method ScanSecondMilli(b: string, h: int, start: nat) returns (r: Option<(int, int, nat)>)
    requires start <= |b|
    ensures r.Some? ==> r.value.2 <= |b| && SecondMilli(h, b[start..]) == Some((r.value.0, r.value.1, b[r.value.2..]))
    ensures r.None? ==> SecondMilli(h, b[start..]) == None
  {
    hide Take;
    var pos := start;
    if pos >= |b| || b[pos] != ':' {
      return Some((0, 0, pos));
    }
    pos := pos + 1;
    DropDrop(b, start, 1);
    var sec := TwoDigits(b, pos);
    if sec.None? || sec.value > 59 || (h == 24 && sec.value != 0) {
      return None;
    }
    TakeLength(b[pos..], 2);
    pos := pos + 2;
    DropDrop(b, start, 3);
    if pos >= |b| || b[pos] != '.' {
      return Some((sec.value, 0, pos));
    }
    pos := pos + 1;
    DropDrop(b, start, 4);
    var ms := ReadDigits(b, pos, 3);
    if ms.None? || (h == 24 && ms.value != 0) {
      return None;
    }
    TakeLength(b[pos..], 3);
    pos := pos + 3;
    DropDrop(b, start, 7);
    return Some((sec.value, ms.value, pos));
  }

  method ScanZone(b: string, start: nat) returns (r: Option<(Option<int>, nat)>)
    requires start <= |b|
    ensures r.Some? ==> r.value.1 <= |b| && Zone(b[start..]) == Some((r.value.0, b[r.value.1..]))
    ensures r.None? ==> Zone(b[start..]) == None
  {
    hide Take;
    var pos := start;
    if pos == |b| {
      return Some((None, pos));
    }
    if b[pos] == 'Z' {
      return Some((Some(0), pos + 1));
    }
    if b[pos] != '+' && b[pos] != '-' {
      return None;
    }
    var sign := if b[pos] == '-' then -1 else 1;
    pos := pos + 1;
    DropDrop(b, start, 1);
    var oh := TwoDigits(b, pos);
    if oh.None? || oh.value > 23 {
      return None;
    }
    TakeLength(b[pos..], 2);
    pos := pos + 2;
    DropDrop(b, start, 3);
    var om := 0;
    if pos < |b| && (b[pos] == ':' || IsDigit(b[pos])) {
      if b[pos] == ':' {
        pos := pos + 1;
        DropDrop(b, start, 4);
      }
      var o := TwoDigits(b, pos);
      if o.None? || o.value > 59 {
        return None;
      }
      TakeLength(b[pos..], 2);
      om := o.value;
      DropDrop(b, pos, 2);
      pos := pos + 2;
    }
    return Some((Some(sign * (oh.value * 60 + om)), pos));
  }

  /** The scanner moves through the text from left to right and computes what the
      grammar above gives. */
  method ParseIsoStrict(b: string, local: int -> Option<int>) returns (r: Option<Time>)
    ensures r == ParseIso(b, local)
  {
    hide Year, MonthDay, HourMinute, SecondMilli, Zone, CivilDayCount;
    var ys := ScanYear(b);
    if ys.None? {
      return None;
    }
    var (y, pos) := ys.value;
    if pos == |b| {
      return Some(Clip(CivilDayCount(y, 1, 1) * MS_PER_DAY));
    }
    var ds := ScanMonthDay(b, y, pos);
    if ds.None? {
      return None;
    }
    var (m, d, pos2) := ds.value;
    if pos2 == |b| {
      return Some(Clip(CivilDayCount(y, m, d) * MS_PER_DAY));
    }
    var hs := ScanHourMinute(b, pos2);
    if hs.None? {
      return None;
    }
    var (h, mi, pos3) := hs.value;
    var ss := ScanSecondMilli(b, h, pos3);
    if ss.None? {
      return None;
    }
    var (sec, ms, pos4) := ss.value;
    var zs := ScanZone(b, pos4);
    if zs.None? || zs.value.1 != |b| {
      return None;
    }
    var naive := TimeOf(Date(y, m, d), h, mi, sec, ms);
    if zs.value.0.Some? {
      return Some(Clip(naive - zs.value.0.value * 60000));
    }
    var ts := local(naive);
    if ts.None? {
      return None;
    }
    return Some(Clip(ts.value));
  }
}
