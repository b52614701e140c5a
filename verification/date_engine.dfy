/** The engine reads its own `toUTCString` texts. */
module DateEngine {
  import opened Basics
  import opened Powers
  import opened Calendar
  import opened DateText
  import opened DateParse

  const I64_MAX: int := 0x7FFF_FFFF_FFFF_FFFF

  // ---- Splitting ----

  predicate IsSpace(c: char) {
    var u := c as int;
    || 9 <= u <= 13 || u == 32 || u == 0x85 || u == 0xA0 || u == 0x1680 || 0x2000 <= u <= 0x200A
    || u == 0x2028 || u == 0x2029 || u == 0x202F || u == 0x205F || u == 0x3000
  }

  predicate IsWord(s: string) {
    s != "" && forall i :: 0 <= i < |s| ==> !IsSpace(s[i])
  }

  /** How many characters there are up to the next one that `stop` holds of. */
  function Reach(s: string, stop: char -> bool): (n: nat)
    ensures n <= |s| && (n < |s| ==> stop(s[n]))
    ensures forall i :: 0 <= i < n ==> !stop(s[i])
  {
    if s == "" || stop(s[0]) then 0 else 1 + Reach(s[1..], stop)
  }

  /** The words between white space. */
  function Words(s: string): seq<string>
    decreases |s|
  {
    if s == "" then []
    else if IsSpace(s[0]) then Words(s[1..])
    else
      var n := Reach(s, IsSpace);
      [s[..n]] + Words(s[n..])
  }

  /** The pieces between colons. */
  function Pieces(s: string): seq<string>
    decreases |s|
  {
    var n := Reach(s, c => c == ':');
    if n == |s| then [s] else [s[..n]] + Pieces(s[n + 1..])
  }

  lemma {:induction false} ReachStops(a: string, rest: string, stop: char -> bool)
    requires forall i :: 0 <= i < |a| ==> !stop(a[i])
    requires rest == "" || stop(rest[0])
    ensures Reach(a + rest, stop) == |a|
  {
    if a == "" {
      assert a + rest == rest;
    } else {
      assert (a + rest)[1..] == a[1..] + rest;
      ReachStops(a[1..], rest, stop);
    }
  }

  lemma WordThen(w: string, rest: string)
    requires IsWord(w)
    ensures Words(w + (" " + rest)) == [w] + Words(rest)
    ensures Words(w) == [w]
  {
    var tail := " " + rest;
    ReachStops(w, tail, IsSpace);
    assert (w + tail)[..|w|] == w && (w + tail)[|w|..] == tail;
    assert tail[1..] == rest;
    ReachStops(w, "", IsSpace);
    assert w + "" == w;
    assert w[..|w|] == w && w[|w|..] == "";
  }

  lemma PieceThen(w: string, rest: string)
    requires Digits(w)
    ensures Pieces(w + (":" + rest)) == [w] + Pieces(rest)
    ensures Pieces(w) == [w]
  {
    var tail := ":" + rest;
    ReachStops(w, tail, c => c == ':');
    assert (w + tail)[..|w|] == w && (w + tail)[|w| + 1..] == rest;
    ReachStops(w, "", c => c == ':');
    assert w + "" == w;
  }

  // ---- Reading ----

  /** Where a month name stands in the list. */
  function MonthIndex(s: string, i: nat): Option<int>
    requires i <= 12
    decreases 12 - i
  {
    if i == 12 then None else if MONTHS[i] == s then Some(i) else MonthIndex(s, i + 1)
  }

  /** A year with an optional minus; None if it leaves the 64-bit range on the way. */
  function SignedYear(s: string): Option<int> {
    var neg := StartsWith(s, '-');
    var rest := if neg then s[1..] else s;
    if rest == "" || !Digits(rest) then None
    else
      var n: int := Number(rest);
      if n > I64_MAX then None else Some(if neg then -n else n)
  }

  function Hms(s: string): Option<(int, int, int)> {
    var ps := Pieces(s);
    if |ps| != 3 then None
    else
      var h, mi, sec := Take(ps[0], 2), Take(ps[1], 2), Take(ps[2], 2);
      if h.None? || mi.None? || sec.None? then None else Some((h.value, mi.value, sec.value))
  }

  /** `GMT`, or `GMT` with a sign and digits that are taken as minutes. */
  function Offset(s: string): Option<int> {
    if s == "GMT" then Some(0)
    else if !("GMT" <= s) then None
    else
      var sign := if s[3] == '-' then -1 else 1;
      if !Digits(s[4..]) then None else Some(sign * Number(s[4..]))
  }

  predicate EndsWith(s: string, c: char) { s != "" && s[|s| - 1] == c }

  function ParseEngine(s: string): Option<Time> {
    var w := Words(s);
    if |w| != 6 then None
    else
      var utc := EndsWith(w[0], ',');
      var day, mon, off := if utc then w[1] else w[2], if utc then w[2] else w[1], if utc then "GMT" else w[5];
      var m, d, y, t, o := MonthIndex(mon, 0), Take(day, 2), SignedYear(w[3]), Hms(w[4]), Offset(off);
      if m.None? || d.None? || y.None? || !(-275760 <= y.value <= 275760) || t.None? || o.None? then None
      else
        var (h, mi, sec) := t.value;
        Some(Clip(TimeOf(Date(y.value, m.value + 1, d.value), h, mi, sec, 0) - o.value * 60000))
  }

  // ---- Round trip ----

  lemma MonthFound(m: int)
    requires 1 <= m <= 12
    ensures MonthIndex(MONTHS[m - 1], 0) == Some(m - 1)
    ensures IsWord(MONTHS[m - 1])
  {
    MonthFoundFrom(MONTHS[m - 1], m - 1, 0);
  }

  lemma {:induction false} MonthFoundFrom(s: string, k: nat, i: nat)
    requires i <= k < 12 && s == MONTHS[k]
    ensures MonthIndex(s, i) == Some(k)
    decreases k - i
  {
    if i < k {
      assert MONTHS[i] != MONTHS[k];
      MonthFoundFrom(s, k, i + 1);
    }
  }

  lemma YearFound(y: int)
    requires -275760 <= y <= 275760
    ensures SignedYear(Year4(y)) == Some(y) && IsWord(Year4(y))
  {
    hide Pad, Number;
    var n := if y < 0 then -y else y;
    PadNumber(n, 4);
    var s := Year4(y);
    if y < 0 {
      assert s[1..] == Pad(n, 4);
    } else {
      assert s[0] == Pad(n, 4)[0];
    }
  }

  lemma ClockFound(p: Parts)
    requires 0 <= p.hour < 24 && 0 <= p.minute < 60 && 0 <= p.second < 60
    ensures Hms(Clock(p)) == Some((p.hour, p.minute, p.second)) && IsWord(Clock(p))
  {
    hide Pad, Number, Pow, Take, IsWord, Digits, Pieces;
    TwoFound(p.hour);
    TwoFound(p.minute);
    TwoFound(p.second);
    ThreePieces(Pad(p.hour, 2), Pad(p.minute, 2), Pad(p.second, 2));
  }

  lemma ThreePieces(a: string, b: string, c: string)
    requires Digits(a) && Digits(b) && Digits(c)
    ensures Pieces(a + ":" + b + ":" + c) == [a, b, c] && IsWord(a + ":" + b + ":" + c)
  {
    hide Pieces;
    assert a + ":" + b + ":" + c == a + (":" + (b + (":" + c)));
    PieceThen(a, b + (":" + c));
    PieceThen(b, c);
    PieceThen(c, "");
  }

  lemma TwoFound(n: nat)
    requires n < 100
    ensures Take(Pad(n, 2), 2) == Some(n) && Digits(Pad(n, 2)) && IsWord(Pad(n, 2))
  {
    hide Pad, Number, Pow;
    SmallPowers();
    TakePad(n, 2, "");
    assert Pad(n, 2) + "" == Pad(n, 2);
  }

  lemma WeekdayWord(w: int)
    requires 0 <= w < 7
    ensures IsWord(WEEKDAYS[w] + ",") && |WEEKDAYS[w]| == 3
  {
  }

  lemma SixWords(w: string, d: string, m: string, y: string, c: string, z: string)
    requires IsWord(w) && IsWord(d) && IsWord(m) && IsWord(y) && IsWord(c) && IsWord(z)
    ensures Words(w + (" " + (d + (" " + (m + (" " + (y + (" " + (c + (" " + z)))))))))) == [w, d, m, y, c, z]
  {
    hide Words, IsWord;
    var s4 := c + (" " + z);
    var s3 := y + (" " + s4);
    var s2 := m + (" " + s3);
    var s1 := d + (" " + s2);
    WordThen(w, s1);
    WordThen(d, s2);
    WordThen(m, s3);
    WordThen(y, s4);
    WordThen(c, z);
    WordThen(z, "");
  }

  lemma UtcWords(t: int)
    requires -MS_LIMIT <= t <= MS_LIMIT
    ensures
      var p := UtcParts(t);
      && IsDate(p.date) && 0 <= p.hour < 24 && 0 <= p.minute < 60 && 0 <= p.second < 60 && 0 <= p.weekday < 7
      && Words(UtcText(t)) == [WEEKDAYS[p.weekday] + ",", Pad(p.date.day, 2), MONTHS[p.date.month - 1],
                               Year4(p.date.year), Clock(p), "GMT"]
  {
    hide Pad, UtcParts, Year4, Clock, Words, IsWord;
    var p := UtcParts(t);
    PartsOfTime(t);
    YearOfTime(t);
    WeekdayWord(p.weekday);
    TwoFound(p.date.day);
    MonthFound(p.date.month);
    YearFound(p.date.year);
    ClockFound(p);
    GmtWord();
    var w, d, m, y, c := WEEKDAYS[p.weekday], Pad(p.date.day, 2), MONTHS[p.date.month - 1], Year4(p.date.year), Clock(p);
    SixWords(w + ",", d, m, y, c, "GMT");
    UtcShape(w, d, m, y, c);
  }

  lemma GmtWord()
    ensures IsWord("GMT")
  {
  }

  lemma UtcShape(w: string, d: string, m: string, y: string, c: string)
    ensures w + ", " + d + " " + m + " " + y + " " + c + " GMT"
         == w + "," + (" " + (d + (" " + (m + (" " + (y + (" " + (c + (" " + "GMT")))))))))
  {
  }

  /** Reading the UTC text of a time gives the time down to the second. */
  lemma UtcRoundTrip(t: int)
    requires -MS_LIMIT <= t <= MS_LIMIT
    ensures ParseEngine(UtcText(t)) == Some(At(t - t % 1000))
  {
    hide Pad, UtcParts, Year4, Clock, Words, UtcText, MonthIndex, SignedYear, Hms, Take, CivilDayCount;
    var p := UtcParts(t);
    PartsOfTime(t);
    YearOfTime(t);
    UtcWords(t);
    WeekdayWord(p.weekday);
    TwoFound(p.date.day);
    MonthFound(p.date.month);
    YearFound(p.date.year);
    ClockFound(p);
    MilliOf(t);
  }

  lemma MilliOf(t: int)
    ensures UtcParts(t).milli == t % 1000
    ensures -MS_LIMIT <= t ==> -MS_LIMIT <= t - t % 1000
  {
    hide CivilFromDays;
    var q, r := t / MS_PER_DAY, t % MS_PER_DAY;
    DivShift(r, 1000, 86400 * q);
    assert r + (86400 * q) * 1000 == t;
  }

  // ---- Offsets ----

  /** `GMT` and an offset in hours and minutes, as `toString` ends. */
  function OffsetText(offsetMs: int): string {
    var min := Quot(offsetMs, 60000);
    var n := if min < 0 then -min else min;
    "GMT" + (if min < 0 then "-" else "+") + Pad(n / 60, 2) + Pad(n % 60, 2)
  }

  /** The minutes that are read from it: hours count as hundreds of minutes. */
  function MinutesRead(offsetMs: int): int {
    var min := Quot(offsetMs, 60000);
    var n := if min < 0 then -min else min;
    (if min < 0 then -1 else 1) * (100 * (n / 60) + n % 60)
  }

  lemma OffsetFound(offsetMs: int)
    requires -MS_PER_DAY < offsetMs < MS_PER_DAY
    ensures Offset(OffsetText(offsetMs)) == Some(MinutesRead(offsetMs)) && IsWord(OffsetText(offsetMs))
  {
    hide Pad, Number;
    var min := Quot(offsetMs, 60000);
    var n := if min < 0 then -min else min;
    var a, b := Pad(n / 60, 2), Pad(n % 60, 2);
    TwoFound(n / 60);
    TwoFound(n % 60);
    FourDigits(n / 60, n % 60);
    var s := OffsetText(offsetMs);
    assert s[4..] == a + b;
    assert |s| > 4 && "GMT" <= s;
  }

  /** So the minutes of the token are understood exactly when there are less than
      sixty. */
  lemma OffsetRead(offsetMs: int)
    requires -MS_PER_DAY < offsetMs < MS_PER_DAY
    ensures
      var min := Quot(offsetMs, 60000);
      Offset(OffsetText(offsetMs)) == Some(min) <==> -60 < min < 60
  {
    hide Offset, OffsetText;
    OffsetFound(offsetMs);
  }

  lemma FourDigits(a: nat, b: nat)
    requires a < 100 && b < 100
    ensures Digits(Pad(a, 2) + Pad(b, 2)) && Number(Pad(a, 2) + Pad(b, 2)) == 100 * a + b
  {
    hide Pad, Number, Pow;
    SmallPowers();
    PadNumber(a, 2);
    PadNumber(b, 2);
    PadLength(a, 2);
    PadLength(b, 2);
    var s, t := Pad(a, 2), Pad(b, 2);
    assert t == [t[0]] + [t[1]] && "" + [t[0]] == [t[0]];
    NumberSnoc("", t[0]);
    NumberSnoc([t[0]], t[1]);
    NumberSnoc(s, t[0]);
    NumberSnoc(s + [t[0]], t[1]);
    assert s + t == s + [t[0]] + [t[1]];
    NumberEmpty();
  }

  lemma NumberEmpty()
    ensures Number("") == 0
  {
  }

  // ---- The loops ----

  lemma {:induction false} NumberGrows(s: string, i: nat)
    requires Digits(s) && i <= |s|
    ensures Digits(s[..i]) && Number(s[..i]) <= Number(s)
    decreases |s|
  {
    if i == |s| {
      assert s[..i] == s;
    } else {
      NumberGrows(s[..|s| - 1], i);
      assert s[..|s| - 1][..i] == s[..i];
    }
  }

  /** The year is accumulated digit by digit, giving up when it leaves 64 bits. */
  method ParseSignedYear(s: string) returns (r: Option<int>)
    ensures r == SignedYear(s)
  {
    hide Number;
    var neg := StartsWith(s, '-');
    var rest := if neg then s[1..] else s;
    if rest == "" || !Digits(rest) {
      return None;
    }
    var y: int := 0;
    NumberEmpty();
    var i := 0;
    while i < |rest|
      invariant i <= |rest| && y == Number(rest[..i]) <= I64_MAX
    {
      NumberSnoc(rest[..i], rest[i]);
      assert rest[..i + 1] == rest[..i] + [rest[i]];
      NumberGrows(rest, i + 1);
      if y * 10 > I64_MAX || y * 10 + Val(rest[i]) > I64_MAX {
        return None;
      }
      y := y * 10 + Val(rest[i]);
      i := i + 1;
    }
    assert rest[..|rest|] == rest;
    return Some(if neg then -y else y);
  }

  /** Some leading digits of the offset already make a number that does not fit in 64
      bits. */
  predicate TooLong(s: string) {
    "GMT" < s && exists i :: 0 <= i <= |s| - 4 && Digits(s[4..][..i]) && Number(s[4..][..i]) > I64_MAX
  }

  /** The minutes are accumulated digit by digit; `overflow` says that they leave 64
      bits. */
  method ReadOffset(s: string) returns (r: Option<int>, overflow: bool)
    ensures overflow <==> TooLong(s)
    ensures !overflow ==> r == Offset(s)
  {
    hide Number;
    if s == "GMT" {
      return Some(0), false;
    }
    if !("GMT" <= s) {
      return None, false;
    }
    var sign := if s[3] == '-' then -1 else 1;
    var rest := s[4..];
    var om: int := 0;
    NumberEmpty();
    var i := 0;
    while i < |rest|
      invariant i <= |rest| && Digits(rest[..i]) && om == Number(rest[..i]) <= I64_MAX
      invariant forall j :: 0 <= j <= i ==> Digits(rest[..j]) && Number(rest[..j]) <= I64_MAX
    {
      if !IsDigit(rest[i]) {
        return None, false;
      }
      NumberSnoc(rest[..i], rest[i]);
      assert rest[..i + 1] == rest[..i] + [rest[i]];
      if om * 10 + Val(rest[i]) > I64_MAX {
        return None, true;
      }
      om := om * 10 + Val(rest[i]);
      i := i + 1;
    }
    assert rest[..|rest|] == rest;
    return Some(sign * om), false;
  }
}
