/** What the engine's digits add up to when some of them are misread. */
module NumberReading {
  import opened Basics
  import opened Powers
  import opened DecimalDigits
  import opened SignificantDigits
  import opened NumberRounding

  /** The digit of m / 2^q at place i + 1 after the point. */
  function FracDigit(m: nat, q: nat, i: nat): (d: nat)
    ensures d < 10
  {
    DivIdentity(Pow(10, i) * m, Pow(2, q));
    QuotientDigit(Pow(10, i) * m % Pow(2, q), Pow(2, q));
    10 * (Pow(10, i) * m % Pow(2, q)) / Pow(2, q)
  }

  /** The whole number made of the digits down to place f, as they are read. */
  function ReadValue(m: nat, q: nat, f: nat, read: nat -> nat): nat {
    if f == 0 then m / Pow(2, q) else 10 * ReadValue(m, q, f - 1, read) + read(FracDigit(m, q, f - 1))
  }

  /** Readings that keep digits digits and zero zero. */
  ghost predicate Tame(read: nat -> nat) {
    read(0) == 0 && forall d :: 0 <= d < 10 ==> read(d) < 10
  }

  lemma ReadIsTame(q: nat)
    ensures Tame(Read(q))
  {
    hide ReadLimit;
    ReadFacts(q, 0);
    forall d | 0 <= d < 10
      ensures Read(q)(d) < 10
    {
      ReadSmall(q, d);
    }
  }

  // ---- The expansion collects the digits read ----

  /** The state of an expansion after `pos` fractional digits. */
  ghost predicate Reading(m: nat, q: nat, r: nat, digits: seq<nat>, e: Option<int>, pos: nat, read: nat -> nat) {
    && AllDigits(digits)
    && r == Pow(10, pos) * m % Pow(2, q)
    && DigitsValue(digits) == ReadValue(m, q, pos, read)
    && (digits != [] ==> digits[0] != 0 && e == Some(|digits| - 1 - pos))
    && (digits == [] ==> e.None?)
  }

  lemma ReadingStep(m: nat, q: nat, r: nat, digits: seq<nat>, e: Option<int>, pos: nat, read: nat -> nat)
    requires Reading(m, q, r, digits, e, pos, read) && Tame(read)
    ensures
      var d, r' := read(10 * r / Pow(2, q)), 10 * r % Pow(2, q);
      if d == 0 && e.None? then Reading(m, q, r', digits, None, pos + 1, read)
      else Reading(m, q, r', digits + [d], if e.None? then Some(-(pos + 1)) else e, pos + 1, read)
  {
    hide Pow;
    var w, t := Pow(2, q), Pow(10, pos);
    assert 10 * r / w == FracDigit(m, q, pos);
    var d := read(10 * r / w);
    NextPlace(m, w, t);
    TenTimesPow(pos);
    DigitsSnoc(digits, d);
  }

  lemma TenTimesPow(pos: nat)
    ensures Pow(10, pos + 1) == 10 * Pow(10, pos)
  {
  }

  lemma {:induction false} ExpandReads(m: nat, q: nat, r: nat, count: nat, digits: seq<nat>, e: Option<int>, pos: nat, read: nat -> nat)
    returns (r': nat, pos': nat)
    requires pos <= q && r < Pow(2, q) && r % Pow(2, pos) == 0
    requires Reading(m, q, r, digits, e, pos, read) && Tame(read)
    ensures
      var (ds, e') := Expand(r, q, count, digits, e, pos, read);
      Reading(m, q, r', ds, e', pos', read) && (|ds| >= count || r' == 0)
    decreases q - pos
  {
    hide Pow, DigitsValue, Reading, Tame;
    if |digits| >= count || r == 0 {
      r', pos' := r, pos;
    } else {
      ExpandProgress(r, q, pos);
      ReadingStep(m, q, r, digits, e, pos, read);
      var d, r1 := read(10 * r / Pow(2, q)), 10 * r % Pow(2, q);
      if d == 0 && e.None? {
        r', pos' := ExpandReads(m, q, r1, count, digits, None, pos + 1, read);
      } else {
        r', pos' := ExpandReads(m, q, r1, count, digits + [d], if e.None? then Some(-(pos + 1)) else e, pos + 1, read);
      }
    }
  }

  // ---- Places of the value read ----

  lemma {:induction false} ReadValuePrefix(m: nat, q: nat, i: nat, j: nat, read: nat -> nat)
    requires i <= j && Tame(read)
    ensures ReadValue(m, q, j, read) / Pow(10, j - i) == ReadValue(m, q, i, read)
    decreases j - i
  {
    hide FracDigit;
    if i < j {
      ReadValuePrefix(m, q, i, j - 1, read);
      var v, d := ReadValue(m, q, j - 1, read), read(FracDigit(m, q, j - 1));
      DivUnique(10 * v + d, 10, v, d);
      DivDiv(10 * v + d, 10, Pow(10, j - 1 - i));
    }
  }

  /** Nothing is left after i fractional digits. */
  predicate Ended(m: nat, q: nat, i: nat) {
    Pow(10, i) * m % Pow(2, q) == 0
  }

  lemma NoMoreDigits(m: nat, q: nat, j: nat)
    requires Ended(m, q, j)
    ensures FracDigit(m, q, j) == 0 && Ended(m, q, j + 1)
  {
    hide Pow;
    NextPlace(m, Pow(2, q), Pow(10, j));
    TenTimesPow(j);
    DivUnique(0, Pow(2, q), 0, 0);
  }

  lemma NextRead(m: nat, q: nat, f: nat, read: nat -> nat)
    ensures ReadValue(m, q, f + 1, read) == 10 * ReadValue(m, q, f, read) + read(FracDigit(m, q, f))
  {
  }

  lemma {:induction false} ReadValueEnds(m: nat, q: nat, i: nat, j: nat, read: nat -> nat)
    requires i <= j && Tame(read) && Ended(m, q, i)
    ensures Ended(m, q, j)
    ensures ReadValue(m, q, j, read) == ReadValue(m, q, i, read) * Pow(10, j - i)
    decreases j - i
  {
    hide Pow, FracDigit, Ended, ReadValue;
    if i == j {
      PowZero();
    } else {
      ReadValueEnds(m, q, i, j - 1, read);
      NoMoreDigits(m, q, j - 1);
      NextRead(m, q, j - 1, read);
      TenTimesPow(j - 1 - i);
      var v, t := ReadValue(m, q, i, read), Pow(10, j - 1 - i);
      assert v * (10 * t) == 10 * (v * t);
    }
  }

  /** The significant digits of an expansion, cut at place i, are the value read
      down to that place. */
  lemma CutReads(m: nat, q: nat, r: nat, count: nat, ds: seq<nat>, e: int, pos: nat, i: nat, read: nat -> nat)
    requires Reading(m, q, r, ds, Some(e), pos, read) && Tame(read)
    requires |ds| >= count || r == 0
    requires e + 1 + i <= count
    ensures CutValue(ds, e + 1 + i) == ReadValue(m, q, i, read)
  {
    hide Pow, DigitsValue, Tame, FracDigit;
    if i <= pos {
      ReadValuePrefix(m, q, i, pos, read);
      var j := pos - i;
      if j <= |ds| {
        CutPrefix(ds, |ds| - j);
      } else {
        CutNothing(ds, e + 1 + i);
        DigitsBound(ds);
        PowMonotone(10, |ds|, j);
        DivUnique(DigitsValue(ds), Pow(10, j), 0, DigitsValue(ds));
      }
    } else {
      ReadValueEnds(m, q, pos, i, read);
      CutPads(ds, e + 1 + i);
    }
  }

  lemma CutNothing(ds: seq<nat>, k: int)
    requires k <= 0
    ensures CutValue(ds, k) == 0
  {
  }

  /** The same for an expansion that found no digit at all. */
  lemma NothingReads(m: nat, q: nat, pos: nat, i: nat, read: nat -> nat)
    requires Reading(m, q, 0, [], None, pos, read) && Tame(read)
    ensures ReadValue(m, q, i, read) == 0
  {
    hide Pow, FracDigit, Tame;
    if i <= pos {
      ReadValuePrefix(m, q, i, pos, read);
      DivUnique(0, Pow(10, pos - i), 0, 0);
    } else {
      ReadValueEnds(m, q, pos, i, read);
    }
  }

  /** The digits found for m / 2^q: cut at place i they are the value read. */
  ghost predicate Reads(m: nat, q: nat, digits: seq<nat>, e: int, count: nat) {
    && AllDigits(digits) && (digits != [] ==> digits[0] != 0) && (digits == [] ==> e == 0)
    && forall i: nat :: e + 1 + i <= count ==> CutValue(digits, e + 1 + i) == ReadValue(m, q, i, Read(q))
  }

  lemma DigitsRead(m: nat, q: nat, count: nat)
    requires m > 0 && q > 0 && count > 0
    ensures Reads(m, q, Digits(m, 0 - q, count, Read(q)).0, Digits(m, 0 - q, count, Read(q)).1, count)
  {
    hide Pow, Expand, Reading, Read, CutValue, DigitsValue, ReadValue;
    var w := Pow(2, q);
    var ds := NatDigits(m / w);
    DivIdentity(m, w);
    FirstPlace(m);
    ReadIsTame(q);
    StartReading(m, q);
    var r', pos' := ExpandReads(m, q, m % w, count, ds, FirstExponent(ds), 0, Read(q));
    var res := Expand(m % w, q, count, ds, FirstExponent(ds), 0, Read(q));
    EndReading(m, q, r', count, res.0, res.1, pos');
  }

  lemma StartReading(m: nat, q: nat)
    ensures
      var ds := NatDigits(m / Pow(2, q));
      Reading(m, q, m % Pow(2, q), ds, FirstExponent(ds), 0, Read(q))
  {
    hide DigitsValue, NatDigits, Read;
    FirstPlace(m);
    NatDigitsValue(m / Pow(2, q));
  }

  lemma EndReading(m: nat, q: nat, r: nat, count: nat, ds: seq<nat>, e: Option<int>, pos: nat)
    requires Reading(m, q, r, ds, e, pos, Read(q)) && (|ds| >= count || r == 0) && count > 0
    ensures Reads(m, q, ds, if e.Some? then e.value else 0, count)
  {
    hide Pow, Read, CutValue, DigitsValue, ReadValue;
    ReadIsTame(q);
    var e' := if e.Some? then e.value else 0;
    forall i: nat | e' + 1 + i <= count
      ensures CutValue(ds, e' + 1 + i) == ReadValue(m, q, i, Read(q))
    {
      if e.Some? {
        CutReads(m, q, r, count, ds, e.value, pos, i, Read(q));
      } else {
        NothingReads(m, q, pos, i, Read(q));
        CutOfNothing(e' + 1 + i);
      }
    }
  }

  lemma {:induction false} CutOfNothing(k: nat)
    ensures CutValue([], k) == 0
  {
    if k > 0 {
      CutOfNothing(k - 1);
      CutSnoc([], k - 1);
    }
  }

  // ---- Misread digits never cancel out ----

  /** Reading without loss gives the whole part at that place. */
  lemma {:induction false} ExactValue(m: nat, q: nat, f: nat)
    ensures ReadValue(m, q, f, Exact) == Pow(10, f) * m / Pow(2, q)
  {
    if f == 0 {
      FirstPlace(m);
    } else {
      ExactValue(m, q, f - 1);
      NextPlace(m, Pow(2, q), Pow(10, f - 1));
    }
  }

  /** Every digit down to place f is below the limit of the shift. */
  predicate AllReadable(m: nat, q: nat, f: nat) {
    forall i: nat :: i < f ==> FracDigit(m, q, i) < ReadLimit(q)
  }

  /** One misread digit and the value is at least two short. */
  lemma {:induction false} Gap(m: nat, q: nat, f: nat)
    ensures AllReadable(m, q, f) ==> ReadValue(m, q, f, Read(q)) == ReadValue(m, q, f, Exact)
    ensures !AllReadable(m, q, f) ==> ReadValue(m, q, f, Read(q)) + 2 <= ReadValue(m, q, f, Exact)
  {
    hide Read, ReadLimit, FracDigit;
    if f > 0 {
      Gap(m, q, f - 1);
      var d := FracDigit(m, q, f - 1);
      ReadFacts(q, d);
      ReadShort(q, d);
      assert AllReadable(m, q, f) <==> AllReadable(m, q, f - 1) && d < ReadLimit(q);
    }
  }

  lemma ReadShort(q: nat, d: nat)
    requires d < 10
    ensures Read(q)(d) < 10
    ensures d >= ReadLimit(q) ==> Read(q)(d) + 2 <= d
  {
    hide ReadLimit;
    ReadSmall(q, d);
    var k := ReadLimit(q);
    if d >= k {
      DivIdentity(d, k);
      DivMonotone(k, d, k);
      DivUnique(k, k, 1, 0);
      MulLe(1, d / k, k);
      DivIdentity(d % k, 256);
    }
  }

  // ---- What toFixed prints ----

  /** The number of units of the last decimal that toFixed prints. */
  function Printed(m: nat, p: int, f: nat): nat {
    if p >= 0 then m * Pow(2, p) * Pow(10, f)
    else ReadValue(m, -p, f, Read(-p)) + HalfUp(Read(-p)(FracDigit(m, -p, f)))
  }

  /** No digit shown is misread, and the first one not shown stays on its side of
      the half. */
  predicate PrintsRight(m: nat, p: int, f: nat) {
    p >= 0 ||
    (AllReadable(m, -p, f) && HalfUp(Read(-p)(FracDigit(m, -p, f))) == HalfUp(FracDigit(m, -p, f)))
  }

  /** toFixed prints the nearest decimal, the larger one on a tie, exactly when no
      digit is misread in a way that matters. */
  lemma PrintedIff(m: nat, p: int, f: nat)
    ensures Nearest(Printed(m, p, f), Num(m, p, f), Den(p, f)) <==> PrintsRight(m, p, f)
  {
    if p >= 0 {
      WholeNearest(m, p, f);
    } else {
      hide Pow, Read, ReadLimit, FracDigit, ReadValue, Nearest, Num, Den, AllReadable;
      var q := -p;
      Gap(m, q, f);
      var good := ReadValue(m, q, f, Exact) + HalfUp(FracDigit(m, q, f));
      ExactNearest(m, q, f);
      NearestOnly(Printed(m, p, f), good, Num(m, p, f), Den(p, f));
    }
  }

  lemma NearestOnly(a: nat, b: nat, num: nat, den: nat)
    requires den > 0 && Nearest(b, num, den)
    ensures Nearest(a, num, den) <==> a == b
  {
    if a < b {
      MulLe(2 * a + 1, 2 * b - 1, den);
    } else if b < a {
      MulLe(2 * b + 1, 2 * a - 1, den);
    }
  }

  lemma WholeNearest(m: nat, p: nat, f: nat)
    ensures Nearest(m * Pow(2, p) * Pow(10, f), Num(m, p, f), Den(p, f))
  {
    assert Num(m, p, f) == m * Pow(2, p) * Pow(10, f);
    assert Den(p, f) == 1;
  }

  lemma WholePartIsFloor(num: nat, den: nat)
    requires den > 0
    ensures IsFloor(num / den, num, den)
  {
    DivIdentity(num, den);
    MulPlusOne(num / den, den);
  }

  lemma NumOfFraction(m: nat, q: nat, f: nat)
    requires q > 0
    ensures Num(m, 0 - q, f) == Pow(10, f) * m && Den(0 - q, f) == Pow(2, q)
    ensures 10 * Num(m, 0 - q, f) == Pow(10, f + 1) * m
  {
    TenTimesPow(f);
  }

  lemma ExactNearest(m: nat, q: nat, f: nat)
    requires q > 0
    ensures Nearest(ReadValue(m, q, f, Exact) + HalfUp(FracDigit(m, q, f)), Num(m, 0 - q, f), Den(0 - q, f))
  {
    hide Pow, FracDigit, Nearest, IsFloor, Num, Den, ReadValue;
    NumOfFraction(m, q, f);
    var num, den := Num(m, 0 - q, f), Den(0 - q, f);
    var v, g := ReadValue(m, q, f, Exact), FracDigit(m, q, f);
    ExactValue(m, q, f);
    ExactValue(m, q, f + 1);
    NextExact(m, q, f);
    WholePartIsFloor(num, den);
    WholePartIsFloor(10 * num, den);
    HalfUpNearest(v, g, num, den);
  }

  lemma NextExact(m: nat, q: nat, f: nat)
    ensures ReadValue(m, q, f + 1, Exact) == 10 * ReadValue(m, q, f, Exact) + FracDigit(m, q, f)
  {
    hide FracDigit;
  }

  /** With q mod 32 at most 28, or no fraction at all, it always prints right. */
  lemma PrintsRightUpTo28(m: nat, p: int, f: nat)
    requires p >= 0 || (-p) % 32 <= 28
    ensures PrintsRight(m, p, f)
  {
    if p < 0 {
      hide FracDigit;
      PowMonotone(2, 4, 32 - (-p) % 32);
      assert Pow(2, 4) == 16;
      ReadFacts(-p, FracDigit(m, -p, f));
    }
  }

  /** 3 / 1024 = 0.0029296875 prints with four decimals as 0.0021. */
  lemma MisprintedDouble()
    ensures Printed(3 * Pow(2, 51), -61, 4) == 21
    ensures !PrintsRight(3 * Pow(2, 51), -61, 4)
  {
    hide FracDigit;
    PowAdd(2, 10, 51);
    assert Pow(2, 10) == 1024 && Pow(2, 3) == 8;
    MisprintedDigits(Pow(2, 51));
    MisprintedValue(3 * Pow(2, 51));
  }

  lemma MisprintedValue(m: nat)
    requires ReadLimit(61) == 8 && m / Pow(2, 61) == 0
    requires FracDigit(m, 61, 0) == 0 && FracDigit(m, 61, 1) == 0 && FracDigit(m, 61, 2) == 2
    requires FracDigit(m, 61, 3) == 9 && FracDigit(m, 61, 4) == 2
    ensures Printed(m, -61, 4) == 21 && !PrintsRight(m, -61, 4)
  {
    hide FracDigit, Pow, ReadLimit;
    assert Read(61)(0) == 0 && Read(61)(2) == 2 && Read(61)(9) == 1;
    NextRead(m, 61, 0, Read(61));
    NextRead(m, 61, 1, Read(61));
    NextRead(m, 61, 2, Read(61));
    NextRead(m, 61, 3, Read(61));
  }

  /** A digit from the remainder before it. */
  lemma DigitFrom(m: nat, q: nat, i: nat, a: nat, r: nat, d: nat, r': nat)
    requires r < Pow(2, q) && Pow(10, i) * m == a * Pow(2, q) + r
    requires r' < Pow(2, q) && 10 * r == d * Pow(2, q) + r'
    ensures FracDigit(m, q, i) == d
  {
    hide Pow;
    DivUnique(Pow(10, i) * m, Pow(2, q), a, r);
    DivUnique(10 * r, Pow(2, q), d, r');
  }

  lemma SmallPowers()
    ensures Pow(10, 0) == 1 && Pow(10, 1) == 10 && Pow(10, 2) == 100
    ensures Pow(10, 3) == 1000 && Pow(10, 4) == 10000
  {
  }

  lemma MisprintedDigits(k: nat)
    requires k > 0 && Pow(2, 61) == 1024 * k
    ensures 3 * k / Pow(2, 61) == 0
    ensures FracDigit(3 * k, 61, 0) == 0 && FracDigit(3 * k, 61, 1) == 0
    ensures FracDigit(3 * k, 61, 2) == 2 && FracDigit(3 * k, 61, 3) == 9 && FracDigit(3 * k, 61, 4) == 2
  {
    hide Pow, FracDigit;
    SmallPowers();
    DivUnique(3 * k, 1024 * k, 0, 3 * k);
    DigitFrom(3 * k, 61, 0, 0, 3 * k, 0, 30 * k);
    DigitFrom(3 * k, 61, 1, 0, 30 * k, 0, 300 * k);
    DigitFrom(3 * k, 61, 2, 0, 300 * k, 2, 952 * k);
    DigitFrom(3 * k, 61, 3, 2, 952 * k, 9, 304 * k);
    DigitFrom(3 * k, 61, 4, 29, 304 * k, 2, 992 * k);
  }
}
