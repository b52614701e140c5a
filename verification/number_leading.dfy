/** Significant digits: which number toExponential and toPrecision show. */
module NumberLeading {
  import opened Basics
  import opened Powers
  import opened DecimalDigits
  import opened SignificantDigits
  import opened NumberRounding
  import opened NumberReading

  /** The number nearest to num / den, the larger one on a tie. */
  function RoundHalfUp(num: nat, den: nat): (n: nat)
    requires den > 0
    ensures Nearest(n, num, den)
  {
    DivIdentity(2 * num + den, 2 * den);
    var n := (2 * num + den) / (2 * den);
    assert (2 * n - 1) * den == n * (2 * den) - den;
    assert (2 * n + 1) * den == n * (2 * den) + den;
    n
  }

  lemma NearestUnique(n: nat, num: nat, den: nat)
    requires den > 0 && Nearest(n, num, den)
    ensures n == RoundHalfUp(num, den)
  {
    var k := RoundHalfUp(num, den);
    if n < k {
      MulLe(2 * n + 1, 2 * k - 1, den);
    } else if k < n {
      MulLe(2 * k + 1, 2 * n - 1, den);
    }
  }

  /** |x| 10^s rounded. */
  function RoundAt(m: nat, p: int, s: int): nat {
    RoundHalfUp(Num(m, p, s), Den(p, s))
  }

  /** 10^e <= m 2^p < 10^(e + 1). */
  predicate Leading(m: nat, p: int, e: int) {
    Den(p, -e) <= Num(m, p, -e) < 10 * Den(p, -e)
  }

  /** Rounding may carry into one more digit. */
  function Carried(n: nat, e: int, f: nat): (nat, int) {
    if n < Pow(10, f + 1) then (n, e) else (n / 10, e + 1)
  }

  lemma LeadingExponent(m: nat, p: int, count: nat, d: seq<nat>, e: int)
    requires IsExpansion(m, p, count, d, e) && count > 0
    ensures Leading(m, p, e)
  {
    CutIsFloor(m, p, count, d, e, 1);
    hide Pow, Num, Den;
    CutSnoc(d, 0);
    assert Cut(d, 0) == [];
    var v, num, den := CutValue(d, 1), Num(m, p, -e), Den(p, -e);
    MulLe(1, v, den);
    MulLe(v + 1, 10, den);
  }

  /** A positive number has only one leading exponent. */
  lemma {:induction false} LeadingUnique(m: nat, p: int, e1: int, e2: int)
    requires Leading(m, p, e1) && Leading(m, p, e2)
    ensures e1 == e2
  {
    if e1 < e2 {
      LeadingApart(m, p, e1, e2);
    } else if e2 < e1 {
      LeadingApart(m, p, e2, e1);
    }
  }

  lemma LeadingApart(m: nat, p: int, lo: int, hi: int)
    requires lo < hi && Leading(m, p, hi)
    ensures !Leading(m, p, lo)
  {
    // At the lower place the number is at least ten.
    hide Pow, Num, Den;
    var j := hi - lo - 1;
    var num, den := Num(m, p, -lo), Den(p, -lo);
    if Leading(m, p, lo) {
      // floor(x 10^-lo) < 10, so ten places down it is below one.
      var v := num / den;
      DivIdentity(num, den);
      MulPlusOne(v, den);
      assert IsFloor(v, num, den);
      if v >= 10 {
        MulLe(10, v, den);
      }
      DropPlaces(v, m, p, -lo, hi - lo);
      SmallQuotient(v, hi - lo);
    }
  }

  lemma SmallQuotient(v: nat, j: nat)
    requires v < 10 && j > 0
    ensures v / Pow(10, j) == 0
  {
    PowMonotone(10, 1, j);
    DivUnique(v, Pow(10, j), 0, v);
  }

  // ---- The number shown ----

  /** The number made of the first f + 1 digits found, rounded by the next one, and
      the exponent of the first. */
  function Shown(m: nat, p: int, f: nat): (nat, int) {
    var (d, e) := Digits(m, p, f + 2, Reader(p));
    (CutValue(d, f + 1) + HalfUp(Dig(d, f + 1)), e)
  }

  /** No digit shown is misread, nor the next one across the half; et is the leading
      exponent. */
  predicate ShowsRight(m: nat, p: int, f: nat, et: int) {
    f < et || PrintsRight(m, p, f - et)
  }

  /** A true expansion is shown rounded to nearest. */
  lemma ExpansionShown(m: nat, p: int, d: seq<nat>, e: int, f: nat)
    requires IsExpansion(m, p, f + 2, d, e)
    ensures Leading(m, p, e) && CutValue(d, f + 1) + HalfUp(Dig(d, f + 1)) == RoundAt(m, p, f - e)
  {
    LeadingExponent(m, p, f + 2, d, e);
    CutIsFloor(m, p, f + 2, d, e, f + 1);
    CutIsFloor(m, p, f + 2, d, e, f + 2);
    ExpansionDigits(m, p, f + 2, d, e);
    hide Pow, Num, Den, CutValue, Nearest, IsFloor, IsExpansion, RoundHalfUp;
    CutSnoc(d, f + 1);
    var v, g := CutValue(d, f + 1), Dig(d, f + 1);
    NextTen(10 * v + g, m, p, f - e);
    HalfUpNearest(v, g, Num(m, p, f - e), Den(p, f - e));
    NearestUnique(v + HalfUp(g), Num(m, p, f - e), Den(p, f - e));
  }

  lemma ExpansionDigits(m: nat, p: int, count: nat, d: seq<nat>, e: int)
    requires IsExpansion(m, p, count, d, e)
    ensures AllDigits(d)
  {
  }

  lemma ExactShown(m: nat, p: int, f: nat, et: int)
    requires m > 0 && Leading(m, p, et) && Digits(m, p, f + 2, Reader(p)) == Digits(m, p, f + 2, Exact)
    ensures Shown(m, p, f) == (RoundAt(m, p, f - et), et)
  {
    hide Pow, Num, Den, IsExpansion, Digits, Leading, Reader, CutValue, RoundHalfUp;
    DigitsCorrect(m, p, f + 2);
    var (d, e) := Digits(m, p, f + 2, Exact);
    ExpansionShown(m, p, d, e, f);
    LeadingUnique(m, p, e, et);
  }

  // ---- Fractions always show some digit ----

  lemma {:induction false} PowMod5(q: nat)
    ensures Pow(2, q) % 5 != 0
  {
    if q > 0 {
      PowMod5(q - 1);
      var w := Pow(2, q - 1);
      assert Pow(2, q) == 2 * w;
    }
  }

  /** The last digit of a binary fraction is 5. */
  lemma LastDigitIs5(r: nat, q: nat)
    requires 0 < r < Pow(2, q) && 10 * r % Pow(2, q) == 0
    ensures 10 * r / Pow(2, q) == 5
  {
    PowMod5(q);
    hide Pow;
    var w := Pow(2, q);
    DivIdentity(10 * r, w);
    QuotientDigit(r, w);
    var d := 10 * r / w;
    DivIdentity(w, 5);
    var k, j := w / 5, w % 5;
    FiveDivides(d, k, j, 2 * r, w);
  }

  lemma FiveDivides(d: nat, k: nat, j: nat, t: nat, w: nat)
    requires w == 5 * k + j && 1 <= j < 5 && d < 10 && d * w == 5 * t
    ensures d == 0 || d == 5
  {
    assert d * w == 5 * (d * k) + d * j;
    assert d * j == 5 * (t - d * k);
    FiveTimes(d, j, t - d * k);
  }

  lemma FiveTimes(d: nat, j: nat, u: int)
    requires 1 <= j < 5 && d < 10 && d * j == 5 * u
    ensures d == 0 || d == 5
  {
    if j == 1 {
    } else if j == 2 {
      assert d * 2 == 5 * u;
    } else if j == 3 {
      assert d * 3 == 5 * u;
    } else {
      assert d * 4 == 5 * u;
    }
  }

  lemma FiveIsRead(q: nat)
    ensures Read(q)(5) != 0
  {
    var j := 32 - q % 32;
    if j == 1 {
      assert Pow(2, 1) == 2;
    } else if j == 2 {
      assert Pow(2, 2) == 4;
    } else {
      PowMonotone(2, 3, j);
      assert Pow(2, 3) == 8;
      ReadFacts(q, 5);
    }
  }

  lemma {:induction false} SomethingRead(r: nat, q: nat, count: nat, pos: nat)
    requires 0 < r < Pow(2, q) && pos <= q && r % Pow(2, pos) == 0 && count > 0
    ensures Expand(r, q, count, [], None, pos, Read(q)).0 != []
    ensures var e := Expand(r, q, count, [], None, pos, Read(q)).1; e.Some? && e.value <= -(pos + 1)
    decreases q - pos
  {
    hide Pow, Read;
    ExpandProgress(r, q, pos);
    var t, r' := 10 * r / Pow(2, q), 10 * r % Pow(2, q);
    var d := Read(q)(t);
    if d != 0 {
      ExpandKeeps(r', q, count, [] + [d], Some(-(pos + 1)), pos + 1, Read(q));
    } else {
      if r' == 0 {
        LastDigitIs5(r, q);
        FiveIsRead(q);
      } else {
        SomethingRead(r', q, count, pos + 1);
      }
    }
  }

  // ---- When the number shown is right ----

  /** Numbers with a whole part keep their exponent, and if enough of their digits
      are whole, they are shown exactly. */
  lemma WholePartShown(m: nat, q: nat, f: nat)
    requires q > 0 && m / Pow(2, q) > 0
    ensures Digits(m, 0 - q, f + 2, Read(q)).1 == Digits(m, 0 - q, f + 2, Exact).1
         == |NatDigits(m / Pow(2, q))| - 1
    ensures |NatDigits(m / Pow(2, q))| >= f + 2 ==>
              Digits(m, 0 - q, f + 2, Read(q)) == Digits(m, 0 - q, f + 2, Exact)
  {
    hide Pow, NatDigits, Read;
    DivIdentity(m, Pow(2, q));
    FirstPlace(m);
    var ds := NatDigits(m / Pow(2, q));
    var r := m % Pow(2, q);
    ExpandKeeps(r, q, f + 2, ds, FirstExponent(ds), 0, Read(q));
    ExpandKeeps(r, q, f + 2, ds, FirstExponent(ds), 0, Exact);
  }

  /** Digits of a pure fraction start after the point. */
  lemma FractionShown(m: nat, q: nat, f: nat)
    requires q > 0 && m > 0 && m / Pow(2, q) == 0
    ensures Digits(m, 0 - q, f + 2, Read(q)).1 < 0 && Digits(m, 0 - q, f + 2, Read(q)).0 != []
  {
    hide Pow, Read, Expand;
    DivIdentity(m, Pow(2, q));
    FirstPlace(m);
    SomethingRead(m % Pow(2, q), q, f + 2, 0);
  }

  /** At the leading place the exact value is a digit, above it nothing. */
  lemma LeadingValue(m: nat, q: nat, et: int, i: nat)
    requires q > 0 && Leading(m, 0 - q, et)
    ensures i >= -et ==> ReadValue(m, q, i, Exact) >= 1
    ensures i < -et ==> ReadValue(m, q, i, Exact) == 0
  {
    ExactValue(m, q, i);
    NumOfFraction(m, q, i);
    WholePartIsFloor(Num(m, 0 - q, i), Den(0 - q, i));
    var v := ReadValue(m, q, i, Exact);
    hide Pow, Num, Den, ReadValue;
    var num, den := Num(m, 0 - q, -et), Den(0 - q, -et);
    if i < -et {
      // Dropping places from a single digit leaves nothing.
      var u := num / den;
      WholePartIsFloor(num, den);
      if u >= 10 { MulLe(10, u, den); }
      DropPlaces(u, m, 0 - q, -et, -et - i);
      SmallQuotient(u, -et - i);
      FloorOnly(v, 0, Num(m, 0 - q, i), Den(0 - q, i));
    } else {
      DivUnique(0, Pow(10, i + et), 0, 0);
      if v == 0 {
        DropPlaces(0, m, 0 - q, i, i + et);
      }
    }
  }

  lemma FloorOnly(a: nat, b: nat, num: nat, den: nat)
    requires den > 0 && IsFloor(a, num, den) && IsFloor(b, num, den)
    ensures a == b
  {
    if a < b {
      MulLe(a + 1, b, den);
    } else if b < a {
      MulLe(b + 1, a, den);
    }
  }

  /** With the right exponent the number shown is the one toFixed would print at that
      place. */
  lemma SameExponent(m: nat, q: nat, f: nat, e: int)
    requires m > 0 && q > 0 && f >= e && Digits(m, 0 - q, f + 2, Read(q)).1 == e
    ensures Shown(m, 0 - q, f).0 == Printed(m, 0 - q, f - e)
  {
    hide Digits, CutValue, ReadValue, FracDigit, Read;
    ReaderIs(0 - q);
    DigitsRead(m, q, f + 2);
    var d := Digits(m, 0 - q, f + 2, Read(q)).0;
    var s := f - e;
    assert CutValue(d, e + 1 + s) == ReadValue(m, q, s, Read(q));
    assert CutValue(d, e + 1 + (s + 1)) == ReadValue(m, q, s + 1, Read(q));
    NextRead(m, q, s, Read(q));
    CutSnoc(d, f + 1);
  }

  /** With the leading digit lost, the number shown is too small. */
  lemma LostLeader(m: nat, q: nat, f: nat, et: int, e: int)
    requires m > 0 && q > 0 && Leading(m, 0 - q, et) && et < 0
    requires Digits(m, 0 - q, f + 2, Read(q)).1 == e < et
    ensures !AllReadable(m, q, f - et)
    ensures Shown(m, 0 - q, f).0 < RoundAt(m, 0 - q, f - et) * Pow(10, et - e)
  {
    hide Pow, Digits, CutValue, ReadValue, FracDigit, Read, Printed, Leading, AllReadable, RoundAt;
    var s, st, k := f - e, f - et, et - e;
    DigitsRead(m, q, f + 2);
    var d := Digits(m, 0 - q, f + 2, Read(q)).0;
    LeaderMisread(m, q, et, e, d, f);
    SameExponent(m, q, f, e);
    Gap(m, q, st);
    ReadIsTame(q);
    ReadValuePrefix(m, q, st, s, Read(q));
    PrintedBound(m, q, s);
    RoundAtLeast(m, q, st);
    var big, small, t := ReadValue(m, q, s, Read(q)), ReadValue(m, q, st, Read(q)), Pow(10, k);
    TooSmall(Shown(m, 0 - q, f).0, big, small, RoundAt(m, 0 - q, st), t);
  }

  lemma LeaderMisread(m: nat, q: nat, et: int, e: int, d: seq<nat>, f: nat)
    requires m > 0 && q > 0 && Leading(m, 0 - q, et) && e < et < 0 && Reads(m, q, d, e, f + 2)
    ensures !AllReadable(m, q, f - et)
  {
    hide Pow, CutValue, ReadValue, FracDigit, Read, Leading;
    var i := -et;
    assert CutValue(d, e + 1 + i) == ReadValue(m, q, i, Read(q));
    CutNothing(d, e + 1 + i);
    LeadingValue(m, q, et, i);
    Gap(m, q, i);
    FewerReadable(m, q, i, f - et);
  }

  lemma FewerReadable(m: nat, q: nat, i: nat, j: nat)
    requires i <= j
    ensures AllReadable(m, q, j) ==> AllReadable(m, q, i)
  {
  }

  lemma PrintedBound(m: nat, q: nat, s: nat)
    requires q > 0
    ensures Printed(m, 0 - q, s) <= ReadValue(m, q, s, Read(q)) + 1
  {
  }

  /** Rounding does not go below the whole part. */
  lemma RoundAtLeast(m: nat, q: nat, s: nat)
    requires q > 0
    ensures ReadValue(m, q, s, Exact) <= RoundAt(m, 0 - q, s)
  {
    hide Pow, Num, Den, ReadValue, FracDigit, RoundHalfUp, Nearest;
    ExactNearest(m, q, s);
    NearestUnique(ReadValue(m, q, s, Exact) + HalfUp(FracDigit(m, q, s)), Num(m, 0 - q, s), Den(0 - q, s));
  }

  lemma TooSmall(n: nat, big: nat, small: nat, r: nat, t: nat)
    requires t > 0 && n <= big + 1 && big / t == small && small + 2 <= r
    ensures n < r * t
  {
    DivIdentity(big, t);
    MulLe(small + 2, r, t);
    assert (small + 2) * t == small * t + t + t;
  }

  /** The exponent shown is not above the leading one, it is that one if the digits
      are right, and the number shown is the rounded one exactly if they are. */
  ghost predicate Judged(m: nat, p: int, f: nat, et: int, n: nat, e: int) {
    && e <= et
    && (ShowsRight(m, p, f, et) ==> e == et)
    && (n == RoundAt(m, p, f - et) * Pow(10, et - e) <==> ShowsRight(m, p, f, et))
  }

  /** toExponential and toPrecision show the nearest number of that many digits,
      larger on a tie, exactly when no digit is misread in a way that matters; else
      the number they show is another one. */
  lemma ShownIff(m: nat, p: int, f: nat, et: int)
    requires m > 0 && Leading(m, p, et)
    ensures Judged(m, p, f, et, Shown(m, p, f).0, Shown(m, p, f).1)
  {
    hide Pow, Num, Den, Digits, Leading, RoundAt, PrintsRight, ShowsRight, Judged, Shown;
    ReaderIs(p);
    if p >= 0 {
      ExactShown(m, p, f, et);
      WholePrintsRight(m, p, f, et);
      JudgedRight(m, p, f, et, RoundAt(m, p, f - et));
    } else {
      DivIdentity(m, Pow(2, -p));
      MulPos(m / Pow(2, -p), Pow(2, -p));
      if m / Pow(2, -p) > 0 {
        WithWholePart(m, -p, f, et);
      } else {
        WithoutWholePart(m, -p, f, et);
      }
    }
  }

  lemma WholePrintsRight(m: nat, p: nat, f: nat, et: int)
    ensures ShowsRight(m, p, f, et)
  {
  }

  lemma JudgedRight(m: nat, p: int, f: nat, et: int, n: nat)
    requires n == RoundAt(m, p, f - et) <==> ShowsRight(m, p, f, et)
    ensures Judged(m, p, f, et, n, et)
  {
    PowZero();
    hide RoundAt, ShowsRight;
  }

  lemma WithWholePart(m: nat, q: nat, f: nat, et: int)
    requires m > 0 && q > 0 && Leading(m, 0 - q, et) && m / Pow(2, q) > 0
    ensures Judged(m, 0 - q, f, et, Shown(m, 0 - q, f).0, Shown(m, 0 - q, f).1)
  {
    ExactExponent(m, q, f, et);
    hide Pow, Num, Den, Digits, Leading, RoundAt, PrintsRight, NatDigits, CutValue, Read, Shown, Judged;
    WholePartShown(m, q, f);
    ReaderIs(0 - q);
    if f < et {
      ExactShown(m, 0 - q, f, et);
      JudgedRight(m, 0 - q, f, et, RoundAt(m, 0 - q, f - et));
    } else {
      RightExponentIff(m, q, f, et);
      JudgedRight(m, 0 - q, f, et, Shown(m, 0 - q, f).0);
    }
  }

  lemma WithoutWholePart(m: nat, q: nat, f: nat, et: int)
    requires m > 0 && q > 0 && Leading(m, 0 - q, et) && m / Pow(2, q) == 0
    ensures Judged(m, 0 - q, f, et, Shown(m, 0 - q, f).0, Shown(m, 0 - q, f).1)
  {
    ExactExponent(m, q, f, et);
    FractionShown(m, q, f);
    hide Pow, Num, Den, Digits, Leading, RoundAt, PrintsRight, NatDigits, CutValue, Read, ShowsRight;
    ExponentNotAbove(m, q, f, et);
    ReaderIs(0 - q);
    var e := Digits(m, 0 - q, f + 2, Read(q)).1;
    if e == et {
      RightExponentIff(m, q, f, et);
      JudgedRight(m, 0 - q, f, et, Shown(m, 0 - q, f).0);
    } else {
      LostLeader(m, q, f, et, e);
      NotRight(m, q, f, et);
    }
  }

  lemma NotRight(m: nat, q: nat, f: nat, et: int)
    requires q > 0 && et < 0 && !AllReadable(m, q, f - et)
    ensures !ShowsRight(m, 0 - q, f, et)
  {
  }

  lemma ExactExponent(m: nat, q: nat, f: nat, et: int)
    requires m > 0 && q > 0 && Leading(m, 0 - q, et)
    ensures Digits(m, 0 - q, f + 2, Exact).1 == et
    ensures m / Pow(2, q) == 0 ==> et < 0
  {
    hide Num, Den, IsExpansion, Digits, Leading;
    DigitsCorrect(m, 0 - q, f + 2);
    var (d, e) := Digits(m, 0 - q, f + 2, Exact);
    LeadingExponent(m, 0 - q, f + 2, d, e);
    LeadingUnique(m, 0 - q, e, et);
    LeadingValue(m, q, et, 0);
  }

  /** Misreading never raises the exponent. */
  lemma ExponentNotAbove(m: nat, q: nat, f: nat, et: int)
    requires m > 0 && q > 0 && Leading(m, 0 - q, et)
    requires var (d, e) := Digits(m, 0 - q, f + 2, Read(q)); e < 0 && d != []
    ensures Digits(m, 0 - q, f + 2, Read(q)).1 <= et
  {
    hide Pow, Digits, CutValue, ReadValue, FracDigit, Read, Leading, AllReadable;
    var (d, e) := Digits(m, 0 - q, f + 2, Read(q));
    DigitsRead(m, q, f + 2);
    var i := -e;
    assert CutValue(d, e + 1 + i) == ReadValue(m, q, i, Read(q));
    FirstDigitValue(d);
    Gap(m, q, i);
    LeadingValue(m, q, et, i);
  }

  lemma FirstDigitValue(d: seq<nat>)
    requires d != [] && d[0] != 0
    ensures CutValue(d, 1) > 0
  {
    CutSnoc(d, 0);
  }

  lemma RightExponentIff(m: nat, q: nat, f: nat, et: int)
    requires m > 0 && q > 0 && f >= et && Digits(m, 0 - q, f + 2, Read(q)).1 == et
    ensures Shown(m, 0 - q, f).1 == et
    ensures Shown(m, 0 - q, f).0 == RoundAt(m, 0 - q, f - et) <==> ShowsRight(m, 0 - q, f, et)
  {
    hide Pow, Num, Den, Digits, Printed, PrintsRight, RoundHalfUp, Nearest, CutValue, Read;
    ReaderIs(0 - q);
    SameExponent(m, q, f, et);
    var s := f - et;
    PrintedIff(m, 0 - q, s);
    NearestOnly(Printed(m, 0 - q, s), RoundAt(m, 0 - q, s), Num(m, 0 - q, s), Den(0 - q, s));
  }

  /** With q mod 32 at most 28, or no fraction at all, it always is the nearest. */
  lemma ShownRightUpTo28(m: nat, p: int, f: nat, et: int)
    requires m > 0 && Leading(m, p, et) && (p >= 0 || (-p) % 32 <= 28)
    ensures Shown(m, p, f) == (RoundAt(m, p, f - et), et)
  {
    hide Num, Den, Digits, Leading, RoundAt, PrintsRight, Shown;
    if f >= et {
      PrintsRightUpTo28(m, p, f - et);
    }
    ShownIff(m, p, f, et);
    PowZero();
  }
}
