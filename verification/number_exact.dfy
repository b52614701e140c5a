/** The texts of toFixed, toExponential and toPrecision determine the numbers they
    show, so a text is the right one exactly when no digit was misread. */
module NumberExact {
  import opened Powers
  import opened Doubles
  import opened DecimalDigits
  import opened SignificantDigits
  import opened NumberRounding
  import opened NumberText
  import opened NumberReading
  import opened NumberLeading
  import opened NumberFormat

  // ---- Digits ----

  lemma CharsInjective(a: seq<nat>, b: seq<nat>)
    requires AllDigits(a) && AllDigits(b) && Chars(a) == Chars(b)
    ensures a == b
  {
    forall i | 0 <= i < |a|
      ensures a[i] == b[i]
    {
      assert Chars(a)[i] == Chars(b)[i];
      OneChar(a[i], b[i]);
    }
  }

  lemma OneChar(x: nat, y: nat)
    requires x < 10 && y < 10 && "0123456789"[x] == "0123456789"[y]
    ensures x == y
  {
  }

  lemma CharsAreDigits(ds: seq<nat>)
    requires AllDigits(ds)
    ensures forall i :: 0 <= i < |ds| ==> '0' <= Chars(ds)[i] <= '9'
  {
  }

  lemma NatTextFacts(n: nat)
    ensures NatText(n) != [] && forall i :: 0 <= i < |NatText(n)| ==> '0' <= NatText(n)[i] <= '9'
  {
    hide NatDigits, Chars;
    if n > 0 {
      CharsAreDigits(NatDigits(n));
    }
  }

  lemma NatTextInjective(a: nat, b: nat)
    requires NatText(a) == NatText(b)
    ensures a == b
  {
    hide NatDigits, DigitsValue, Chars;
    assert "0" == Chars([0]) by { ZeroChar(); }
    var x := if a == 0 then [0] else NatDigits(a);
    var y := if b == 0 then [0] else NatDigits(b);
    CharsInjective(x, y);
    NatDigitsValue(a);
    NatDigitsValue(b);
  }

  lemma ZeroChar()
    ensures "0" == Chars([0])
  {
  }

  lemma {:induction false} PlaceValue(n: nat, w: nat)
    requires n < Pow(10, w)
    ensures DigitsValue(Place(n, w)) == n
  {
    if w > 0 {
      DivIdentity(n, 10);
      PlaceValue(n / 10, w - 1);
      DigitsSnoc(Place(n / 10, w - 1), n % 10);
    }
  }

  lemma PlaceInjective(a: nat, b: nat, w: nat)
    requires a < Pow(10, w) && b < Pow(10, w) && Place(a, w) == Place(b, w)
    ensures a == b
  {
    hide Place, Pow, DigitsValue;
    PlaceValue(a, w);
    PlaceValue(b, w);
  }

  // ---- Fixed form ----

  /** Digits, and after them the point and f digits. */
  lemma FixedShape(n: nat, f: nat)
    ensures
      var w, s := NatText(n / Pow(10, f)), FixedText(n, f);
      && |s| == |w| + (if f == 0 then 0 else f + 1) && s[..|w|] == w
      && (f > 0 ==> s[|w|] == '.' && s[|w| + 1..] == Chars(Place(n % Pow(10, f), f)))
      && forall i :: 0 <= i < |s| && i != |w| ==> '0' <= s[i] <= '9'
  {
    hide Pow, NatText, Chars, Place;
    NatTextFacts(n / Pow(10, f));
    CharsAreDigits(Place(n % Pow(10, f), f));
  }

  lemma FixedTextInjective(a: nat, f: nat, b: nat, g: nat)
    requires FixedText(a, f) == FixedText(b, g)
    ensures a == b && f == g
  {
    FixedShape(a, f);
    FixedShape(b, g);
    hide Pow, NatText, Chars, Place, FixedText;
    var s := FixedText(a, f);
    var u, v := NatText(a / Pow(10, f)), NatText(b / Pow(10, g));
    if f > 0 || g > 0 {
      assert s[if f > 0 then |u| else |v|] == '.';
    }
    assert f == g && u == v;
    NatTextInjective(a / Pow(10, f), b / Pow(10, f));
    DivIdentity(a, Pow(10, f));
    DivIdentity(b, Pow(10, f));
    if f == 0 {
      PowZero();
    } else {
      CharsInjective(Place(a % Pow(10, f), f), Place(b % Pow(10, f), f));
      PlaceInjective(a % Pow(10, f), b % Pow(10, f), f);
    }
  }

  // ---- Form with exponent ----

  lemma ExpShape(n: nat, e: int, f: nat)
    ensures
      var ds, s, k := Place(n, f + 1), ExpText(n, e, f), if f == 0 then 1 else f + 2;
      && |s| > k + 1 && s[..1] == Chars(ds[..1]) && (f > 0 ==> s[2..k] == Chars(ds[1..]))
      && s[k] == 'e' && s[k + 1] == (if e < 0 then '-' else '+')
      && s[k + 2..] == NatText(if e < 0 then -e else e)
  {
    hide NatText, Chars, Place;
  }

  lemma ExpTextInjective(a: nat, c: int, b: nat, e: int, f: nat)
    requires a < Pow(10, f + 1) && b < Pow(10, f + 1) && ExpText(a, c, f) == ExpText(b, e, f)
    ensures a == b && c == e
  {
    ExpShape(a, c, f);
    ExpShape(b, e, f);
    hide Pow, NatText, Chars, Place, ExpText;
    var x, y := Place(a, f + 1), Place(b, f + 1);
    CharsInjective(x[..1], y[..1]);
    if f > 0 {
      CharsInjective(x[1..], y[1..]);
    }
    assert x == x[..1] + x[1..] && y == y[..1] + y[1..];
    PlaceInjective(a, b, f + 1);
    NatTextInjective(if c < 0 then -c else c, if e < 0 then -e else e);
  }

  /** No digits form is the other one. */
  lemma FormsDiffer(a: nat, f: nat, b: nat, e: int, g: nat)
    ensures FixedText(a, f) != ExpText(b, e, g)
  {
    FixedShape(a, f);
    ExpShape(b, e, g);
    hide Pow, NatText, Chars, Place, ExpText, FixedText;
    var s, t, k := FixedText(a, f), ExpText(b, e, g), if g == 0 then 1 else g + 2;
    assert forall i :: 0 <= i < |s| ==> s[i] != 'e';
    assert t[k] == 'e';
  }

  lemma PrecisionInjective(x: (nat, int), y: (nat, int), precision: nat)
    requires precision > 0
    requires Carried(x.0, x.1, precision - 1).0 < Pow(10, precision)
    requires Carried(y.0, y.1, precision - 1).0 < Pow(10, precision)
    requires PrecisionText(x, precision) == PrecisionText(y, precision)
    ensures Carried(x.0, x.1, precision - 1) == Carried(y.0, y.1, precision - 1)
  {
    hide Pow, Carried, FixedText, ExpText;
    var f := precision - 1;
    var (a, c) := Carried(x.0, x.1, f);
    var (b, e) := Carried(y.0, y.1, f);
    if -6 <= c < precision {
      if -6 <= e < precision {
        FixedTextInjective(a, f - c, b, f - e);
      } else {
        FormsDiffer(a, f - c, b, e, f);
      }
    } else if -6 <= e < precision {
      FormsDiffer(b, f - e, a, c, f);
    } else {
      ExpTextInjective(a, c, b, e, f);
    }
  }

  // ---- Right texts ----

  /** toFixed gives the text of the nearest decimal, the larger one on a tie, exactly
      when no digit is misread in a way that matters. */
  lemma FixedTextIff(m: nat, p: int, f: nat)
    ensures FixedText(Printed(m, p, f), f) == FixedText(RoundAt(m, p, f), f) <==> PrintsRight(m, p, f)
  {
    hide Pow, FixedText, Printed, PrintsRight, Num, Den, Nearest, RoundHalfUp;
    PrintedIff(m, p, f);
    var n := RoundAt(m, p, f);
    NearestOnly(Printed(m, p, f), n, Num(m, p, f), Den(p, f));
    if FixedText(Printed(m, p, f), f) == FixedText(n, f) {
      FixedTextInjective(Printed(m, p, f), f, n, f);
    }
  }

  /** Rounded digits make at most a one and zeros. */
  lemma RoundedBound(d: seq<nat>, f: nat)
    requires AllDigits(d)
    ensures CutValue(d, f + 1) + HalfUp(Dig(d, f + 1)) <= Pow(10, f + 1)
  {
    hide CutValue, Pow;
    CutBounds(d, f + 1);
  }

  lemma ShownBound(m: nat, p: int, f: nat)
    requires m > 0
    ensures Shown(m, p, f).0 <= Pow(10, f + 1)
  {
    hide Digits, Reader, CutValue, Pow, IsExpansion;
    ReaderIs(p);
    var (d, e) := Digits(m, p, f + 2, Reader(p));
    if p >= 0 {
      DigitsCorrect(m, p, f + 2);
      ExpansionDigits(m, p, f + 2, d, e);
    } else {
      DigitsRead(m, -p, f + 2);
    }
    RoundedBound(d, f);
  }

  lemma RoundAtBound(m: nat, p: int, f: nat, et: int)
    requires m > 0 && Leading(m, p, et)
    ensures RoundAt(m, p, f - et) <= Pow(10, f + 1)
  {
    hide Digits, CutValue, Pow, IsExpansion, Leading, RoundAt;
    DigitsCorrect(m, p, f + 2);
    var (d, e) := Digits(m, p, f + 2, Exact);
    ExpansionShown(m, p, d, e, f);
    LeadingUnique(m, p, e, et);
    ExpansionDigits(m, p, f + 2, d, e);
    RoundedBound(d, f);
  }

  lemma CarriedBound(n: nat, e: int, f: nat)
    requires n <= Pow(10, f + 1)
    ensures Carried(n, e, f).0 < Pow(10, f + 1)
    ensures n == Pow(10, f + 1) ==> n / 10 * 10 == n
  {
    assert Pow(10, f + 1) == 10 * Pow(10, f);
  }

  /** Two numbers shown look the same only if they are the same, apart from a carry. */
  lemma CarriedSame(n: nat, e: int, r: nat, et: int, f: nat)
    requires n <= Pow(10, f + 1) && r <= Pow(10, f + 1) && e <= et
    requires Carried(n, e, f) == Carried(r, et, f)
    ensures n == r * Pow(10, et - e)
  {
    hide Pow;
    CarriedBound(n, e, f);
    CarriedBound(r, et, f);
    PowZero();
    PowOne();
  }

  lemma PowOne()
    ensures Pow(10, 1) == 10
  {
  }

  /** What is shown equals, up to a carry, what should be exactly when it is right. */
  lemma CarriedIff(m: nat, p: int, f: nat, et: int)
    requires m > 0 && Leading(m, p, et)
    ensures
      var (n, e) := Shown(m, p, f);
      var r := RoundAt(m, p, f - et);
      && n <= Pow(10, f + 1) && r <= Pow(10, f + 1)
      && (Carried(n, e, f) == Carried(r, et, f) <==> ShowsRight(m, p, f, et))
  {
    hide Pow, Shown, RoundAt, ShowsRight, Leading, Carried;
    ShownIff(m, p, f, et);
    ShownBound(m, p, f);
    RoundAtBound(m, p, f, et);
    var (n, e) := Shown(m, p, f);
    var r := RoundAt(m, p, f - et);
    PowZero();
    if Carried(n, e, f) == Carried(r, et, f) {
      CarriedSame(n, e, r, et, f);
    }
  }

  /** toExponential gives the text of the nearest number of that many digits, the
      larger one on a tie, exactly when no digit is misread in a way that matters. */
  lemma ExponentialTextIff(m: nat, p: int, f: nat, et: int)
    requires m > 0 && Leading(m, p, et)
    ensures ExponentialText(Shown(m, p, f), f) == ExponentialText((RoundAt(m, p, f - et), et), f)
            <==> ShowsRight(m, p, f, et)
  {
    hide Pow, Shown, RoundAt, ShowsRight, Leading, Carried, ExpText;
    CarriedIff(m, p, f, et);
    var x, r := Shown(m, p, f), RoundAt(m, p, f - et);
    var (a, c) := Carried(x.0, x.1, f);
    var (b, e) := Carried(r, et, f);
    CarriedBound(x.0, x.1, f);
    CarriedBound(r, et, f);
    if ExpText(a, c, f) == ExpText(b, e, f) {
      ExpTextInjective(a, c, b, e, f);
    }
  }

  lemma PrecisionTextIff(m: nat, p: int, precision: nat, et: int)
    requires m > 0 && Leading(m, p, et) && precision > 0
    ensures PrecisionText(Shown(m, p, precision - 1), precision)
            == PrecisionText((RoundAt(m, p, precision - 1 - et), et), precision)
            <==> ShowsRight(m, p, precision - 1, et)
  {
    hide Pow, Shown, RoundAt, ShowsRight, Leading, Carried, PrecisionText;
    var f := precision - 1;
    CarriedIff(m, p, f, et);
    var x, y := Shown(m, p, f), (RoundAt(m, p, f - et), et);
    CarriedBound(x.0, x.1, f);
    CarriedBound(y.0, y.1, f);
    if PrecisionText(x, precision) == PrecisionText(y, precision) {
      PrecisionInjective(x, y, precision);
    }
    if Carried(x.0, x.1, f) == Carried(y.0, y.1, f) {
      SameCarriedSameText(x, y, precision);
    }
  }

  lemma SameCarriedSameText(x: (nat, int), y: (nat, int), precision: nat)
    requires precision > 0 && Carried(x.0, x.1, precision - 1) == Carried(y.0, y.1, precision - 1)
    ensures PrecisionText(x, precision) == PrecisionText(y, precision)
  {
    hide FixedText, ExpText, Carried;
  }

  // ---- A misprinted double ----

  /** The double 3 / 1024. */
  const SAMPLE: Bits64 := Pack(0, 1014, P52 / 2)

  lemma SampleFields()
    ensures Significand(SAMPLE) == 3 * Pow(2, 51) && Scale(SAMPLE) == -61
    ensures IsFinite(SAMPLE) && !IsZero(SAMPLE) && !Negative(SAMPLE)
  {
    hide Pow;
    assert Pow(2, 52) == 2 * Pow(2, 51) && Pow(2, 52) == P52 by { HalfPower(); }
  }

  lemma HalfPower()
    ensures Pow(2, 52) == 2 * Pow(2, 51) && Pow(2, 52) == P52
  {
    PowAdd(2, 26, 26);
    PowAdd(2, 13, 13);
    assert Pow(2, 13) == 8192;
  }

  lemma SampleTexts()
    ensures FixedText(21, 4) == "0.0021" && FixedText(29, 4) == "0.0029"
  {
    hide Pow, Place, NatText, Chars;
    PowTen();
    SamplePlaces();
    DivUnique(21, 10000, 0, 21);
    DivUnique(29, 10000, 0, 29);
  }

  lemma SamplePlaces()
    ensures NatText(0) == "0" && Chars(Place(21, 4)) == "0021" && Chars(Place(29, 4)) == "0029"
  {
    FourPlaces(21);
    FourPlaces(29);
  }

  lemma FourPlaces(n: nat)
    ensures Place(n, 4) == [n / 10 / 10 / 10 % 10, n / 10 / 10 % 10, n / 10 % 10, n % 10]
  {
    assert Place(n / 10 / 10, 2) == [n / 10 / 10 / 10 % 10, n / 10 / 10 % 10];
    assert Place(n / 10, 3) == Place(n / 10 / 10, 2) + [n / 10 % 10];
  }

  /** 0.0029296875 prints with four decimals as 0.0021, not as 0.0029. */
  lemma MisprintedText()
    ensures FixedText(Printed(Significand(SAMPLE), Scale(SAMPLE), 4), 4) == "0.0021"
    ensures FixedText(RoundAt(Significand(SAMPLE), Scale(SAMPLE), 4), 4) == "0.0029"
  {
    hide Pow, FixedText, Printed, PrintsRight, RoundAt;
    SampleFields();
    MisprintedDouble();
    SampleTexts();
    SampleRounds();
  }

  lemma SampleRounds()
    ensures RoundAt(3 * Pow(2, 51), -61, 4) == 29
  {
    hide Pow;
    var k := Pow(2, 51);
    assert Pow(2, 61) == 1024 * k by { PowAdd(2, 10, 51); PowTen(); }
    assert Pow(10, 4) == 10000 by { PowTen(); }
    var num, den := Num(3 * k, -61, 4), Den(-61, 4);
    assert num == 30000 * k && den == 1024 * k;
    NearestOnly(RoundAt(3 * k, -61, 4), 29, num, den);
  }

  lemma PowTen()
    ensures Pow(2, 10) == 1024 && Pow(10, 4) == 10000
  {
  }
}
