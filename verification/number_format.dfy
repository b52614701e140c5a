/** toFixed, toExponential and toPrecision with explicit digits. */
module NumberFormat {
  import opened Basics
  import opened Powers
  import opened Doubles
  import opened DecimalDigits
  import opened SignificantDigits
  import opened NumberRounding
  import opened NumberText
  import opened NumberReading
  import opened NumberLeading

  datatype Outcome = Text(text: string) | RangeError

  predicate IsNaN(b: Bits64) { ExpField(b) == 2047 && MantField(b) != 0 }

  predicate IsZero(b: Bits64) { ExpField(b) == 0 && MantField(b) == 0 }

  predicate Negative(b: Bits64) { Sign(b) == 1 && !IsZero(b) }

  function Abs(b: Bits64): (r: Bits64)
    ensures Sign(r) == 0 && ExpField(r) == ExpField(b) && MantField(r) == MantField(b)
    ensures Significand(r) == Significand(b) && Scale(r) == Scale(b)
    ensures !IsZero(b) ==> r > 0
  {
    PackFields(b);
    Pack(0, ExpField(b), MantField(b))
  }

  /** At least 10^21 in magnitude. */
  predicate Huge(b: Bits64) {
    !IsFinite(b) || (Scale(b) >= 0 && Significand(b) * Pow(2, Scale(b)) >= Pow(10, 21))
  }

  lemma HugeFacts(b: Bits64)
    ensures !IsFinite(b) ==> Huge(b)
    ensures IsZero(b) ==> !Huge(b)
  {
  }

  // ---- Texts of significant digits ----

  /** A number of f + 1 digits, perhaps after a carry, in the form with an exponent. */
  function ExponentialText(shown: (nat, int), f: nat): string {
    var (n, e) := Carried(shown.0, shown.1, f);
    ExpText(n, e, f)
  }

  /** `precision` significant digits; the form depends on the exponent after the
      carry. */
  function PrecisionText(shown: (nat, int), precision: nat): string
    requires precision > 0
  {
    var f := precision - 1;
    var (n, e) := Carried(shown.0, shown.1, f);
    if -6 <= e < precision then FixedText(n, f - e) else ExpText(n, e, f)
  }

  // ---- The exponent ----

  lemma ExponentOfDigits(m: nat, p: int, c1: nat, c2: nat, read: nat -> nat)
    requires m > 0 && c1 > 0 && c2 > 0
    ensures Digits(m, p, c1, read).1 == Digits(m, p, c2, read).1
  {
    if p < 0 {
      hide Pow, Expand;
      var q := -p;
      DivIdentity(m, Pow(2, q));
      FirstPlace(m);
      var ds := NatDigits(m / Pow(2, q));
      if ds == [] {
        ExponentSame(m % Pow(2, q), q, c1, c2, 0, read);
      } else {
        ExpandKeeps(m % Pow(2, q), q, c1, ds, FirstExponent(ds), 0, read);
        ExpandKeeps(m % Pow(2, q), q, c2, ds, FirstExponent(ds), 0, read);
      }
    }
  }

  lemma {:induction false} ExponentSame(r: nat, q: nat, c1: nat, c2: nat, pos: nat, read: nat -> nat)
    requires r < Pow(2, q) && pos <= q && r % Pow(2, pos) == 0 && c1 > 0 && c2 > 0
    ensures Expand(r, q, c1, [], None, pos, read).1 == Expand(r, q, c2, [], None, pos, read).1
    decreases q - pos
  {
    hide Pow;
    if r > 0 {
      ExpandProgress(r, q, pos);
      var d, r' := read(10 * r / Pow(2, q)), 10 * r % Pow(2, q);
      if d == 0 {
        ExponentSame(r', q, c1, c2, pos + 1, read);
      } else {
        ExpandKeeps(r', q, c1, [] + [d], Some(-(pos + 1)), pos + 1, read);
        ExpandKeeps(r', q, c2, [] + [d], Some(-(pos + 1)), pos + 1, read);
      }
    }
  }

  // ---- Fixed form ----

  /** The digits toFixed shows make up the number it prints. */
  lemma FixedPrinted(m: nat, p: int, f: nat, count: nat, d: seq<nat>, e: int, d': seq<nat>, e': int)
    requires m > 0 && (d, e) == Digits(m, p, count, Reader(p))
    requires count >= 1 && e + f + 2 <= count && Rounded(d, e, e + f + 1, d', e')
    ensures AllDigits(d') && FixedDigits(d', e', f) == FixedText(Printed(m, p, f), f)
  {
    hide FixedDigits, FixedText, Digits, Printed, Rounded, Reader;
    RoundedDigits(d, e, e + f + 1, d', e');
    ReaderIs(p);
    if p >= 0 {
      PrintedWhole(m, p, f, count, d, e, d', e');
    } else {
      DigitsRead(m, -p, count);
      PrintedFraction(m, -p, f, count, d, e, d', e');
    }
    FixedDigitsText(d', e', f);
  }

  lemma PrintedWhole(m: nat, p: nat, f: nat, count: nat, d: seq<nat>, e: int, d': seq<nat>, e': int)
    requires m > 0 && (d, e) == Digits(m, p, count, Exact)
    requires count >= 1 && e + f + 2 <= count && Rounded(d, e, e + f + 1, d', e')
    ensures CutValue(d', e' + 1 + f) == Printed(m, p, f) && d' != [] && d'[0] != 0
  {
    hide Pow, Num, Den, IsExpansion, DigitsValue, CutValue, NatDigits;
    DigitsCorrect(m, p, count);
    RoundedFirst(m, p, count, d, e, e + f + 1, d', e');
    RoundedIsNearest(m, p, count, d, e, e + f + 1, d', e');
    WholeNearest(m, p, f);
    NearestOnly(CutValue(d', e' + 1 + f), Printed(m, p, f), Num(m, p, f), Den(p, f));
  }

  lemma PrintedFraction(m: nat, q: nat, f: nat, count: nat, d: seq<nat>, e: int, d': seq<nat>, e': int)
    requires q > 0 && Reads(m, q, d, e, count)
    requires count >= 1 && e + f + 2 <= count && Rounded(d, e, e + f + 1, d', e')
    ensures CutValue(d', e' + 1 + f) == Printed(m, 0 - q, f)
    ensures d' != [] ==> d'[0] != 0
    ensures d' == [] ==> e' <= 0
  {
    hide Pow, DigitsValue, CutValue, ReadValue, FracDigit, Read;
    assert CutValue(d, e + 1 + f) == ReadValue(m, q, f, Read(q));
    assert CutValue(d, e + 1 + (f + 1)) == ReadValue(m, q, f + 1, Read(q));
    NextRead(m, q, f, Read(q));
    if e + f + 1 < 0 {
      CutNothing(d, e + 1 + f);
      CutNothing(d, e + 2 + f);
      CutNothing(d', e' + 1 + f);
    } else {
      CutSnoc(d, e + 1 + f);
    }
  }

  /** Number.prototype.toFixed.  `shortest` is the text of |x| in its usual form. */
  method ToFixed(b: Bits64, digits: int, shortest: string) returns (r: Outcome)
    ensures r.RangeError? <==> !(0 <= digits <= 100)
    ensures 0 <= digits <= 100 && IsNaN(b) ==> r == Text("NaN")
    ensures 0 <= digits <= 100 && !IsNaN(b) && Huge(b) ==> r == Text(Signed(Negative(b), shortest))
    ensures 0 <= digits <= 100 && IsZero(b) ==> r == Text(FixedText(0, digits))
    ensures 0 <= digits <= 100 && !Huge(b) && !IsZero(b)
            ==> r == Text(Signed(Negative(b), FixedText(Printed(Significand(b), Scale(b), digits), digits)))
  {
    hide Pow, Huge, FixedText, FixedDigits, Printed, NatDigits;
    HugeFacts(b);
    if !(0 <= digits <= 100) {
      return RangeError;
    }
    if IsNaN(b) {
      return Text("NaN");
    }
    if Huge(b) {
      return Text(Signed(Negative(b), shortest));
    }
    if IsZero(b) {
      var s := FixedString([], 0, digits, false);
      FixedDigitsText([], 0, digits);
      NoDigits(digits + 1);
      return Text(s);
    }
    var s := FixedNonZero(b, digits);
    return Text(s);
  }

  lemma {:induction false} NoDigits(k: nat)
    ensures CutValue([], k) == 0
  {
    ZerosValue(Cut([], k));
  }

  method FixedNonZero(b: Bits64, f: nat) returns (s: string)
    requires !IsZero(b) && IsFinite(b)
    ensures s == Signed(Negative(b), FixedText(Printed(Significand(b), Scale(b), f), f))
  {
    hide Pow, FixedText, FixedDigits, Printed, Lossless, Digits, IsExpansion, Rounded, NatDigits, Reader;
    ghost var m, p := Significand(b), Scale(b);
    var _, e0 := SignificantDigits.Compute(Abs(b), 1);
    var count := if e0 + f + 2 < 1 then 1 else e0 + f + 2;
    var d, e := SignificantDigits.Compute(Abs(b), count);
    ExponentOfDigits(m, p, 1, count, Reader(p));
    var d', e' := RoundDigits(d, e, e0 + f + 1);
    FixedPrinted(m, p, f, count, d, e, d', e');
    s := FixedString(d', e', f, Negative(b));
  }

  // ---- Significant digits ----

  /** The f + 1 digits shown after rounding are the number rounded there, or its
      tenth after a carry into a new digit. */
  lemma DigitsCarried(m: nat, p: int, d: seq<nat>, e: int, f: nat, d': seq<nat>, e': int)
    requires (d, e) == Digits(m, p, f + 2, Reader(p)) && Rounded(d, e, f + 1, d', e')
    ensures Carried(Shown(m, p, f).0, Shown(m, p, f).1, f) == (CutValue(d', f + 1), e')
  {
    hide DigitsValue, Digits, Reader;
    if e' == e {
      CutBounds(d', f + 1);
    } else {
      OneFollowedByZeros(f + 2);
      OneFollowedByZeros(f + 1);
    }
  }

  /** The rounded digits start with a digit that is not zero. */
  lemma RoundedStart(m: nat, p: int, count: nat, d: seq<nat>, e: int, rd: nat, d': seq<nat>, e': int)
    requires m > 0 && count > 0 && (d, e) == Digits(m, p, count, Reader(p)) && Rounded(d, e, rd, d', e')
    ensures d' != [] ==> d'[0] != 0
    ensures d' == [] ==> e' <= 0
  {
    hide Digits, Reader;
    ReaderIs(p);
    if p >= 0 {
      DigitsCorrect(m, p, count);
    } else {
      DigitsRead(m, -p, count);
    }
  }

  lemma CutBounds(d: seq<nat>, k: nat)
    requires AllDigits(d)
    ensures CutValue(d, k) < Pow(10, k)
  {
    SpanDigits(d, k, 0);
    DigitsBound(Cut(d, k));
  }

  method ExponentialNonZero(b: Bits64, f: nat) returns (s: string)
    requires !IsZero(b) && IsFinite(b)
    ensures s == Signed(Negative(b), ExponentialText(Shown(Significand(b), Scale(b), f), f))
  {
    hide Pow, ExpText, Lossless, Digits, IsExpansion, Rounded, Reader, Shown, Carried;
    ghost var m, p := Significand(b), Scale(b);
    var d, e := SignificantDigits.Compute(Abs(b), f + 2);
    var d', e' := RoundDigits(d, e, f + 1);
    RoundedDigits(d, e, f + 1, d', e');
    s := ExpString(d', e', f, Negative(b));
    DigitsCarried(m, p, d, e, f, d', e');
  }

  lemma RoundedDigits(d: seq<nat>, e: int, rd: int, d': seq<nat>, e': int)
    requires Rounded(d, e, rd, d', e')
    ensures AllDigits(d')
  {
  }

  /** Number.prototype.toExponential.  `inherent` is the text without explicit
      digits, of a number that is neither zero nor infinite. */
  method ToExponential(b: Bits64, digits: Option<int>, inherent: string) returns (r: Outcome)
    ensures IsNaN(b) ==> r == Text("NaN")
    ensures !IsFinite(b) && !IsNaN(b) ==> r == Text(if Sign(b) == 0 then "Infinity" else "-Infinity")
    ensures r.RangeError? <==> IsFinite(b) && digits.Some? && !(0 <= digits.value <= 100)
    ensures IsZero(b) && r.Text? ==>
              r.text == ExpText(0, 0, if digits.Some? then digits.value else 0)
    ensures IsFinite(b) && !IsZero(b) && digits.None? ==> r == Text(Signed(Negative(b), inherent))
    ensures IsFinite(b) && !IsZero(b) && digits.Some? && r.Text?
            ==> r.text == Signed(Negative(b), ExponentialText(Shown(Significand(b), Scale(b), digits.value), digits.value))
  {
    hide Pow, ExponentialText, ExpText, Shown;
    if IsNaN(b) {
      return Text("NaN");
    }
    if !IsFinite(b) {
      return Text(if Sign(b) == 0 then "Infinity" else "-Infinity");
    }
    if digits.Some? && !(0 <= digits.value <= 100) {
      return RangeError;
    }
    if IsZero(b) {
      var f := if digits.Some? then digits.value else 0;
      NoDigits(f + 1);
      var s := ExpString([], 0, f, false);
      return Text(s);
    }
    if digits.None? {
      return Text(Signed(Negative(b), inherent));
    }
    var s := ExponentialNonZero(b, digits.value);
    return Text(s);
  }

  method PrecisionNonZero(b: Bits64, precision: nat) returns (s: string)
    requires !IsZero(b) && IsFinite(b) && precision > 0
    ensures s == Signed(Negative(b), PrecisionText(Shown(Significand(b), Scale(b), precision - 1), precision))
  {
    hide Pow, ExpText, FixedText, FixedDigits, Lossless, Digits, IsExpansion, Rounded, Reader, Shown, Carried;
    ghost var m, p := Significand(b), Scale(b);
    var d, e := SignificantDigits.Compute(Abs(b), precision + 1);
    var d', e' := RoundDigits(d, e, precision);
    RoundedDigits(d, e, precision, d', e');
    DigitsCarried(m, p, d, e, precision - 1, d', e');
    if -6 <= e' < precision {
      s := FixedString(d', e', precision - 1 - e', Negative(b));
      RoundedStart(m, p, precision + 1, d, e, precision, d', e');
      FixedDigitsText(d', e', precision - 1 - e');
    } else {
      s := ExpString(d', e', precision - 1, Negative(b));
    }
  }

  lemma RoundedFirst(m: nat, p: int, count: nat, d: seq<nat>, e: int, rd: nat, d': seq<nat>, e': int)
    requires IsExpansion(m, p, count, d, e) && Rounded(d, e, rd, d', e')
    ensures d' != [] && d'[0] != 0
  {
  }

  /** Number.prototype.toPrecision.  `usual` is the text of x in its usual form. */
  method ToPrecision(b: Bits64, precision: Option<int>, usual: string) returns (r: Outcome)
    ensures precision.None? ==> r == Text(usual)
    ensures precision.Some? && IsNaN(b) ==> r == Text("NaN")
    ensures precision.Some? && !IsFinite(b) && !IsNaN(b) ==> r == Text(if Sign(b) == 0 then "Infinity" else "-Infinity")
    ensures r.RangeError? <==> precision.Some? && IsFinite(b) && !(1 <= precision.value <= 100)
    ensures precision.Some? && IsZero(b) && r.Text? ==> r.text == FixedText(0, precision.value - 1)
    ensures precision.Some? && IsFinite(b) && !IsZero(b) && r.Text?
            ==> r.text == Signed(Negative(b), PrecisionText(Shown(Significand(b), Scale(b), precision.value - 1), precision.value))
  {
    hide Pow, PrecisionText, Shown;
    if precision.None? {
      return Text(usual);
    }
    if IsNaN(b) {
      return Text("NaN");
    }
    if !IsFinite(b) {
      return Text(if Sign(b) == 0 then "Infinity" else "-Infinity");
    }
    if !(1 <= precision.value <= 100) {
      return RangeError;
    }
    if IsZero(b) {
      var s := "0";
      if precision.value > 1 {
        s := s + ".";
        var i := 0;
        while i < precision.value - 1
          invariant i <= precision.value - 1
          invariant s == "0." + seq(i, _ => '0')
        {
          s := s + "0";
          i := i + 1;
        }
      }
      ZeroText(precision.value - 1);
      return Text(s);
    }
    var s := PrecisionNonZero(b, precision.value);
    return Text(s);
  }

  lemma ZeroText(f: nat)
    ensures FixedText(0, f) == "0" + if f == 0 then "" else "." + seq(f, _ => '0')
  {
    hide Pow;
    DivUnique(0, Pow(10, f), 0, 0);
    ZeroPlace(f);
  }

  lemma {:induction false} ZeroPlace(f: nat)
    ensures forall i :: 0 <= i < f ==> Place(0, f)[i] == 0
  {
    if f > 0 {
      ZeroPlace(f - 1);
    }
  }
}
