/** Reading number texts back: which number the texts of toFixed, toExponential and
    toPrecision stand for, and with how many digits. */
module NumberValue {
  import opened Basics
  import opened Powers
  import opened DecimalDigits
  import opened SignificantDigits
  import opened NumberRounding
  import opened NumberText
  import opened NumberReading
  import opened NumberLeading
  import opened NumberFormat
  import opened NumberExact

  // ---- Reading ----

  /** The number a string of digits stands for. */
  function DigitValue(s: string): nat {
    if s == "" then 0
    else 10 * DigitValue(s[..|s| - 1]) + if IsDigit(s[|s| - 1]) then s[|s| - 1] as int - '0' as int else 0
  }

  /** The first place of a character; the length if it does not occur. */
  function Find(s: string, c: char): (k: nat)
    ensures k <= |s| && (k < |s| ==> s[k] == c)
    ensures forall i :: 0 <= i < k ==> s[i] != c
  {
    if s == "" || s[0] == c then 0 else 1 + Find(s[1..], c)
  }

  /** A text with a sign, a point and an exponent, each if it is there: all digits
      before the exponent as one number, and the power of ten that goes with it. */
  datatype Decimal = Decimal(minus: bool, digits: nat, ten: int)

  function Mantissa(m: string): (nat, int) {
    var p := Find(m, '.');
    if p == |m| then (DigitValue(m), 0) else (DigitValue(m[..p] + m[p + 1..]), p + 1 - |m|)
  }

  function Exponent(x: string): int {
    if x == "" then 0 else if x[0] == '-' then 0 - DigitValue(x[1..]) else DigitValue(x[1..])
  }

  function ReadText(s: string): Decimal {
    if s != "" && s[0] == '-' then ReadPlain(s[1..]).(minus := true) else ReadPlain(s)
  }

  function ReadPlain(s: string): Decimal {
    var k := Find(s, 'e');
    var (n, t) := Mantissa(s[..k]);
    Decimal(false, n, t + if k == |s| then 0 else Exponent(s[k + 1..]))
  }

  // ---- Digits ----

  lemma {:induction false} ValueOfChars(ds: seq<nat>)
    requires AllDigits(ds)
    ensures DigitValue(Chars(ds)) == DigitsValue(ds)
  {
    if ds != [] {
      var front, d := ds[..|ds| - 1], ds[|ds| - 1];
      ValueOfChars(front);
      assert Chars(ds)[..|ds| - 1] == Chars(front);
      CharOf(d);
    }
  }

  lemma CharOf(d: nat)
    requires d < 10
    ensures IsDigit("0123456789"[d]) && "0123456789"[d] as int - '0' as int == d
  {
  }

  function NatDigits0(n: nat): (ds: seq<nat>)
    ensures AllDigits(ds) && ds != []
  {
    if n == 0 then [0] else NatDigits(n)
  }

  lemma NatTextIs(n: nat)
    ensures NatText(n) == Chars(NatDigits0(n)) && DigitsValue(NatDigits0(n)) == n
  {
    hide Chars, NatDigits;
    ZeroChar();
    if n == 0 {
      EmptyAndZero();
    } else {
      NatDigitsValue(n);
    }
  }

  lemma EmptyAndZero()
    ensures DigitsValue([0]) == 0
  {
  }

  lemma CharsConcat(a: seq<nat>, b: seq<nat>)
    requires AllDigits(a) && AllDigits(b)
    ensures AllDigits(a + b) && Chars(a + b) == Chars(a) + Chars(b)
  {
  }

  lemma {:induction false} FindPast(s: string, rest: string, c: char)
    requires forall i :: 0 <= i < |s| ==> s[i] != c
    ensures Find(s + rest, c) == |s| + Find(rest, c)
  {
    if s == "" {
      assert s + rest == rest;
    } else {
      assert (s + rest)[1..] == s[1..] + rest;
      FindPast(s[1..], rest, c);
    }
  }

  lemma FindAbsent(s: string, c: char)
    requires forall i :: 0 <= i < |s| ==> s[i] != c
    ensures Find(s, c) == |s|
  {
  }

  lemma FindHere(c: char, rest: string)
    ensures Find([c] + rest, c) == 0
  {
  }

  /** Digits, and perhaps a point and digits, make one number. */
  lemma MantissaOf(a: seq<nat>, b: seq<nat>)
    requires AllDigits(a) && AllDigits(b)
    ensures Mantissa(Chars(a)) == (DigitsValue(a), 0)
    ensures Mantissa(Chars(a) + ("." + Chars(b))) == (DigitsValue(a + b), -|b|)
  {
    hide Chars, DigitsValue, DigitValue, Find;
    CharsAreDigits(a);
    FindAbsent(Chars(a), '.');
    ValueOfChars(a);
    var m := Chars(a) + ("." + Chars(b));
    FindPast(Chars(a), "." + Chars(b), '.');
    FindHere('.', Chars(b));
    assert m[..|a|] == Chars(a) && m[|a| + 1..] == Chars(b);
    CharsConcat(a, b);
    ValueOfChars(a + b);
  }

  // ---- Fixed form ----

  lemma SplitValue(n: nat, f: nat)
    ensures
      var a, b := NatDigits0(n / Pow(10, f)), Place(n % Pow(10, f), f);
      DigitsValue(a + b) == n
  {
    hide Pow, NatDigits0, Place, DigitsValue;
    var p := Pow(10, f);
    var a, b := NatDigits0(n / p), Place(n % p, f);
    DivIdentity(n, p);
    NatTextIs(n / p);
    PlaceValue(n % p, f);
    DigitsConcat(a, b);
  }

  lemma FixedIs(n: nat, f: nat)
    ensures
      var a, b := NatDigits0(n / Pow(10, f)), Place(n % Pow(10, f), f);
      FixedText(n, f) == if f == 0 then Chars(a) else Chars(a) + ("." + Chars(b))
  {
    hide Pow, NatText, Chars, Place, NatDigits0;
    NatTextIs(n / Pow(10, f));
  }

  lemma NoExponent(s: string)
    requires s != "" && s[0] != '-' && forall i :: 0 <= i < |s| ==> s[i] != 'e'
    ensures ReadText(s) == Decimal(false, Mantissa(s).0, Mantissa(s).1)
  {
    hide Mantissa, Find;
    FindAbsent(s, 'e');
    assert s[..|s|] == s;
  }

  lemma DigitsAndPoint(a: seq<nat>, b: seq<nat>)
    requires AllDigits(a) && AllDigits(b) && a != []
    ensures ReadText(Chars(a)) == Decimal(false, DigitsValue(a), 0)
    ensures ReadText(Chars(a) + ("." + Chars(b))) == Decimal(false, DigitsValue(a + b), -|b|)
  {
    hide Chars, DigitsValue, ReadText, Mantissa;
    CharsAreDigits(a);
    CharsAreDigits(b);
    MantissaOf(a, b);
    NoExponent(Chars(a));
    NoExponent(Chars(a) + ("." + Chars(b)));
  }

  /** A fixed text of f decimals stands for n / 10^f. */
  lemma FixedMeans(n: nat, f: nat)
    ensures ReadText(FixedText(n, f)) == Decimal(false, n, 0 - f)
  {
    hide *;
    var a, b := FixedParts(n, f);
    var s := if f == 0 then Chars(a) else Chars(a) + ("." + Chars(b));
    assert ReadText(s) == Decimal(false, n, 0 - f) by {
      DigitsAndPoint(a, b);
      assert f == 0 ==> a + b == a;
    }
    assert s == FixedText(n, f);
  }

  lemma FixedParts(n: nat, f: nat) returns (a: seq<nat>, b: seq<nat>)
    ensures AllDigits(a) && AllDigits(b) && a != [] && |b| == f && DigitsValue(a + b) == n
    ensures FixedText(n, f) == if f == 0 then Chars(a) else Chars(a) + ("." + Chars(b))
  {
    hide Pow, NatText, Chars, Place, NatDigits0, DigitsValue, FixedText;
    a, b := NatDigits0(n / Pow(10, f)), Place(n % Pow(10, f), f);
    FixedIs(n, f);
    SplitValue(n, f);
  }

  // ---- Form with exponent ----

  lemma ExpIs(n: nat, e: int, f: nat)
    ensures
      var ds := Place(n, f + 1);
      ExpText(n, e, f) == (if f == 0 then Chars(ds) else Chars(ds[..1]) + ("." + Chars(ds[1..])))
                          + (['e'] + ([if e < 0 then '-' else '+'] + NatText(if e < 0 then -e else e)))
  {
    hide Chars, Place, NatText;
    var ds := Place(n, f + 1);
    if f == 0 {
      assert ds[..1] == ds;
    }
  }

  lemma ExponentOf(e: int)
    ensures Exponent([if e < 0 then '-' else '+'] + NatText(if e < 0 then -e else e)) == e
  {
    hide NatText, DigitsValue, DigitValue, NatDigits0, Chars;
    var n := if e < 0 then -e else e;
    NatTextIs(n);
    ValueOfChars(NatDigits0(n));
    var x := [if e < 0 then '-' else '+'] + NatText(n);
    assert x[1..] == NatText(n);
  }

  /** A text of f + 1 digits with exponent e stands for n 10^(e - f). */
  lemma ExpMeans(n: nat, e: int, f: nat)
    requires n < Pow(10, f + 1)
    ensures ReadText(ExpText(n, e, f)) == Decimal(false, n, e - f)
  {
    hide Pow, Chars, Place, NatText, DigitsValue, Find, Mantissa, Exponent, ExpText;
    var ds := Place(n, f + 1);
    var m := if f == 0 then Chars(ds) else Chars(ds[..1]) + ("." + Chars(ds[1..]));
    var x := [if e < 0 then '-' else '+'] + NatText(if e < 0 then -e else e);
    var s := ExpText(n, e, f);
    ExpIs(n, e, f);
    CharsAreDigits(ds);
    CharsAreDigits(ds[..1]);
    CharsAreDigits(ds[1..]);
    assert forall i :: 0 <= i < |m| ==> m[i] != 'e' && (i == 0 ==> m[i] != '-');
    assert m != "" && s[0] == m[0];
    FindPast(m, ['e'] + x, 'e');
    FindHere('e', x);
    assert s[..|m|] == m && s[|m| + 1..] == x;
    ExponentOf(e);
    if f == 0 {
      MantissaOf(ds, []);
    } else {
      MantissaOf(ds[..1], ds[1..]);
      assert ds[..1] + ds[1..] == ds;
    }
    PlaceValue(n, f + 1);
  }

  // ---- Signs ----

  /** The sign is read as a sign. */
  lemma SignedMeans(neg: bool, s: string)
    requires s != "" && s[0] != '-'
    ensures ReadText(Signed(neg, s)) == ReadText(s).(minus := neg)
  {
    hide ReadPlain;
    var t := Signed(neg, s);
    if neg {
      assert t[1..] == s;
    }
    NoMinus(s);
  }

  lemma NoMinus(s: string)
    ensures !ReadPlain(s).minus
  {
  }

  // ---- toExponential and toPrecision ----

  /** n 10^(t - u) as a fraction, for a number of digits and a power of ten. */
  predicate SameValue(n: nat, t: int, m: nat, u: int) {
    if t >= u then n * Pow(10, t - u) == m else n == m * Pow(10, u - t)
  }

  lemma CarryMeans(n: nat, e: int, f: nat)
    requires Pow(10, f) <= n <= Pow(10, f + 1)
    ensures
      var (m, x) := Carried(n, e, f);
      Pow(10, f) <= m < Pow(10, f + 1) && SameValue(m, x - f, n, e - f)
  {
    hide Pow;
    CarriedBound(n, e, f);
    PowZero();
    PowOne();
    assert Pow(10, f + 1) == 10 * Pow(10, f) by { NextPower(f); }
  }

  lemma NextPower(f: nat)
    ensures Pow(10, f + 1) == 10 * Pow(10, f)
  {
  }

  /** toExponential shows exactly f + 1 digits, the first not zero, and they stand for
      the number shown, whether it carried or not. */
  lemma ExponentialMeans(shown: (nat, int), f: nat)
    requires Pow(10, f) <= shown.0 <= Pow(10, f + 1)
    ensures
      var r := ReadText(ExponentialText(shown, f));
      && !r.minus && Pow(10, f) <= r.digits < Pow(10, f + 1)
      && SameValue(r.digits, r.ten, shown.0, shown.1 - f)
  {
    hide Pow, Carried, ExpText, SameValue, ReadText;
    CarryMeans(shown.0, shown.1, f);
    var (n, e) := Carried(shown.0, shown.1, f);
    ExpMeans(n, e, f);
  }

  /** toPrecision shows exactly `precision` digits, the first not zero, and they stand for
      the number shown.  There is an exponent exactly for numbers below 10^-6 and from
      10^precision up. */
  lemma PrecisionMeans(shown: (nat, int), precision: nat)
    requires precision > 0 && Pow(10, precision - 1) <= shown.0 <= Pow(10, precision)
    ensures
      var s := PrecisionText(shown, precision);
      var r := ReadText(s);
      && !r.minus && Pow(10, precision - 1) <= r.digits < Pow(10, precision)
      && SameValue(r.digits, r.ten, shown.0, shown.1 - (precision - 1))
      && ('e' in s <==> Below(r.digits, r.ten, -6) || !Below(r.digits, r.ten, precision))
  {
    hide Pow, Carried, ExpText, FixedText, SameValue, ReadText, Below;
    var f := precision - 1;
    CarryMeans(shown.0, shown.1, f);
    var (n, e) := Carried(shown.0, shown.1, f);
    LeadingPower(n, e, f, -6);
    LeadingPower(n, e, f, precision);
    if -6 <= e < precision {
      FixedMeans(n, f - e);
      FixedHasNoE(n, f - e);
    } else {
      ExpMeans(n, e, f);
      ExpHasE(n, e, f);
    }
  }

  /** n 10^t < 10^k. */
  predicate Below(n: nat, t: int, k: int) {
    if t >= k then n == 0 else n < Pow(10, k - t)
  }

  /** A number of f + 1 digits with leading exponent e is below 10^k exactly if e is
      below k. */
  lemma LeadingPower(n: nat, e: int, f: nat, k: int)
    requires Pow(10, f) <= n < Pow(10, f + 1)
    ensures Below(n, e - f, k) <==> e < k
  {
    hide Pow;
    var t := e - f;
    PowPositive(f);
    if t < k {
      if e < k {
        assert k - t >= f + 1;
        PowMonotone(10, f + 1, k - t);
      } else {
        assert k - t <= f;
        PowMonotone(10, k - t, f);
      }
    }
  }

  lemma PowPositive(f: nat)
    ensures Pow(10, f) > 0
  {
  }

  lemma FixedHasNoE(n: nat, f: nat)
    ensures 'e' !in FixedText(n, f)
  {
    FixedShape(n, f);
    hide Pow, NatText, Chars, Place, FixedText;
  }

  lemma ExpHasE(n: nat, e: int, f: nat)
    ensures 'e' in ExpText(n, e, f)
  {
    ExpShape(n, e, f);
    hide Pow, NatText, Chars, Place, ExpText;
    assert ExpText(n, e, f)[if f == 0 then 1 else f + 2] == 'e';
  }

  // ---- What is shown has all its digits ----

  lemma {:induction false} CutLower(d: seq<nat>, f: nat)
    requires d != [] && d[0] != 0
    ensures CutValue(d, f + 1) >= Pow(10, f)
  {
    hide CutValue;
    CutSnoc(d, f);
    if f == 0 {
      NothingCut(d);
    } else {
      CutLower(d, f - 1);
    }
  }

  lemma NothingCut(d: seq<nat>)
    ensures CutValue(d, 0) == 0
  {
    assert Cut(d, 0) == [];
  }

  /** However digits are misread, the number shown has f + 1 digits, or is one and
      zeros. */
  lemma ShownDigits(m: nat, p: int, f: nat)
    requires m > 0
    ensures Pow(10, f) <= Shown(m, p, f).0 <= Pow(10, f + 1)
  {
    hide Digits, Reader, CutValue, Pow, IsExpansion;
    ShownBound(m, p, f);
    ReaderIs(p);
    var (d, e) := Digits(m, p, f + 2, Reader(p));
    if p >= 0 {
      DigitsCorrect(m, p, f + 2);
      ExpansionDigits(m, p, f + 2, d, e);
      ExpansionStarts(m, p, f + 2, d, e);
    } else {
      DigitsRead(m, -p, f + 2);
      SomeDigit(m, -p, f);
    }
    CutLower(d, f);
  }

  lemma SomeDigit(m: nat, q: nat, f: nat)
    requires m > 0 && q > 0
    ensures Digits(m, 0 - q, f + 2, Read(q)).0 != []
  {
    hide Pow, Digits, NatDigits, CutValue, Read, IsExpansion, ReadValue;
    if m / Pow(2, q) == 0 {
      DivIdentity(m, Pow(2, q));
      FractionShown(m, q, f);
    } else {
      WholePartShown(m, q, f);
      DigitsRead(m, q, f + 2);
      DigitsCorrect(m, 0 - q, f + 2);
      var (d, e) := Digits(m, 0 - q, f + 2, Read(q));
      if |NatDigits(m / Pow(2, q))| >= f + 2 {
        ExpansionStarts(m, 0 - q, f + 2, d, e);
      } else {
        assert CutValue(d, e + 1 + 0) == ReadValue(m, q, 0, Read(q));
        WholeRead(m, q);
        if d == [] {
          NoDigits(e + 1);
        }
      }
    }
  }

  lemma WholeRead(m: nat, q: nat)
    requires q > 0
    ensures ReadValue(m, q, 0, Read(q)) == m / Pow(2, q)
  {
  }

  lemma ExpansionStarts(m: nat, p: int, count: nat, d: seq<nat>, e: int)
    requires IsExpansion(m, p, count, d, e)
    ensures d != [] && d[0] != 0
  {
  }
}
