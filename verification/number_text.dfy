/** Decimal texts: what they should be, and how `fixed_string` and `exp_string`
    build them from digits. */
module NumberText {
  import opened Powers
  import opened DecimalDigits
  import opened NumberRounding

  // ---- Texts of numbers ----

  function Chars(ds: seq<nat>): (s: string)
    requires AllDigits(ds)
    ensures |s| == |ds|
  {
    seq(|ds|, i requires 0 <= i < |ds| => "0123456789"[ds[i]])
  }

  function NatText(n: nat): string {
    if n == 0 then "0" else Chars(NatDigits(n))
  }

  /** The lowest w digits of a number. */
  function Place(n: nat, w: nat): (ds: seq<nat>)
    ensures |ds| == w && AllDigits(ds)
  {
    if w == 0 then [] else Place(n / 10, w - 1) + [n % 10]
  }

  /** The number n / 10^f with f decimals. */
  function FixedText(n: nat, f: nat): string {
    NatText(n / Pow(10, f)) + if f == 0 then "" else "." + Chars(Place(n % Pow(10, f), f))
  }

  /** The number n 10^(e - f), where n has f + 1 digits, with an exponent. */
  function ExpText(n: nat, e: int, f: nat): string {
    var ds := Place(n, f + 1);
    Chars(ds[..1]) + (if f == 0 then "" else "." + Chars(ds[1..]))
    + "e" + (if e < 0 then "-" else "+") + NatText(if e < 0 then -e else e)
  }

  function Signed(neg: bool, s: string): string {
    if neg then "-" + s else s
  }

  // ---- Digit strings determine their numbers ----

  lemma {:induction false} PlaceOfValue(ds: seq<nat>)
    requires AllDigits(ds)
    ensures Place(DigitsValue(ds), |ds|) == ds
  {
    if ds != [] {
      var t := ds[..|ds| - 1];
      PlaceOfValue(t);
      DivUnique(DigitsValue(ds), 10, DigitsValue(t), ds[|ds| - 1]);
    }
  }

  lemma {:induction false} NatDigitsOfValue(ds: seq<nat>)
    requires AllDigits(ds) && (ds != [] ==> ds[0] != 0)
    ensures NatDigits(DigitsValue(ds)) == ds
  {
    if ds != [] {
      var t := ds[..|ds| - 1];
      NatDigitsOfValue(t);
      DivUnique(DigitsValue(ds), 10, DigitsValue(t), ds[|ds| - 1]);
      DigitsLower(ds);
    }
  }

  lemma {:induction false} DigitsConcat(a: seq<nat>, b: seq<nat>)
    ensures DigitsValue(a + b) == DigitsValue(a) * Pow(10, |b|) + DigitsValue(b)
    decreases |b|
  {
    if b == [] {
      assert a + b == a;
    } else {
      var t := b[..|b| - 1];
      DigitsConcat(a, t);
      assert (a + b)[..|a + b| - 1] == a + t;
      Distribute(DigitsValue(a), Pow(10, |t|));
    }
  }

  lemma Distribute(x: nat, y: nat)
    ensures x * (10 * y) == 10 * (x * y)
  {
  }

  lemma {:induction false} ZerosValue(ds: seq<nat>)
    requires forall i :: 0 <= i < |ds| ==> ds[i] == 0
    ensures DigitsValue(ds) == 0
  {
    if ds != [] {
      ZerosValue(ds[..|ds| - 1]);
    }
  }

  // ---- Fixed form ----

  /** f digits from a place on. */
  function Span(d: seq<nat>, from: int, f: nat): (r: seq<nat>)
    ensures |r| == f && forall i :: 0 <= i < f ==> r[i] == Dig(d, from + i)
  {
    seq<nat>(f, i => Dig(d, from + i))
  }

  lemma SpanDigits(d: seq<nat>, from: int, f: nat)
    requires AllDigits(d)
    ensures AllDigits(Cut(d, from)) && AllDigits(Span(d, from, f))
  {
  }

  /** The text of a digit string with its point. */
  function FixedDigits(d: seq<nat>, e: int, f: nat): string
    requires AllDigits(d)
  {
    SpanDigits(d, e + 1, f);
    (if e < 0 then "0" else Chars(Cut(d, e + 1)))
    + if f == 0 then "" else "." + Chars(Span(d, e + 1, f))
  }

  /** The characters of f digits, one after the other. */
  method PushDigits(start: string, d: seq<nat>, from: int, f: nat) returns (s: string)
    requires AllDigits(d)
    ensures AllDigits(Span(d, from, f)) && s == start + Chars(Span(d, from, f))
  {
    SpanDigits(d, from, f);
    ghost var want := Chars(Span(d, from, f));
    s := start;
    var i := 0;
    while i < f
      invariant i <= f
      invariant s == start + want[..i]
    {
      s := s + ["0123456789"[Dig(d, from + i)]];
      assert want[..i + 1] == want[..i] + [want[i]];
      i := i + 1;
    }
    assert want[..f] == want;
  }

  method FixedString(d: seq<nat>, e: int, f: nat, neg: bool) returns (s: string)
    requires AllDigits(d)
    ensures s == Signed(neg, FixedDigits(d, e, f))
  {
    hide Chars;
    SpanDigits(d, e + 1, f);
    s := if neg then "-" else "";
    if e < 0 {
      s := s + "0";
    } else {
      assert Cut(d, e + 1) == Span(d, 0, e + 1);
      s := PushDigits(s, d, 0, e + 1);
    }
    if f > 0 {
      s := s + ".";
      s := PushDigits(s, d, e + 1, f);
    }
  }

  /** The whole part and the decimals of a digit string cut f places after the
      point. */
  lemma SplitAtPoint(d: seq<nat>, e: nat, f: nat)
    requires AllDigits(d)
    ensures AllDigits(Cut(d, e + 1)) && AllDigits(Span(d, e + 1, f))
    ensures CutValue(d, e + 1 + f) / Pow(10, f) == CutValue(d, e + 1)
    ensures CutValue(d, e + 1 + f) % Pow(10, f) == DigitsValue(Span(d, e + 1, f))
  {
    hide DigitsValue, Pow;
    SpanDigits(d, e + 1, f);
    var w, r := Cut(d, e + 1), Span(d, e + 1, f);
    assert Cut(d, e + 1 + f) == w + r;
    DigitsConcat(w, r);
    DigitsBound(r);
    DivUnique(CutValue(d, e + 1 + f), Pow(10, f), DigitsValue(w), DigitsValue(r));
  }

  lemma SplitBelowPoint(d: seq<nat>, e: int, f: nat)
    requires AllDigits(d) && e < 0
    ensures AllDigits(Span(d, e + 1, f))
    ensures CutValue(d, e + 1 + f) == DigitsValue(Span(d, e + 1, f)) < Pow(10, f)
  {
    hide DigitsValue, Pow;
    SpanDigits(d, e + 1, f);
    var r, c := Span(d, e + 1, f), Cut(d, e + 1 + f);
    var zeros := r[..f - |c|];
    assert r == zeros + c;
    ZerosValue(zeros);
    DigitsConcat(zeros, c);
    DigitsBound(r);
  }

  /** The text built from digits is the text of the number they make up to the last
      place shown. */
  lemma FixedDigitsText(d: seq<nat>, e: int, f: nat)
    requires AllDigits(d) && (d != [] ==> d[0] != 0) && (d == [] ==> e <= 0)
    ensures FixedDigits(d, e, f) == FixedText(CutValue(d, e + 1 + f), f)
  {
    hide Pow, DigitsValue, NatDigits, Place;
    var n, r := CutValue(d, e + 1 + f), Span(d, e + 1, f);
    SpanDigits(d, e + 1, f);
    PlaceOfValue(r);
    if e < 0 {
      SplitBelowPoint(d, e, f);
      DivUnique(n, Pow(10, f), 0, n);
    } else {
      SplitAtPoint(d, e, f);
      WholePart(d, e);
    }
  }

  lemma WholePart(d: seq<nat>, e: nat)
    requires AllDigits(d) && (d != [] ==> d[0] != 0) && (d == [] ==> e == 0)
    ensures AllDigits(Cut(d, e + 1)) && NatText(CutValue(d, e + 1)) == Chars(Cut(d, e + 1))
  {
    var w := Cut(d, e + 1);
    if d == [] {
      assert w == [0];
      ZerosValue(w);
    } else {
      NatDigitsOfValue(w);
      DigitsLower(w);
    }
  }

  // ---- Form with exponent ----

  method ExpString(d: seq<nat>, e: int, f: nat, neg: bool) returns (s: string)
    requires AllDigits(d)
    ensures s == Signed(neg, ExpText(CutValue(d, f + 1), e, f))
  {
    hide CutValue, NatText, Place, Chars;
    PlaceOfCut(d, f);
    ghost var ds := Cut(d, f + 1);
    assert ds[..1] == Span(d, 0, 1) && ds[1..] == Span(d, 1, f);
    s := if neg then "-" else "";
    ghost var start := s;
    s := PushDigits(s, d, 0, 1);
    if f > 0 {
      s := s + ".";
      s := PushDigits(s, d, 1, f);
    }
    ghost var m := Chars(ds[..1]) + if f == 0 then "" else "." + Chars(ds[1..]);
    assert s == start + m;
    s := s + "e";
    s := s + if e < 0 then "-" else "+";
    s := s + NatText(if e < 0 then -e else e);
    SignedParts(neg, m, if e < 0 then "-" else "+", NatText(if e < 0 then -e else e));
  }

  lemma SignedParts(neg: bool, m: string, sign: string, x: string)
    ensures (if neg then "-" else "") + m + "e" + sign + x == Signed(neg, m + "e" + sign + x)
  {
  }

  lemma PlaceOfCut(d: seq<nat>, f: nat)
    requires AllDigits(d)
    ensures Place(CutValue(d, f + 1), f + 1) == Cut(d, f + 1)
  {
    SpanDigits(d, f + 1, 0);
    PlaceOfValue(Cut(d, f + 1));
  }
}
