/** Decimal digits of exact binary fractions. */
module DecimalDigits {
  import opened Basics
  import opened Powers

  predicate AllDigits(ds: seq<nat>) {
    forall i :: 0 <= i < |ds| ==> ds[i] < 10
  }

  /** The number a digit string stands for, first digit highest. */
  function DigitsValue(ds: seq<nat>): nat {
    if ds == [] then 0 else 10 * DigitsValue(ds[..|ds| - 1]) + ds[|ds| - 1]
  }

  /** The decimal digits of a number; none for zero. */
  function NatDigits(n: nat): (ds: seq<nat>)
    ensures AllDigits(ds)
    ensures n > 0 ==> ds != [] && ds[0] != 0
    ensures n == 0 ==> ds == []
  {
    if n == 0 then []
    else
      NatDigits(n / 10) + [n % 10]
  }

  lemma DigitsSnoc(ds: seq<nat>, d: nat)
    ensures DigitsValue(ds + [d]) == 10 * DigitsValue(ds) + d
  {
    assert (ds + [d])[..|ds|] == ds;
  }

  lemma {:induction false} NatDigitsValue(n: nat)
    ensures DigitsValue(NatDigits(n)) == n
  {
    if n > 0 {
      NatDigitsValue(n / 10);
      DigitsSnoc(NatDigits(n / 10), n % 10);
    }
  }

  lemma {:induction false} DigitsBound(ds: seq<nat>)
    requires AllDigits(ds)
    ensures DigitsValue(ds) < Pow(10, |ds|)
  {
    if ds != [] {
      DigitsBound(ds[..|ds| - 1]);
    }
  }

  lemma {:induction false} DigitsLower(ds: seq<nat>)
    requires ds != [] && ds[0] != 0
    ensures Pow(10, |ds| - 1) <= DigitsValue(ds)
  {
    if |ds| > 1 {
      DigitsLower(ds[..|ds| - 1]);
    }
  }

  /** Dropping the last k digits divides by 10^k. */
  lemma {:induction false} DigitsPrefix(ds: seq<nat>, k: nat)
    requires AllDigits(ds) && k <= |ds|
    ensures DigitsValue(ds[..|ds| - k]) == DigitsValue(ds) / Pow(10, k)
    decreases k
  {
    if k == 0 {
      assert ds[..|ds|] == ds;
    } else {
      var t := ds[..|ds| - 1];
      DigitsPrefix(t, k - 1);
      assert t[..|t| - (k - 1)] == ds[..|ds| - k];
      DivUnique(DigitsValue(ds), 10, DigitsValue(t), ds[|ds| - 1]);
      DivDiv(DigitsValue(ds), 10, Pow(10, k - 1));
    }
  }

  // ---- Fractions m / 2^q ----

  /** The expansion of a fraction, digit by digit.  `r / 2^q` is what is left after
      `pos` fractional digits, `digits` the significant digits so far, `e` the
      exponent of the first one.  `read` is what becomes of a digit on its way out
      of the number object. */
  function Expand(r: nat, q: nat, count: nat, digits: seq<nat>, e: Option<int>, pos: nat, read: nat -> nat)
    : (res: (seq<nat>, Option<int>))
    requires r < Pow(2, q) && pos <= q && r % Pow(2, pos) == 0
    decreases q - pos
  {
    if |digits| >= count || r == 0 then (digits, e)
    else
      ExpandProgress(r, q, pos);
      var d := read(10 * r / Pow(2, q));
      var r' := 10 * r % Pow(2, q);
      if d == 0 && e.None? then Expand(r', q, count, digits, None, pos + 1, read)
      else
        Expand(r', q, count, digits + [d], if e.None? then Some(-(pos + 1)) else e, pos + 1, read)
  }

  /** Each step makes what is left divisible by one more power of two, so after q
      digits nothing is left. */
  lemma ExpandProgress(r: nat, q: nat, pos: nat)
    requires 0 < r < Pow(2, q) && pos <= q && r % Pow(2, pos) == 0
    ensures pos < q
    ensures 10 * r % Pow(2, q) < Pow(2, q)
    ensures 10 * r % Pow(2, q) % Pow(2, pos + 1) == 0
    ensures 10 * r / Pow(2, q) < 10
  {
    var w := Pow(2, q);
    if pos == q {
      DivUnique(r, w, 0, r);
    }
    DivIdentity(10 * r, w);
    QuotientDigit(r, w);
    PowSplit(2, pos + 1, q);
    var a, b := Pow(2, pos + 1), Pow(2, q - pos - 1);
    DivIdentity(r, Pow(2, pos));
    var k := r / Pow(2, pos);
    assert a == 2 * Pow(2, pos);
    TenTimes(k, Pow(2, pos));
    RemainderDivides(10 * r, a, b, 5 * k);
  }

  lemma QuotientDigit(r: nat, w: nat)
    requires r < w
    ensures 10 * r / w < 10
  {
    DivIdentity(10 * r, w);
    var d := 10 * r / w;
    if d >= 10 {
      MulLe(10, d, w);
    }
  }

  lemma TenTimes(k: nat, p: nat)
    ensures 10 * (k * p) == (5 * k) * (2 * p)
  {
  }

  lemma RemainderDivides(x: nat, a: nat, b: nat, k: nat)
    requires a > 0 && b > 0 && x == k * a
    ensures a * b > 0 && x % (a * b) % a == 0
  {
    MulPos(a - 1, b);
    assert a * b >= b;
    DivIdentity(x, a * b);
    var q := x / (a * b);
    assert x % (a * b) == k * a - q * (a * b);
    assert q * (a * b) == (q * b) * a;
    assert x % (a * b) == (k - q * b) * a;
    DivUnique(x % (a * b), a, k - q * b, 0);
  }

  // ---- What a correct expansion is ----

  /** `digits` and the exponent `e` of the first of them are the decimal expansion
      of m 2^p, cut off after a place: the first digit is not zero, the digits are
      the whole part at that place, and if there are fewer than `count` of them,
      nothing was cut off. */
  ghost predicate IsExpansion(m: nat, p: int, count: nat, digits: seq<nat>, e: int) {
    && digits != [] && digits[0] != 0 && AllDigits(digits)
    && (var f := |digits| - 1 - e;
        if p >= 0 then
          && f <= 0 && |digits| <= count
          && DigitsValue(digits) == m * Pow(2, p) / Pow(10, -f)
          && (|digits| < count ==> f == 0)
        else
          && f >= 0
          && DigitsValue(digits) == m * Pow(10, f) / Pow(2, -p)
          && (|digits| < count ==> m * Pow(10, f) % Pow(2, -p) == 0))
  }

  /** Reading digits without loss. */
  function Exact(d: nat): nat { d }

  /** One more decimal place of m / w. */
  lemma NextPlace(m: nat, w: nat, t: nat)
    requires w > 0
    ensures (10 * t * m) / w == 10 * (t * m / w) + 10 * (t * m % w) / w
    ensures (10 * t * m) % w == 10 * (t * m % w) % w
  {
    var x := t * m;
    DivIdentity(x, w);
    var a, r := x / w, x % w;
    assert 10 * t * m == 10 * r + (10 * a) * w;
    DivShift(10 * r, w, 10 * a);
  }

  /** The state of a correct expansion after `pos` fractional digits. */
  ghost predicate Expanding(m: nat, q: nat, r: nat, digits: seq<nat>, e: Option<int>, pos: nat) {
    && AllDigits(digits)
    && r == Pow(10, pos) * m % Pow(2, q)
    && DigitsValue(digits) == Pow(10, pos) * m / Pow(2, q)
    && (digits != [] ==> digits[0] != 0 && e == Some(|digits| - 1 - pos))
    && (digits == [] ==> e.None?)
  }

  lemma ExpandingStep(m: nat, q: nat, r: nat, digits: seq<nat>, e: Option<int>, pos: nat)
    requires Expanding(m, q, r, digits, e, pos)
    ensures
      var d, r' := 10 * r / Pow(2, q), 10 * r % Pow(2, q);
      if d == 0 && e.None? then Expanding(m, q, r', digits, None, pos + 1)
      else Expanding(m, q, r', digits + [d], if e.None? then Some(-(pos + 1)) else e, pos + 1)
  {
    var w, t := Pow(2, q), Pow(10, pos);
    var d := 10 * r / w;
    NextPlace(m, w, t);
    DivIdentity(t * m, w);
    QuotientDigit(r, w);
    assert Pow(10, pos + 1) == 10 * t;
    DigitsSnoc(digits, d);
  }

  lemma ExpandEnds(m: nat, q: nat, r: nat, count: nat, digits: seq<nat>, e: Option<int>, pos: nat)
    requires m > 0 && count > 0 && q > 0
    requires Expanding(m, q, r, digits, e, pos)
    requires |digits| >= count || r == 0
    ensures e.Some? && IsExpansion(m, 0 - q, count, digits, e.value)
  {
    hide Pow, DigitsValue;
    if r == 0 {
      FirstDigitComes(m, Pow(2, q), Pow(10, pos), digits);
    }
    assert m * Pow(10, pos) == Pow(10, pos) * m;
  }

  lemma {:induction false} ExpandCorrect(m: nat, q: nat, r: nat, count: nat, digits: seq<nat>, e: Option<int>, pos: nat)
    requires m > 0 && count > 0 && pos <= q && r < Pow(2, q) && r % Pow(2, pos) == 0
    requires Expanding(m, q, r, digits, e, pos) && q > 0
    ensures
      var (ds, e') := Expand(r, q, count, digits, e, pos, Exact);
      e'.Some? && IsExpansion(m, 0 - q, count, ds, e'.value)
    decreases q - pos
  {
    hide Pow, DigitsValue, IsExpansion, Expanding;
    if |digits| >= count || r == 0 {
      ExpandEnds(m, q, r, count, digits, e, pos);
    } else {
      ExpandProgress(r, q, pos);
      ExpandingStep(m, q, r, digits, e, pos);
      var d, r' := 10 * r / Pow(2, q), 10 * r % Pow(2, q);
      if d == 0 && e.None? {
        ExpandCorrect(m, q, r', count, digits, None, pos + 1);
      } else {
        ExpandCorrect(m, q, r', count, digits + [d], if e.None? then Some(-(pos + 1)) else e, pos + 1);
      }
    }
  }

  /** A positive number has a first significant digit before its digits run out. */
  lemma FirstDigitComes(m: nat, w: nat, t: nat, digits: seq<nat>)
    requires m > 0 && w > 0 && t > 0
    requires t * m % w == 0 && DigitsValue(digits) == t * m / w
    ensures digits != []
  {
    DivIdentity(t * m, w);
    MulLe(1, m, t);
  }
}
