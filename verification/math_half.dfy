/** `f64_to_f16_bits`: doubles rounded to binary16. */
module MathHalf {
  import opened Powers
  import opened Doubles
  import opened Rounding
  import opened MathSum

  /** The pattern of infinity, and the positions below it in order. */
  const INF16: nat := 31 * 1024

  /** The magnitude at a binary16 position in units of 2^-24. */
  function Steps16(h: nat): nat {
    if h / 1024 == 0 then h % 1024 else (1024 + h % 1024) * Pow(2, h / 1024 - 1)
  }

  /** The same in units of 2^-1074, as for doubles. */
  function Mag16(h: nat): nat {
    Steps16(h) * Pow(2, 1050)
  }

  lemma StepsAt(shift: nat, k: nat)
    requires 1024 <= k <= 2048
    ensures Steps16(shift * 1024 + k) == k * Pow(2, shift)
  {
    hide Pow;
    var i := shift * 1024 + k;
    if k < 2048 {
      DivUnique(i, 1024, shift + 1, k - 1024);
    } else {
      DivUnique(i, 1024, shift + 2, 0);
      HalfOf(shift + 1);
      MulAssoc(1024, 2, Pow(2, shift));
    }
  }

  lemma StepsBelow(k: nat)
    requires k <= 1024
    ensures Steps16(k) == k
  {
    if k < 1024 {
      DivUnique(k, 1024, 0, k);
    } else {
      DivUnique(k, 1024, 1, 0);
      NoShift(k);
    }
  }

  lemma Mag16Step(i: nat)
    ensures Mag16(i) < Mag16(i + 1)
  {
    hide Pow;
    var e, m := i / 1024, i % 1024;
    DivIdentity(i, 1024);
    if e == 0 {
      StepsBelow(i);
      StepsBelow(i + 1);
    } else {
      StepsAt(e - 1, 1024 + m);
      StepsAt(e - 1, 1024 + m + 1);
      assert (e - 1) * 1024 + (1024 + m) == i;
      MulLt(1024 + m, 1024 + m + 1, Pow(2, e - 1));
    }
    MulLt(Steps16(i), Steps16(i + 1), Pow(2, 1050));
  }

  lemma Grid16()
    ensures Grid(Mag16, INF16)
  {
    forall i | 0 <= i < INF16
      ensures Mag16(i) < Mag16(i + 1)
    {
      Mag16Step(i);
    }
    GridFromSteps(Mag16, INF16);
  }

  // ---- What the conversion has to give ----

  const SIGN16: nat := 0x8000

  predicate IsNaN(b: Bits64) { ExpField(b) == 2047 && MantField(b) != 0 }

  /** h is the binary16 pattern nearest to the double b, ties to even, with its sign;
      a NaN becomes a NaN. */
  predicate IsHalf(b: Bits64, h: nat) {
    && h == Sign(b) * SIGN16 + h % SIGN16
    && if IsNaN(b) then h % SIGN16 == INF16 + 0x200
       else if !IsFinite(b) then h % SIGN16 == INF16
       else NearestEven(Mag(Position(b)), h % SIGN16, INF16, Mag16)
  }

  // ---- The cases ----

  /** A significand at its exponent, in units of 2^-1074. */
  function Scaled(sig: nat, e: int): nat
    requires e >= -1022
  {
    sig * Pow(2, e + 1022)
  }

  lemma MagOfFields(b: Bits64)
    requires 0 < ExpField(b)
    ensures Mag(Position(b)) == Scaled(P52 + MantField(b), ExpField(b) - 1023)
  {
    SignPosition(b);
  }

  /** A shift of the significand is a step of the binary16 grid. */
  lemma ShiftedIsNearest(sig: nat, shift: nat, c: nat, base: nat, q: nat, w: nat)
    requires q == sig / Pow(2, shift) && base % 2 == 0 && base + q + 1 <= INF16
    requires w == Pow(2, shift) * Pow(2, c)
    requires Mag16(base + q) == q * w && Mag16(base + q + 1) == (q + 1) * w
    ensures NearestEven(sig * Pow(2, c), base + RoundQuotient(q, sig % Pow(2, shift), Pow(2, shift)), INF16, Mag16)
  {
    hide Pow, Mag16, NearestEven, Grid;
    var u, v := Pow(2, shift), Pow(2, c);
    DivIdentity(sig, u);
    var d := sig % u;
    ScaleUp(sig, q, d, u, v);
    MulLt(d, u, v);
    SameHalf(q, d, u, v);
    Grid16();
    OneMore(q, w);
    RoundInStep(sig * v, q, d * v, w, base, INF16, Mag16);
  }

  lemma ScaleUp(sig: nat, q: nat, d: nat, u: nat, v: nat)
    requires sig == q * u + d
    ensures sig * v == q * (u * v) + d * v
  {
    MulAssoc(q, u, v);
  }

  lemma SameHalf(q: nat, d: nat, u: nat, v: nat)
    requires v > 0
    ensures RoundQuotient(q, d * v, u * v) == RoundQuotient(q, d, u)
  {
    assert 2 * (d * v) == (2 * d) * v;
    if 2 * d > u {
      MulLt(u, 2 * d, v);
    } else if 2 * d < u {
      MulLt(2 * d, u, v);
    }
  }

  lemma ElevenBits(sig: nat)
    requires P52 <= sig < P53
    ensures 1024 <= sig / Pow(2, 42) < 2048
  {
    TwoTo42();
  }

  lemma NormalScale(e: int)
    requires -14 <= e
    ensures Pow(2, 42) * Pow(2, e + 1022) == Pow(2, e + 14) * Pow(2, 1050)
  {
    hide Pow;
    PowAdd(2, 42, e + 1022);
    PowAdd(2, e + 14, 1050);
  }

  lemma SubnormalScale(e: int)
    requires -1022 <= e <= 28
    ensures Pow(2, 28 - e) * Pow(2, e + 1022) == Pow(2, 1050)
  {
    hide Pow;
    PowAdd(2, 28 - e, e + 1022);
  }

  lemma RoundBounds(q: nat, d: nat, w: nat)
    ensures q <= RoundQuotient(q, d, w) <= q + 1
  {
  }

  lemma EvenMultiple(k: nat)
    ensures k * 1024 % 2 == 0
  {
    DivUnique(k * 1024, 2, k * 512, 0);
  }

  /** Two neighbouring positions of a normal exponent. */
  lemma NormalSteps(shift: nat, q: nat, w: nat, base: nat)
    requires 1024 <= q < 2048 && w == Pow(2, shift) * Pow(2, 1050) && base == shift * 1024
    ensures Mag16(base + q) == q * w && Mag16(base + q + 1) == (q + 1) * w && base % 2 == 0
  {
    hide Pow, Mag16;
    NormalStep(shift, q, w);
    NormalStep(shift, q + 1, w);
    assert base + q + 1 == shift * 1024 + (q + 1);
    EvenMultiple(shift);
  }

  /** Normal numbers: eleven bits stay. */
  lemma NormalCase(sig: nat, e: int, u: nat, q: nat)
    requires P52 <= sig < P53 && -14 <= e <= 15
    requires u == Pow(2, 42) && q == RoundQuotient(sig / u, sig % u, u)
    ensures 1024 <= q <= 2048 && NearestEven(Scaled(sig, e), (e + 14) * 1024 + q, INF16, Mag16)
  {
    hide Pow, Mag16, NearestEven, RoundQuotient;
    ElevenBits(sig);
    NormalScale(e);
    NormalWith(sig, e + 1022, e + 14, sig / u);
    RoundBounds(sig / u, sig % u, u);
  }

  lemma NormalWith(sig: nat, c: nat, shift: nat, q: nat)
    requires q == sig / Pow(2, 42) && 1024 <= q < 2048 && shift <= 29
    requires Pow(2, 42) * Pow(2, c) == Pow(2, shift) * Pow(2, 1050)
    ensures NearestEven(sig * Pow(2, c), shift * 1024 + RoundQuotient(q, sig % Pow(2, 42), Pow(2, 42)), INF16, Mag16)
  {
    hide Pow, Mag16, NearestEven, RoundQuotient;
    var w, base := Pow(2, 42) * Pow(2, c), shift * 1024;
    NormalSteps(shift, q, w, base);
    ShiftedIsNearest(sig, 42, c, base, q, w);
  }

  lemma NormalStep(shift: nat, k: nat, w: nat)
    requires 1024 <= k <= 2048 && w == Pow(2, shift) * Pow(2, 1050)
    ensures Mag16(shift * 1024 + k) == k * w
  {
    hide Pow;
    StepsAt(shift, k);
    MulAssoc(k, Pow(2, shift), Pow(2, 1050));
  }

  lemma TwoTo42()
    ensures Pow(2, 42) == 0x400_0000_0000
  {
    assert Pow(2, 10) == 1024;
    PowAdd(2, 10, 10);
    PowAdd(2, 20, 20);
    PowAdd(2, 40, 2);
    assert Pow(2, 2) == 4;
  }

  lemma TenBits(sig: nat, shift: nat)
    requires sig < P53 && shift >= 43
    ensures sig / Pow(2, shift) < 1024
  {
    TwoTo43(shift);
    hide Pow;
    var u := Pow(2, shift);
    DivIdentity(sig, u);
    if sig / u >= 1024 {
      MulLe(1024, sig / u, u);
    }
  }

  /** Subnormal numbers: the shift depends on the exponent, the step does not. */
  lemma SubnormalCase(sig: nat, e: int)
    requires P52 <= sig < P53 && -25 <= e < -14
    ensures
      var q := RoundQuotient(sig / Pow(2, 28 - e), sig % Pow(2, 28 - e), Pow(2, 28 - e));
      q <= 1024 && NearestEven(Scaled(sig, e), q, INF16, Mag16)
  {
    hide Pow, Mag16, NearestEven, RoundQuotient;
    var shift := 28 - e;
    TenBits(sig, shift);
    var q := sig / Pow(2, shift);
    RoundBounds(q, sig % Pow(2, shift), Pow(2, shift));
    SubnormalScale(e);
    var w := Pow(2, shift) * Pow(2, e + 1022);
    SubnormalStep(q, w);
    SubnormalStep(q + 1, w);
    ShiftedIsNearest(sig, shift, e + 1022, 0, q, w);
  }

  lemma TwoTo43(shift: nat)
    requires shift >= 43
    ensures 1024 * Pow(2, shift) >= P53
  {
    TwoTo42();
    HalfOf(43);
    PowMonotone(2, 43, shift);
  }

  lemma SubnormalStep(k: nat, w: nat)
    requires k <= 1024 && w == Pow(2, 1050)
    ensures Mag16(k) == k * w
  {
    StepsBelow(k);
  }

  /** Below half of the smallest step there is only zero. */
  lemma TinyCase(s: nat)
    requires 2 * s < Pow(2, 1050)
    ensures NearestEven(s, 0, INF16, Mag16)
  {
    hide Pow;
    StepsBelow(0);
    StepsBelow(1);
  }

  /** From 2^16 up there is only infinity. */
  lemma LargeCase(s: nat)
    requires s >= Pow(2, 1090)
    ensures NearestEven(s, INF16, INF16, Mag16)
  {
    hide Pow, Mag16;
    PowAdd(2, 40, 1050);
    TopOfGrid();
    Mag16Step(INF16 - 1);
  }

  lemma TopOfGrid()
    ensures Mag16(INF16) == Pow(2, 40) * Pow(2, 1050)
    ensures Mag16(INF16 - 1) == 2047 * Pow(2, 29) * Pow(2, 1050)
    ensures Pow(2, 40) == 2048 * Pow(2, 29)
  {
    hide Pow, Steps16;
    StepsAt(29, 2048);
    StepsAt(29, 2047);
    PowAdd(2, 11, 29);
    Eleven();
  }

  lemma Eleven()
    ensures Pow(2, 11) == 2048
  {
    assert Pow(2, 10) == 1024;
  }

  lemma ScaleBound(sig: nat, e: int)
    requires P52 <= sig < P53
    ensures e > 15 ==> Scaled(sig, e) >= Pow(2, 1090)
    ensures -1022 <= e < -25 ==> 2 * Scaled(sig, e) < Pow(2, 1050)
  {
    PowersOfTwo();
    hide Pow;
    if e > 15 {
      PowAdd(2, 52, e + 1022);
      PowMonotone(2, 1090, e + 1074);
      MulLe(P52, sig, Pow(2, e + 1022));
    } else if -1022 <= e < -25 {
      HalfOf(e + 1023);
      PowAdd(2, 53, e + 1023);
      PowMonotone(2, e + 1076, 1050);
      MulLt(sig, P53, Pow(2, e + 1023));
    }
  }

  // ---- The conversion ----

  /** The position of a normal double, by cases on its exponent. */
  method HalfPosition(e: int, significand: nat) returns (r: nat)
    requires P52 <= significand < P53 && e >= -1022
    ensures r <= INF16 && NearestEven(Scaled(significand, e), r, INF16, Mag16)
  {
    hide Pow, Mag, Mag16, NearestEven, RoundQuotient;
    ScaleBound(significand, e);
    if e > 15 {
      LargeCase(Scaled(significand, e));
      return INF16;
    }
    if e >= -14 {
      var q := Keep(significand, 42);
      NormalCase(significand, e, Pow(2, 42), q);
      if q == 2048 {
        var e16 := e + 1;
        if e16 > 15 {
          return INF16;
        }
        return (e16 + 15) * 1024;
      }
      return (e + 15) * 1024 + (q - 1024);
    }
    if e < -25 {
      TinyCase(Scaled(significand, e));
      return 0;
    }
    SubnormalCase(significand, e);
    var q := Keep(significand, 28 - e);
    if q == 1024 {
      return 1024;
    }
    return q;
  }

  /** The nearest binary16, with the sign put back. */
  method F64ToF16Bits(b: Bits64) returns (h: nat)
    ensures h < 0x10000 && IsHalf(b, h)
  {
    hide Pow, Mag, Mag16, NearestEven;
    SignPosition(b);
    var sign, mant := Sign(b), MantField(b);
    var exp: int := ExpField(b);
    if exp == 0 {
      SubnormalDouble(b);
      return sign * SIGN16;
    }
    if exp == 2047 {
      var mant16 := if mant == 0 then 0 else 0x200;
      return sign * SIGN16 + INF16 + mant16;
    }
    MagOfFields(b);
    var r := HalfPosition(exp - 1023, P52 + mant);
    return sign * SIGN16 + r;
  }

  lemma SubnormalDouble(b: Bits64)
    requires ExpField(b) == 0
    ensures NearestEven(Mag(Position(b)), 0, INF16, Mag16)
  {
    SignPosition(b);
    PowersOfTwo();
    PowStrict(2, 53, 1050);
    hide Pow, Mag16, NearestEven;
    TinyCase(Mag(Position(b)));
  }

  // ---- Consequences ----

  lemma HalfUnique(b: Bits64, h1: nat, h2: nat)
    requires IsHalf(b, h1) && IsHalf(b, h2)
    ensures h1 == h2
  {
    hide Mag, Mag16;
    Grid16();
    if IsFinite(b) {
      NearestUnique(Mag(Position(b)), h1 % SIGN16, h2 % SIGN16, INF16, Mag16);
    }
  }

  /** The conversion is monotone in the magnitude. */
  lemma MagnitudeMonotone(a: Bits64, b: Bits64, ha: nat, hb: nat)
    requires !IsNaN(a) && !IsNaN(b) && Position(a) <= Position(b)
    requires IsHalf(a, ha) && IsHalf(b, hb)
    ensures ha % SIGN16 <= hb % SIGN16
  {
    hide Mag, Mag16;
    SignPosition(a);
    SignPosition(b);
    if IsFinite(a) && IsFinite(b) {
      Grid16();
      MagGrid();
      assert Position(a) < Position(b) ==> Mag(Position(a)) < Mag(Position(b));
      NearestMonotone(Mag(Position(a)), ha % SIGN16, Mag(Position(b)), hb % SIGN16, INF16, Mag16);
    }
  }

  /** Doubles, and halves, in their order from -Infinity to Infinity, -0 with 0. */
  function Order(b: Bits64): int {
    if Sign(b) == 1 then 0 - Position(b) else Position(b)
  }

  function Order16(h: nat): int {
    if h >= SIGN16 then 0 - h % SIGN16 else h % SIGN16
  }

  lemma BigIsMag(b: Bits64)
    requires IsFinite(b)
    ensures ToBig(b) == if Sign(b) == 1 then 0 - Mag(Position(b)) else Mag(Position(b))
  {
    SignPosition(b);
  }

  lemma MagPositive(p: nat)
    requires p < INF
    ensures Mag(p) > 0 <==> p > 0
  {
    MagGrid();
    assert Mag(0) == 0;
    assert p > 0 ==> Mag(0) < Mag(p);
  }

  /** That is the order of the values. */
  lemma OrderOfValues(a: Bits64, b: Bits64)
    requires IsFinite(a) && IsFinite(b)
    ensures Order(a) <= Order(b) <==> ToBig(a) <= ToBig(b)
  {
    hide Mag, ToBig;
    MagGrid();
    SignPosition(a);
    SignPosition(b);
    BigIsMag(a);
    BigIsMag(b);
    var p, q := Position(a), Position(b);
    MagPositive(p);
    MagPositive(q);
    assert p < q ==> Mag(p) < Mag(q);
    assert q < p ==> Mag(q) < Mag(p);
  }

  lemma ZeroHalf(b: Bits64, h: nat)
    requires IsHalf(b, h) && Position(b) == 0
    ensures h % SIGN16 == 0
  {
    hide Mag, Mag16;
    SignPosition(b);
    Grid16();
    MagPositive(0);
  }

  /** The conversion is monotone. */
  lemma HalfMonotone(a: Bits64, b: Bits64, ha: nat, hb: nat)
    requires !IsNaN(a) && !IsNaN(b) && Order(a) <= Order(b)
    requires IsHalf(a, ha) && IsHalf(b, hb)
    ensures Order16(ha) <= Order16(hb)
  {
    hide IsHalf;
    SignPosition(a);
    SignPosition(b);
    HalfSign(a, ha);
    HalfSign(b, hb);
    if Position(a) == 0 && Position(b) == 0 {
      ZeroHalf(a, ha);
      ZeroHalf(b, hb);
    }
    if Position(a) <= Position(b) {
      MagnitudeMonotone(a, b, ha, hb);
    }
    if Position(b) <= Position(a) {
      MagnitudeMonotone(b, a, hb, ha);
    }
  }

  lemma HalfSign(b: Bits64, h: nat)
    requires IsHalf(b, h)
    ensures h == Sign(b) * SIGN16 + h % SIGN16
  {
  }

  lemma TopMiddle()
    ensures Mag16(INF16 - 1) + Mag16(INF16) == 2 * (65520 * Pow(2, 1074))
  {
    hide Pow, Mag16;
    TopOfGrid();
    Threshold(Pow(2, 29), Pow(2, 1050));
    PowAdd(2, 24, 1050);
    Pow24();
    MulAssoc(65520, Pow(2, 24), Pow(2, 1050));
    MulAssoc(2, 65520 * Pow(2, 24), Pow(2, 1050));
  }

  /** It overflows to infinity exactly from 65520 on. */
  lemma OverflowIff(b: Bits64, h: nat)
    requires IsFinite(b) && IsHalf(b, h)
    ensures h % SIGN16 == INF16 <==> Mag(Position(b)) >= 65520 * Pow(2, 1074)
  {
    hide Pow, Mag, Mag16;
    Grid16();
    TopMiddle();
    var s, r := Mag(Position(b)), h % SIGN16;
    assert r < INF16 - 1 ==> Mag16(r) < Mag16(INF16 - 1);
    assert r + 1 < INF16 ==> Mag16(r + 1) < Mag16(INF16);
  }

  lemma Threshold(a: nat, w: nat)
    ensures 2047 * a * w + (2048 * a) * w == (4095 * a) * w
  {
  }

  lemma Pow24()
    ensures 4095 * Pow(2, 29) == 2 * (65520 * Pow(2, 24))
  {
    PowAdd(2, 5, 24);
    assert Pow(2, 5) == 32;
  }

  // ---- And back ----

  /** A number of at most 53 bits, scaled, is a double. */
  lemma {:induction false} ExactDouble(k: nat, c: nat) returns (r: nat)
    requires k < P53 && c <= 2045
    ensures r < INF && Mag(r) == k * Pow(2, c)
    decreases c
  {
    hide Pow, Mag;
    if k >= P52 {
      r := c * P52 + k;
      MagAt(c, k);
    } else if c == 0 {
      r := k;
      SmallIsPosition(k);
      NoShift(k);
    } else {
      r := ExactDouble(2 * k, c - 1);
      HalfOf(c);
      MulAssoc(k, 2, Pow(2, c - 1));
    }
  }

  /** b is the binary16 number h as a double. */
  predicate IsDoubleOf(b: Bits64, h: nat) {
    IsFinite(b) && Sign(b) == h / SIGN16 && Mag(Position(b)) == Mag16(h % SIGN16)
  }

  /** Every finite binary16 number is a double. */
  lemma HalfIsDouble(h: nat) returns (b: Bits64)
    requires h < 0x10000 && h % SIGN16 < INF16
    ensures IsDoubleOf(b, h)
  {
    hide Pow, Mag, Mag16;
    var r := h % SIGN16;
    var e, m := r / 1024, r % 1024;
    DivIdentity(r, 1024);
    HalfMagnitude(r);
    var p := ExactDouble(if e == 0 then m else 1024 + m, (if e == 0 then 0 else e - 1) + 1050);
    WithSign(h / SIGN16, p);
    b := h / SIGN16 * P63 + p;
    SignPosition(b);
  }

  lemma HalfParts(h: nat)
    requires h < 0x10000
    ensures
      var r, e, m := h % SIGN16, h / 1024 % 32, h % 1024;
      && e == r / 1024 && m == r % 1024 && r == 1024 * e + m
      && (r < INF16 <==> e != 31) && (r == INF16 <==> e == 31 && m == 0)
  {
  }

  /** What the fields of a finite pattern say of its magnitude. */
  lemma HalfMagnitude(r: nat)
    requires r < INF16
    ensures
      var e, m := r / 1024, r % 1024;
      Mag16(r) == (if e == 0 then m else 1024 + m) * Pow(2, (if e == 0 then 0 else e - 1) + 1050)
  {
    hide Pow;
    var e, m := r / 1024, r % 1024;
    var k, c := if e == 0 then m else 1024 + m, if e == 0 then 0 else e - 1;
    PowAdd(2, c, 1050);
    MulAssoc(k, Pow(2, c), Pow(2, 1050));
    NoShift(m);
  }

  /** The double nearest to k 2^c in units of 2^-1074: what a floating-point product
      gives. */
  method Product(k: nat, c: nat) returns (b: Bits64)
    requires k < P53 && c <= 2045
    ensures IsFinite(b) && Sign(b) == 0 && Mag(Position(b)) == k * Pow(2, c)
  {
    hide Pow, Mag, ToBig, IsRounded;
    b := ExactSumToF64(k * Pow(2, c));
    ghost var p := ExactDouble(k, c);
    SignPosition(p);
    BigIsMag(p);
    RoundInverts(p);
    RoundedUnique(k * Pow(2, c), b, p);
  }

  /** f16_bits_to_f64: finite numbers are scaled, infinities and NaN kept. */
  method F16BitsToF64(h: nat) returns (b: Bits64)
    requires h < 0x10000
    ensures h % SIGN16 < INF16 ==> IsDoubleOf(b, h)
    ensures h % SIGN16 == INF16 ==> Sign(b) == h / SIGN16 && Position(b) == INF
    ensures h % SIGN16 > INF16 ==> IsNaN(b)
  {
    hide Pow, Mag, Mag16;
    var sign, exp, mant := h / SIGN16, h / 1024 % 32, h % 1024;
    HalfParts(h);
    if exp == 31 {
      if mant == 0 {
        SignPosition(sign * P63 + INF);
        return sign * P63 + INF;
      }
      SignPosition(INF + P52 / 2);
      return INF + P52 / 2;
    }
    HalfMagnitude(h % SIGN16);
    var v := Product(if exp == 0 then mant else 1024 + mant, (if exp == 0 then 0 else exp - 1) + 1050);
    SignPosition(v);
    b := sign * P63 + v;
    SignPosition(b);
  }

  /** Converting a binary16 number to a double and back gives the number. */
  lemma HalfInverts(b: Bits64, h: nat, r: nat)
    requires h < 0x10000 && h % SIGN16 < INF16 && IsDoubleOf(b, h) && IsHalf(b, r)
    ensures r == h
  {
    hide Mag, Mag16;
    Grid16();
    ExactIsNearest(h % SIGN16, INF16, Mag16);
    NearestUnique(Mag(Position(b)), h % SIGN16, r % SIGN16, INF16, Mag16);
  }
}
