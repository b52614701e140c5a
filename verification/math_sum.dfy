/** `Math.sumPrecise`: exact sums, rounded once. */
module MathSum {
  import opened Powers
  import opened Doubles
  import opened Rounding

  // ---- Doubles as whole numbers of 2^-1074 ----

  const INF: nat := 2047 * P52

  /** The magnitude at a position of the doubles in order; infinity stands for the
      value that would come next. */
  function Mag(i: nat): nat {
    if i / P52 == 0 then i % P52 else (P52 + i % P52) * Pow(2, i / P52 - 1)
  }

  lemma MagAt(shift: nat, k: nat)
    requires P52 <= k <= P53
    ensures Mag(shift * P52 + k) == k * Pow(2, shift)
  {
    hide Pow;
    var i := shift * P52 + k;
    if k < P53 {
      DivUnique(i, P52, shift + 1, k - P52);
    } else {
      DivUnique(i, P52, shift + 2, 0);
      HalfOf(shift + 1);
      MulAssoc(P52, 2, Pow(2, shift));
    }
  }

  lemma MagStep(i: nat)
    ensures Mag(i) < Mag(i + 1)
  {
    var e, m := i / P52, i % P52;
    DivIdentity(i, P52);
    if e == 0 {
      if m + 1 < P52 {
        DivUnique(i + 1, P52, 0, m + 1);
      } else {
        DivUnique(i + 1, P52, 1, 0);
        assert Pow(2, 0) == 1;
      }
    } else {
      MagAt(e - 1, P52 + m);
      MagAt(e - 1, P52 + m + 1);
      assert (e - 1) * P52 + (P52 + m) == i;
      MulLt(P52 + m, P52 + m + 1, Pow(2, e - 1));
    }
  }

  lemma MagGrid()
    ensures Grid(Mag, INF)
  {
    forall i | 0 <= i < INF
      ensures Mag(i) < Mag(i + 1)
    {
      MagStep(i);
    }
    GridFromSteps(Mag, INF);
  }

  /** The position of a double without its sign. */
  function Position(b: Bits64): nat { b % P63 }

  lemma SignPosition(b: Bits64)
    ensures b == Sign(b) * P63 + Position(b) && Sign(b) < 2
    ensures ExpField(b) == Position(b) / P52 && MantField(b) == Position(b) % P52
    ensures IsFinite(b) <==> Position(b) < INF
  {
    DivIdentity(b, P63);
    var p := Position(b);
    DivIdentity(p, P52);
    var e, m := p / P52, p % P52;
    DivUnique(b, P52, Sign(b) * 2048 + e, m);
    DivUnique(Sign(b) * 2048 + e, 2048, Sign(b), e);
  }

  // ---- To whole numbers and back ----

  /** A finite double in units of 2^-1074. */
  function ToBig(b: Bits64): int {
    var mag := if ExpField(b) == 0 then MantField(b) else (P52 + MantField(b)) * Pow(2, ExpField(b) - 1);
    if Sign(b) == 1 then -mag else mag
  }

  /** b is the double nearest to s 2^-1074, ties to even; zero is positive. */
  predicate IsRounded(s: int, b: Bits64) {
    if s == 0 then b == 0
    else
      && Sign(b) == (if s < 0 then 1 else 0)
      && NearestEven(if s < 0 then -s else s, Position(b), INF, Mag)
  }

  lemma RoundedUnique(s: int, b1: Bits64, b2: Bits64)
    requires IsRounded(s, b1) && IsRounded(s, b2)
    ensures b1 == b2
  {
    if s != 0 {
      MagGrid();
      NearestUnique(if s < 0 then -s else s, Position(b1), Position(b2), INF, Mag);
      SignPosition(b1);
      SignPosition(b2);
    }
  }

  const MINUS_ZERO: Bits64 := P63

  /** A finite double other than -0 is what its own magnitude rounds to. */
  lemma RoundInverts(b: Bits64)
    requires IsFinite(b) && b != MINUS_ZERO
    ensures IsRounded(ToBig(b), b)
  {
    SignPosition(b);
    MagGrid();
    var p := Position(b);
    var m: int := Mag(p);
    assert ToBig(b) == if Sign(b) == 1 then -m else m;
    assert Mag(0) == 0;
    assert p > 0 ==> Mag(0) < Mag(p);
    ExactIsNearest(p, INF, Mag);
  }

  /** The place of the highest bit. */
  function HighBit(a: nat): (p: nat)
    requires a > 0
    ensures Pow(2, p) <= a < Pow(2, p + 1)
  {
    if a == 1 then 0 else 1 + HighBit(a / 2)
  }

  lemma PowersOfTwo()
    ensures Pow(2, 52) == P52 && Pow(2, 53) == P53
  {
    assert Pow(2, 10) == 1024;
    PowAdd(2, 10, 10);
    PowAdd(2, 20, 20);
    PowAdd(2, 40, 10);
    PowAdd(2, 50, 2);
    assert Pow(2, 2) == 4;
  }

  /** From the highest bit: the numbers below 2^52 are positions themselves. */
  lemma SmallIsPosition(a: nat)
    requires a < P52
    ensures Mag(a) == a
  {
    DivUnique(a, P52, 0, a);
  }

  lemma FiftyThreeBits(a: nat, p: nat)
    requires p >= 52 && Pow(2, p) <= a < Pow(2, p + 1)
    ensures P52 <= a / Pow(2, p - 52) < P53
    ensures a == a / Pow(2, p - 52) * Pow(2, p - 52) + a % Pow(2, p - 52) && a % Pow(2, p - 52) < Pow(2, p - 52)
  {
    PowersOfTwo();
    PowAdd(2, 52, p - 52);
    PowAdd(2, 53, p - 52);
    var w := Pow(2, p - 52);
    DivIdentity(a, w);
    hide Pow;
    var q := a / w;
    OneMore(q, w);
    if q < P52 {
      MulLe(q + 1, P52, w);
    }
    if q >= P53 {
      MulLe(P53, q, w);
    }
  }

  lemma OneMore(q: nat, w: nat)
    ensures (q + 1) * w == q * w + w
  {
  }

  lemma EvenBase(shift: nat)
    ensures shift * P52 % 2 == 0
  {
    DivUnique(shift * P52, 2, shift * (P52 / 2), 0);
  }

  lemma KeepIsNearest(a: nat, p: nat, keep: nat)
    requires 52 <= p <= 2097 && Pow(2, p) <= a < Pow(2, p + 1)
    requires keep == RoundQuotient(a / Pow(2, p - 52), a % Pow(2, p - 52), Pow(2, p - 52))
    ensures P52 <= keep <= P53
    ensures (p - 52) * P52 + keep <= INF && NearestEven(a, (p - 52) * P52 + keep, INF, Mag)
  {
    FiftyThreeBits(a, p);
    hide Pow, Mag, NearestEven, Grid;
    var shift := p - 52;
    var w := Pow(2, shift);
    var q, d := a / w, a % w;
    MagGrid();
    MagAt(shift, q);
    MagAt(shift, q + 1);
    OneMore(q, w);
    EvenBase(shift);
    RoundInStep(a, q, d, w, shift * P52, INF, Mag);
  }

  lemma HugeIsInfinite(a: nat, p: nat)
    requires p > 2097 && Pow(2, p) <= a
    ensures NearestEven(a, INF, INF, Mag)
  {
    PowMonotone(2, 2098, p);
    PowersOfTwo();
    PowAdd(2, 53, 2045);
    MagAt(2045, P53);
    MagStep(INF - 1);
    hide Pow, Mag;
    assert 2045 * P52 + P53 == INF;
  }

  /** The bits above the shift, rounded to even. */
  method Keep(a: nat, shift: nat) returns (keep: nat)
    ensures keep == RoundQuotient(a / Pow(2, shift), a % Pow(2, shift), Pow(2, shift))
  {
    hide Pow;
    keep := a / Pow(2, shift);
    if shift > 0 {
      var drop := a % Pow(2, shift);
      var half := Pow(2, shift - 1);
      HalfOf(shift);
      if drop > half || (drop == half && keep % 2 == 1) {
        keep := keep + 1;
      }
    } else {
      NoShift(a);
    }
  }

  /** The sum is rounded by keeping its highest 53 bits. */
  method ExactSumToF64(s: int) returns (b: Bits64)
    ensures IsRounded(s, b)
  {
    hide Pow, Mag, NearestEven, RoundQuotient, Sign, Position;
    if s == 0 {
      return 0;
    }
    var sign := if s < 0 then 1 else 0;
    var a: nat := if s < 0 then -s else s;
    var p: int := HighBit(a);
    if p > 2097 {
      HugeIsInfinite(a, p);
      WithSign(sign, INF);
      return sign * P63 + INF;
    }
    if p < 52 {
      BelowIsExact(a, p);
      WithSign(sign, a);
      return sign * P63 + a;
    }
    var shift := p - 52;
    var keep := Keep(a, shift);
    KeepIsNearest(a, p, keep);
    WithSign(sign, shift * P52 + keep);
    var e: int := p - 1074;
    if keep == P53 {
      keep := keep / 2;
      e := e + 1;
    }
    if e > 1023 {
      return sign * P63 + INF;
    }
    return sign * P63 + (e + 1023) * P52 + (keep - P52);
  }

  lemma WithSign(sign: nat, p: nat)
    requires sign < 2 && p <= INF
    ensures sign * P63 + p < P64 && Sign(sign * P63 + p) == sign && Position(sign * P63 + p) == p
  {
    DivUnique(sign * P63 + p, P63, sign, p);
  }

  lemma BelowIsExact(a: nat, p: nat)
    requires p < 52 && a < Pow(2, p + 1)
    ensures a < P52 && NearestEven(a, a, INF, Mag)
  {
    PowMonotone(2, p + 1, 52);
    PowersOfTwo();
    MagGrid();
    SmallIsPosition(a);
    ExactIsNearest(a, INF, Mag);
  }

  lemma HalfOf(shift: nat)
    requires shift > 0
    ensures Pow(2, shift) == 2 * Pow(2, shift - 1)
  {
  }

  lemma NoShift(a: nat)
    ensures Pow(2, 0) == 1 && a % Pow(2, 0) == 0 && a / Pow(2, 0) == a
  {
  }
}
