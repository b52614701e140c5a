/** Half-up rounding of digit strings (`round_digits`, `dig`), and what it does to
    the number the digits come from. */
module NumberRounding {
  import opened Powers
  import opened DecimalDigits

  /** The digit at a place of a digit string that goes on with zeros. */
  function Dig(d: seq<nat>, i: int): nat {
    if 0 <= i < |d| then d[i] else 0
  }

  /** The first k digits. */
  function Cut(d: seq<nat>, k: int): (r: seq<nat>)
    ensures |r| == if k < 0 then 0 else k
    ensures forall i :: 0 <= i < |r| ==> r[i] == Dig(d, i)
  {
    seq(if k < 0 then 0 else k, i => Dig(d, i))
  }

  function CutValue(d: seq<nat>, k: int): nat {
    DigitsValue(Cut(d, k))
  }

  lemma CutSnoc(d: seq<nat>, k: nat)
    ensures CutValue(d, k + 1) == 10 * CutValue(d, k) + Dig(d, k)
  {
    assert Cut(d, k + 1) == Cut(d, k) + [Dig(d, k)];
    DigitsSnoc(Cut(d, k), Dig(d, k));
  }

  // ---- Rounding a digit string ----

  function HalfUp(g: nat): nat {
    if g >= 5 then 1 else 0
  }

  /** A run of nines before the rounding place turns to zeros and carries. */
  lemma {:induction false} CarryValue(d: seq<nat>, out: seq<nat>, k: nat, rd: nat)
    requires k < rd <= |d| == |out|
    requires out[..k] == d[..k] && out[k] == d[k] + 1
    requires forall j :: k < j < rd ==> out[j] == 0 && d[j] == 9
    ensures DigitsValue(out[..rd]) == DigitsValue(d[..rd]) + 1
  {
    assert out[..rd][..rd - 1] == out[..rd - 1];
    assert d[..rd][..rd - 1] == d[..rd - 1];
    if rd > k + 1 {
      CarryValue(d, out, k, rd - 1);
    }
  }

  lemma {:induction false} AllNines(d: seq<nat>, rd: nat)
    requires rd <= |d| && forall j :: 0 <= j < rd ==> d[j] == 9
    ensures DigitsValue(d[..rd]) + 1 == Pow(10, rd)
  {
    if rd > 0 {
      assert d[..rd][..rd - 1] == d[..rd - 1];
      AllNines(d, rd - 1);
    }
  }

  lemma {:induction false} OneFollowedByZeros(k: nat)
    requires k > 0
    ensures CutValue([1], k) == Pow(10, k - 1)
  {
    CutSnoc([1], k - 1);
    if k > 1 {
      OneFollowedByZeros(k - 1);
    } else {
      assert Cut([1], 0) == [];
    }
  }

  /** What rounding leaves: digits with a non-zero first one, unless there is none,
      and, up to the rounding place, the number rounded. */
  ghost predicate Rounded(d: seq<nat>, e: int, rd: int, d': seq<nat>, e': int) {
    && AllDigits(d')
    && (rd >= 0 && d != [] ==> d' != [] && (d[0] != 0 ==> d'[0] != 0))
    && (rd < 0 || d == [] ==> d' == [] && e' == e)
    && (e' == e || e' == e + 1)
    && (e' == e + 1 ==> d' == [1])
    && (rd >= 0 ==> CutValue(d', rd + e' - e) == CutValue(d, rd) + HalfUp(Dig(d, rd)))
  }

  /** The carry starts at the last digit shown and moves to the front. */
  method RoundDigits(d: seq<nat>, e: int, rd: int) returns (d': seq<nat>, e': int)
    requires AllDigits(d)
    ensures Rounded(d, e, rd, d', e')
  {
    hide DigitsValue, Pow;
    var out := if rd < 0 then [] else d;
    if Dig(d, rd) < 5 {
      return out, e;
    }
    assert Cut(d, rd) == d[..rd];
    var k := rd - 1;
    while true
      invariant -1 <= k < rd && |out| == |d|
      invariant k == -1 ==> rd == 0
      invariant out[..k + 1] == d[..k + 1]
      invariant forall j :: k < j < rd ==> out[j] == 0 && d[j] == 9
      invariant forall j :: rd <= j < |d| ==> out[j] == d[j]
      decreases k
    {
      if k < 0 {
        assert Cut([1], 1) == [1] && Cut(d, 0) == [];
        EmptyAndOne();
        return [1], e + 1;
      }
      out := out[k := out[k] + 1];
      if out[k] < 10 {
        CarryValue(d, out, k, rd);
        assert forall j :: 0 <= j < k ==> out[j] == out[..k][j] == d[..k][j];
        assert Cut(out, rd) == out[..rd];
        return out, e;
      }
      out := out[k := 0];
      if k == 0 {
        AllNines(d, rd);
        OneFollowedByZeros(rd + 1);
        return [1], e + 1;
      }
      k := k - 1;
    }
  }

  lemma EmptyAndOne()
    ensures DigitsValue([]) == 0 && DigitsValue([1]) == 1
  {
    DigitsSnoc([], 1);
    assert [] + [1] == [1];
  }

  // ---- The number behind the digits ----

  /** m 2^p 10^s as a fraction. */
  function Num(m: nat, p: int, s: int): nat {
    m * (if p >= 0 then Pow(2, p) else 1) * (if s >= 0 then Pow(10, s) else 1)
  }

  function Den(p: int, s: int): (d: nat)
    ensures d > 0
  {
    var a, b := if p >= 0 then 1 else Pow(2, -p), if s >= 0 then 1 else Pow(10, -s);
    MulPos(a - 1, b);
    assert a * b == (a - 1) * b + b;
    a * b
  }

  /** v is the whole part of num / den. */
  predicate IsFloor(v: nat, num: nat, den: nat) {
    v * den <= num < (v + 1) * den
  }

  /** n is the whole number nearest to num / den, the larger one if there are two. */
  predicate Nearest(n: nat, num: nat, den: nat) {
    (2 * n - 1) * den <= 2 * num < (2 * n + 1) * den
  }

  lemma FloorScale(v: nat, num: nat, den: nat, c: nat)
    requires c > 0
    ensures IsFloor(v, num * c, den * c) <==> IsFloor(v, num, den)
  {
    MulAssoc(v, den, c);
    MulAssoc(v + 1, den, c);
    if v * den <= num { MulLe(v * den, num, c); } else { MulLt(num, v * den, c); }
    if num < (v + 1) * den { MulLt(num, (v + 1) * den, c); } else { MulLe((v + 1) * den, num, c); }
  }

  lemma FloorDrop(v: nat, num: nat, den: nat, c: nat)
    requires c > 0 && den > 0 && IsFloor(v, num, den)
    ensures IsFloor(v / c, num, den * c)
  {
    DivIdentity(v, c);
    var u, r := v / c, v % c;
    assert u * (den * c) == (u * c) * den;
    assert (u + 1) * (den * c) == (u * c + c) * den;
    MulLe(u * c, v, den);
    MulLe(v + 1, u * c + c, den);
  }

  /** The next digit decides between rounding down and up. */
  lemma HalfUpNearest(v: nat, g: nat, num: nat, den: nat)
    requires IsFloor(v, num, den) && IsFloor(10 * v + g, 10 * num, den) && g < 10
    ensures Nearest(v + HalfUp(g), num, den)
  {
    var vd := v * den;
    assert (v + 1) * den == vd + den;
    assert (10 * v + g) * den == 10 * vd + g * den;
    assert (10 * v + g + 1) * den == 10 * vd + g * den + den;
    assert (2 * v - 1) * den == 2 * vd - den;
    assert (2 * v + 1) * den == 2 * vd + den;
    assert (2 * (v + 1) + 1) * den == 2 * vd + 3 * den;
    if g >= 5 {
      MulLe(5, g, den);
    } else {
      MulLe(g, 4, den);
    }
  }

  // ---- Cutting an expansion ----

  lemma {:induction false} CutPads(d: seq<nat>, k: nat)
    requires k >= |d|
    ensures CutValue(d, k) == DigitsValue(d) * Pow(10, k - |d|)
    decreases k
  {
    if k == |d| {
      assert Cut(d, k) == d;
    } else {
      CutPads(d, k - 1);
      CutSnoc(d, k - 1);
      assert Pow(10, k - |d|) == 10 * Pow(10, k - 1 - |d|);
    }
  }

  lemma CutPrefix(d: seq<nat>, k: nat)
    requires k <= |d| && AllDigits(d)
    ensures CutValue(d, k) == DigitsValue(d) / Pow(10, |d| - k)
  {
    DigitsPrefix(d, |d| - k);
    assert Cut(d, k) == d[..k];
  }

  lemma PlusOne(s: int)
    ensures s >= 0 ==> Pow(10, s + 1) == 10 * Pow(10, s)
    ensures s < 0 ==> Pow(10, -s) == 10 * Pow(10, -s - 1)
  {
  }

  /** One place more is ten times the fraction. */
  lemma NextTen(v: nat, m: nat, p: int, s: int)
    ensures IsFloor(v, Num(m, p, s + 1), Den(p, s + 1)) <==> IsFloor(v, 10 * Num(m, p, s), Den(p, s))
  {
    hide Pow, IsFloor;
    PlusOne(s);
    var n, a := m * (if p >= 0 then Pow(2, p) else 1), if p >= 0 then 1 else Pow(2, -p);
    if s >= 0 {
      assert n * (10 * Pow(10, s)) == 10 * (n * Pow(10, s));
    } else {
      var b := Pow(10, -s - 1);
      assert a * (10 * b) == (a * b) * 10;
      FloorScale(v, n, a * b, 10);
      if s == -1 { PowZero(); }
    }
  }

  lemma PowZero()
    ensures Pow(10, 0) == 1
  {
  }

  /** Dropping j places from a whole part leaves the whole part j places up. */
  lemma {:induction false} DropPlaces(v: nat, m: nat, p: int, s: int, j: nat)
    requires IsFloor(v, Num(m, p, s), Den(p, s))
    ensures IsFloor(v / Pow(10, j), Num(m, p, s - j), Den(p, s - j))
    decreases j
  {
    if j > 0 {
      hide IsFloor, Num, Den;
      DropOne(v, m, p, s);
      DropPlaces(v / 10, m, p, s - 1, j - 1);
      DivDiv(v, 10, Pow(10, j - 1));
    }
  }

  lemma DropOne(v: nat, m: nat, p: int, s: int)
    requires IsFloor(v, Num(m, p, s), Den(p, s))
    ensures IsFloor(v / 10, Num(m, p, s - 1), Den(p, s - 1))
  {
    hide IsFloor, Num, Den;
    NextTen(v, m, p, s - 1);
    var n, d := Num(m, p, s - 1), Den(p, s - 1);
    FloorDrop(v, 10 * n, d, 10);
    assert 10 * n == n * 10;
    FloorScale(v / 10, n, d, 10);
  }

  /** Adding places to an exact value keeps it exact. */
  lemma {:induction false} AddPlaces(v: nat, m: nat, p: int, s: int, j: nat)
    requires v * Den(p, s) == Num(m, p, s) && s >= 0
    ensures v * Pow(10, j) * Den(p, s + j) == Num(m, p, s + j)
    decreases j
  {
    var n, a := m * (if p >= 0 then Pow(2, p) else 1), if p >= 0 then 1 else Pow(2, -p);
    PowAdd(10, s, j);
    Rearrange(v, a, n, Pow(10, s), Pow(10, j));
  }

  lemma Rearrange(v: nat, a: nat, n: nat, b: nat, c: nat)
    requires v * (a * 1) == n * b
    ensures v * c * (a * 1) == n * (b * c)
  {
    assert v * c * (a * 1) == (v * (a * 1)) * c;
    assert n * (b * c) == (n * b) * c;
  }

  /** A digit string that expands m 2^p is its whole part at the last digit. */
  lemma ExpansionFloor(m: nat, p: int, count: nat, d: seq<nat>, e: int)
    requires IsExpansion(m, p, count, d, e)
    ensures
      var s := |d| - 1 - e;
      && IsFloor(DigitsValue(d), Num(m, p, s), Den(p, s))
      && (|d| < count ==> s >= 0 && DigitsValue(d) * Den(p, s) == Num(m, p, s))
  {
    hide Pow, DigitsValue;
    var s := |d| - 1 - e;
    PowZero();
    if p >= 0 {
      DivIdentity(m * Pow(2, p), Pow(10, -s));
    } else {
      DivIdentity(m * Pow(10, s), Pow(2, -p));
    }
  }

  /** The first k digits of an expansion are its whole part at that place. */
  lemma CutIsFloor(m: nat, p: int, count: nat, d: seq<nat>, e: int, k: nat)
    requires IsExpansion(m, p, count, d, e) && (k <= count || k <= |d|)
    ensures IsFloor(CutValue(d, k), Num(m, p, k - 1 - e), Den(p, k - 1 - e))
  {
    var s, v := |d| - 1 - e, DigitsValue(d);
    ExpansionFloor(m, p, count, d, e);
    if k <= |d| {
      hide Pow, DigitsValue, IsFloor, Num, Den, CutValue;
      CutPrefix(d, k);
      DropPlaces(v, m, p, s, |d| - k);
    } else {
      hide Pow, DigitsValue, Num, CutValue, IsExpansion;
      CutPads(d, k);
      AddPlaces(v, m, p, s, k - |d|);
      MulPlusOne(CutValue(d, k), Den(p, k - 1 - e));
    }
  }

  lemma MulPlusOne(v: nat, d: nat)
    ensures (v + 1) * d == v * d + d
  {
  }

  /** Rounding the digits rounds the number: the first rd digits, as rounded, are
      the nearest whole number at that place. */
  lemma RoundedIsNearest(m: nat, p: int, count: nat, d: seq<nat>, e: int, rd: nat, d': seq<nat>, e': int)
    requires IsExpansion(m, p, count, d, e) && rd + 1 <= count
    requires Rounded(d, e, rd, d', e')
    ensures Nearest(CutValue(d', rd + e' - e), Num(m, p, rd - 1 - e), Den(p, rd - 1 - e))
  {
    CutIsFloor(m, p, count, d, e, rd);
    CutIsFloor(m, p, count, d, e, rd + 1);
    hide Pow, Num, Den, CutValue, Nearest, IsFloor;
    CutSnoc(d, rd);
    var v, g := CutValue(d, rd), Dig(d, rd);
    NextTen(10 * v + g, m, p, rd - 1 - e);
    HalfUpNearest(v, g, Num(m, p, rd - 1 - e), Den(p, rd - 1 - e));
  }
}
