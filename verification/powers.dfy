/** Powers and the few facts about division that the models share. */
module Powers {

  function Pow(b: nat, n: nat): (r: nat)
    ensures b > 0 ==> r > 0
  {
    if n == 0 then 1
    else
      assert b > 0 ==> b * Pow(b, n - 1) > 0;
      b * Pow(b, n - 1)
  }

  lemma {:induction false} PowAdd(b: nat, m: nat, n: nat)
    ensures Pow(b, m + n) == Pow(b, m) * Pow(b, n)
  {
    if m > 0 {
      PowAdd(b, m - 1, n);
      assert Pow(b, m + n) == b * (Pow(b, m - 1) * Pow(b, n));
      MulAssoc(b, Pow(b, m - 1), Pow(b, n));
    }
  }

  lemma PowSplit(b: nat, m: nat, n: nat)
    requires m <= n
    ensures Pow(b, n) == Pow(b, m) * Pow(b, n - m)
  {
    PowAdd(b, m, n - m);
  }

  lemma {:induction false} PowMonotone(b: nat, m: nat, n: nat)
    requires b >= 1 && m <= n
    ensures Pow(b, m) <= Pow(b, n)
  {
    if m < n {
      PowMonotone(b, m, n - 1);
      MulLe(1, b, Pow(b, n - 1));
    }
  }

  lemma {:induction false} PowStrict(b: nat, m: nat, n: nat)
    requires b >= 2 && m < n
    ensures Pow(b, m) < Pow(b, n)
  {
    PowMonotone(b, m, n - 1);
    MulLe(2, b, Pow(b, n - 1));
  }

  // ---- Multiplication ----

  lemma MulAssoc(a: int, b: int, c: int)
    ensures a * (b * c) == (a * b) * c
  {
  }

  lemma MulLe(a: int, b: int, c: int)
    requires a <= b && c >= 0
    ensures a * c <= b * c
  {
  }

  lemma MulLt(a: int, b: int, c: int)
    requires a < b && c > 0
    ensures a * c < b * c
  {
  }

  lemma MulPos(a: int, b: int)
    requires a >= 0 && b >= 0
    ensures a * b >= 0
  {
  }

  // ---- Division ----

  /** Quotient and remainder are the only pair with these bounds. */
  lemma DivUnique(x: int, d: int, q: int, r: int)
    requires d > 0 && 0 <= r < d && x == q * d + r
    ensures x / d == q && x % d == r
  {
    var q', r' := x / d, x % d;
    assert x == q' * d + r';
    assert (q - q') * d == r' - r;
    if q > q' {
      MulLe(1, q - q', d);
    } else if q < q' {
      MulLe(q - q', -1, d);
    }
  }

  lemma DivIdentity(x: int, d: int)
    requires d > 0
    ensures x == (x / d) * d + x % d && 0 <= x % d < d
  {
  }

  lemma DivShift(x: int, d: int, k: int)
    requires d > 0
    ensures (x + k * d) / d == x / d + k
    ensures (x + k * d) % d == x % d
  {
    DivIdentity(x, d);
    assert x + k * d == (x / d + k) * d + x % d;
    DivUnique(x + k * d, d, x / d + k, x % d);
  }

  lemma DivDiv(x: int, a: int, b: int)
    requires a > 0 && b > 0
    ensures a * b > 0
    ensures x / (a * b) == (x / a) / b
  {
    var q, r := x / a, x % a;
    var q2, r2 := q / b, q % b;
    DivIdentity(x, a);
    DivIdentity(q, b);
    assert x == (q2 * b + r2) * a + r;
    assert (q2 * b) * a == q2 * (a * b);
    assert x == q2 * (a * b) + (r2 * a + r);
    MulLe(r2, b - 1, a);
    assert (b - 1) * a == a * b - a;
    MulPos(r2, a);
    MulPos(a - 1, b);
    assert a * b >= b > 0;
    DivUnique(x, a * b, q2, r2 * a + r);
  }

  lemma DivMonotone(x: int, y: int, d: int)
    requires d > 0 && x <= y
    ensures x / d <= y / d
  {
    DivIdentity(x, d);
    DivIdentity(y, d);
    var a, b := x / d, y / d;
    if b < a {
      MulLe(b + 1, a, d);
    }
  }
}
