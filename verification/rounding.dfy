/** Rounding to the nearest value of a grid, ties to the even position. */
module Rounding {

  /** A grid of values at the positions 0 to top. */
  ghost predicate Grid(mag: nat -> nat, top: nat) {
    forall i, j :: 0 <= i < j <= top ==> mag(i) < mag(j)
  }

  /** r is the position nearest to s; between two, the even one. */
  predicate NearestEven(s: nat, r: nat, top: nat, mag: nat -> nat) {
    && r <= top
    && (r > 0 ==> mag(r - 1) + mag(r) <= 2 * s && (mag(r - 1) + mag(r) == 2 * s ==> r % 2 == 0))
    && (r < top ==> 2 * s <= mag(r) + mag(r + 1) && (2 * s == mag(r) + mag(r + 1) ==> r % 2 == 0))
  }

  function Distance(a: nat, b: nat): nat {
    if a >= b then a - b else b - a
  }

  /** No position of the grid is nearer, and one as near gives way to an even one. */
  lemma NothingNearer(s: nat, r: nat, i: nat, top: nat, mag: nat -> nat)
    requires Grid(mag, top) && NearestEven(s, r, top, mag) && i <= top && s <= mag(top)
    ensures Distance(mag(r), s) <= Distance(mag(i), s)
    ensures i != r && Distance(mag(r), s) == Distance(mag(i), s) ==> r % 2 == 0
  {
    if i < r {
      assert i < r - 1 ==> mag(i) < mag(r - 1);
      assert r < top ==> mag(r) < mag(r + 1);
    } else if i > r {
      assert r + 1 < i ==> mag(r + 1) < mag(i);
      assert r > 0 ==> mag(r - 1) < mag(r);
    }
  }

  /** Larger numbers do not round to smaller positions. */
  lemma NearestMonotone(s1: nat, r1: nat, s2: nat, r2: nat, top: nat, mag: nat -> nat)
    requires Grid(mag, top) && s1 <= s2
    requires NearestEven(s1, r1, top, mag) && NearestEven(s2, r2, top, mag)
    ensures r1 <= r2
  {
  }

  lemma NearestUnique(s: nat, r1: nat, r2: nat, top: nat, mag: nat -> nat)
    requires Grid(mag, top) && NearestEven(s, r1, top, mag) && NearestEven(s, r2, top, mag)
    ensures r1 == r2
  {
    NearestMonotone(s, r1, s, r2, top, mag);
    NearestMonotone(s, r2, s, r1, top, mag);
  }

  lemma ExactIsNearest(r: nat, top: nat, mag: nat -> nat)
    requires Grid(mag, top) && r <= top
    ensures NearestEven(mag(r), r, top, mag)
  {
    assert r > 0 ==> mag(r - 1) < mag(r);
    assert r < top ==> mag(r) < mag(r + 1);
  }

  /** The quotient of a shift, rounded up when more than half is dropped, or half
      and the quotient is odd. */
  function RoundQuotient(q: nat, dropped: nat, w: nat): nat {
    if 2 * dropped > w || (2 * dropped == w && q % 2 == 1) then q + 1 else q
  }

  /** Rounding a quotient is rounding on a grid whose steps there are w. */
  lemma RoundInStep(s: nat, q: nat, dropped: nat, w: nat, base: nat, top: nat, mag: nat -> nat)
    requires Grid(mag, top) && base % 2 == 0 && base + q + 1 <= top
    requires s == mag(base + q) + dropped && dropped < w && mag(base + q + 1) == mag(base + q) + w
    ensures NearestEven(s, base + RoundQuotient(q, dropped, w), top, mag)
  {
    var r := base + q;
    assert r > 0 ==> mag(r - 1) < mag(r);
    assert r + 1 < top ==> mag(r + 1) < mag(r + 2);
    assert r % 2 == q % 2;
  }

  /** A grid need only be checked step by step. */
  lemma {:induction false} GridFromSteps(mag: nat -> nat, top: nat)
    requires forall i :: 0 <= i < top ==> mag(i) < mag(i + 1)
    ensures Grid(mag, top)
  {
    forall i, j | 0 <= i < j <= top
      ensures mag(i) < mag(j)
    {
      StepsAdd(mag, top, i, j);
    }
  }

  lemma {:induction false} StepsAdd(mag: nat -> nat, top: nat, i: nat, j: nat)
    requires forall k :: 0 <= k < top ==> mag(k) < mag(k + 1)
    requires i < j <= top
    ensures mag(i) < mag(j)
    decreases j
  {
    assert mag(j - 1) < mag(j - 1 + 1);
    if i < j - 1 {
      StepsAdd(mag, top, i, j - 1);
    }
  }
}
