/** The open mask of zip: a 32-bit word with one bit per input, read as an
    unsigned number.  Inputs from 32 on have no bit and always count as open. */
module IteratorMask {
  import opened Powers

  const WORD: nat := 0x1_0000_0000

  type Mask = m: nat | m < WORD

  const ALL_OPEN: Mask := 0xffff_ffff

  predicate Bit(m: nat, i: nat) {
    (m / Pow(2, i)) % 2 == 1
  }

  predicate BitOpen(mask: Mask, i: nat) {
    if i < 32 then Bit(mask, i) else true
  }

  /** `mask & !(1 << i)`: taking the bit away when it is there. */
  function BitClear(mask: Mask, i: nat): Mask {
    if i < 32 && Bit(mask, i) then
      BitLe(mask, i);
      mask - Pow(2, i)
    else mask
  }

  lemma OddQuotient(m: nat, p: nat)
    requires p > 0 && (m / p) % 2 == 1
    ensures p <= m
  {
    var q := m / p;
    DivIdentity(m, p);
    MulLe(1, q, p);
  }

  lemma BitLe(m: nat, i: nat)
    requires Bit(m, i)
    ensures Pow(2, i) <= m
  {
    hide Pow;
    OddQuotient(m, Pow(2, i));
  }

  /** Taking away p leaves the digits of worth more than p. */
  lemma HigherDigit(m: nat, p: nat, d: nat)
    requires p > 0 && d > 0 && (m / p) % 2 == 1 && p <= m
    ensures p * 2 * d > 0 && (m - p) / (p * 2 * d) == m / (p * 2 * d)
  {
    var q := m / p;
    DivShift(m, p, -1);
    assert m + (-1) * p == m - p;
    DivDiv(m, p, 2);
    DivDiv(m - p, p, 2);
    assert (q - 1) / 2 == q / 2;
    DivDiv(m, p * 2, d);
    DivDiv(m - p, p * 2, d);
  }

  /** Taking away an even multiple of p leaves the digit of worth p. */
  lemma LowerDigit(m: nat, p: nat, h: nat)
    requires p > 0
    ensures ((m - 2 * h * p) / p) % 2 == (m / p) % 2
  {
    DivShift(m, p, -(2 * h));
    assert m + (-(2 * h)) * p == m - 2 * h * p;
    EvenShift(m / p, h);
  }

  lemma SameDigit(m: nat, p: nat)
    requires p > 0 && (m / p) % 2 == 1 && p <= m
    ensures ((m - p) / p) % 2 == 0
  {
    DivShift(m, p, -1);
    assert m + (-1) * p == m - p;
  }

  lemma PowAbove(i: nat, j: nat)
    requires i < j
    ensures Pow(2, j) == Pow(2, i) * 2 * Pow(2, j - i - 1)
  {
    PowSplit(2, i + 1, j);
    assert Pow(2, i + 1) == Pow(2, i) * 2;
  }

  lemma BitTaken(m: nat, i: nat, j: nat)
    requires Bit(m, i) && Pow(2, i) <= m
    ensures Bit(m - Pow(2, i), j) <==> i != j && Bit(m, j)
  {
    hide Pow;
    var p := Pow(2, i);
    if i < j {
      PowAbove(i, j);
      HigherDigit(m, p, Pow(2, j - i - 1));
    } else if j < i {
      PowAbove(j, i);
      var h := Pow(2, i - j - 1);
      LowerDigit(m, Pow(2, j), h);
      assert 2 * h * Pow(2, j) == p;
    } else {
      SameDigit(m, p);
    }
  }

  lemma EvenShift(x: int, h: int)
    ensures (x - 2 * h) % 2 == x % 2
  {
  }

  /** Clearing input `i` closes exactly input `i`. */
  lemma ClearedBits(mask: Mask, i: nat, count: nat)
    requires i < count <= 32
    ensures forall j :: 0 <= j < count ==> (BitOpen(BitClear(mask, i), j) <==> i != j && BitOpen(mask, j))
  {
    hide Bit, Pow;
    forall j | 0 <= j < count
      ensures BitOpen(BitClear(mask, i), j) <==> i != j && BitOpen(mask, j)
    {
      if Bit(mask, i) {
        BitLe(mask, i);
        BitTaken(mask, i, j);
      }
    }
  }

  lemma {:induction false} AllOnes(n: nat, j: nat)
    requires j < n
    ensures Pow(2, n) >= 1 && Bit(Pow(2, n) - 1, j)
  {
    PowSplit(2, j, n);
    assert Pow(2, n - j) == 2 * Pow(2, n - j - 1);
    hide Pow;
    OnesAbove(Pow(2, j), Pow(2, n - j - 1));
    MulAssoc(Pow(2, j), 2, Pow(2, n - j - 1));
  }

  lemma OnesAbove(p: nat, h: nat)
    requires p > 0 && h > 0
    ensures p * (2 * h) >= 1 && ((p * (2 * h) - 1) / p) % 2 == 1
  {
    var s := 2 * h;
    assert p * s == (s - 1) * p + p;
    MulPos(s - 1, p);
    DivUnique(p * s - 1, p, s - 1, p - 1);
  }

  lemma WordIsPower()
    ensures Pow(2, 32) == WORD
  {
    PowAdd(2, 16, 16);
    PowAdd(2, 8, 8);
    assert Pow(2, 8) == 256;
  }

  /** A fresh mask has every input open. */
  lemma FreshBit(j: nat)
    ensures BitOpen(ALL_OPEN, j)
  {
    if j < 32 {
      WordIsPower();
      AllOnes(32, j);
    }
  }
}
