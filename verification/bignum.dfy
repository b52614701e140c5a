/** The base-2^32 natural numbers behind exact decimal formatting.  Limbs are
    stored lowest first. */
module Limbs {
  import opened Powers

  const BASE: nat := 0x1_0000_0000

  type Limb = x: nat | x < BASE

  /** The number a limb vector stands for. */
  function Value(ls: seq<Limb>): nat {
    if ls == [] then 0 else ls[0] + BASE * Value(ls[1..])
  }

  lemma BaseIsPower()
    ensures Pow(2, 32) == BASE
  {
    PowAdd(2, 16, 16);
    PowAdd(2, 8, 8);
    assert Pow(2, 8) == 256;
  }

  /** 2^(32 n) */
  function Word(n: nat): (r: nat)
    ensures r > 0
  {
    Pow(BASE, n)
  }

  lemma {:induction false} WordIsPower(n: nat)
    ensures Word(n) == Pow(2, 32 * n)
  {
    if n > 0 {
      WordIsPower(n - 1);
      BaseIsPower();
      PowAdd(2, 32, 32 * (n - 1));
    }
  }

  /** Low part plus high part. */
  lemma {:induction false} ValueSplit(ls: seq<Limb>, k: nat)
    requires k <= |ls|
    ensures Value(ls) == Value(ls[..k]) + Word(k) * Value(ls[k..])
  {
    if k == 0 {
      assert ls[0..] == ls;
    } else {
      var t := ls[1..];
      ValueSplit(t, k - 1);
      assert ls[..k][1..] == t[..k - 1] && ls[k..] == t[k - 1..];
      var a, b := Value(t[..k - 1]), Value(t[k - 1..]);
      assert BASE * (a + Word(k - 1) * b) == BASE * a + BASE * (Word(k - 1) * b);
      MulAssoc(BASE, Word(k - 1), b);
    }
  }

  lemma {:induction false} ValueBound(ls: seq<Limb>)
    ensures Value(ls) < Word(|ls|)
  {
    if ls != [] {
      ValueBound(ls[1..]);
      MulLe(Value(ls[1..]) + 1, Word(|ls| - 1), BASE);
    }
  }

  lemma {:induction false} ValueSnoc(ls: seq<Limb>, x: Limb)
    ensures Value(ls + [x]) == Value(ls) + Word(|ls|) * x
  {
    ValueSplit(ls + [x], |ls|);
    assert (ls + [x])[..|ls|] == ls;
    assert (ls + [x])[|ls|..] == [x];
    assert Value([x]) == x;
  }

  /** A vector is zero exactly when all its limbs are. */
  lemma {:induction false} ZeroLimbs(ls: seq<Limb>)
    ensures Value(ls) == 0 <==> forall i :: 0 <= i < |ls| ==> ls[i] == 0
  {
    if ls != [] {
      ZeroLimbs(ls[1..]);
      MulPos(BASE, Value(ls[1..]));
    }
  }

  lemma {:induction false} ValueZeros(n: nat)
    ensures Value(seq(n, _ => 0)) == 0
  {
    ZeroLimbs(seq(n, _ => 0));
  }

  /** Putting `n` zero limbs below multiplies by 2^(32 n). */
  lemma ValueShifted(n: nat, ls: seq<Limb>)
    ensures Value(seq(n, _ => 0) + ls) == Word(n) * Value(ls)
  {
    var z := seq(n, _ => 0);
    ValueSplit(z + ls, n);
    assert (z + ls)[..n] == z && (z + ls)[n..] == ls;
    ValueZeros(n);
  }

  // ---- Dropping high zeros ----

  function Trimmed(ls: seq<Limb>): (r: seq<Limb>)
    ensures Value(r) == Value(ls)
    ensures ls != [] ==> r != [] && r[0] == ls[0]
    ensures |r| <= |ls|
  {
    if |ls| > 1 && ls[|ls| - 1] == 0 then
      var t := ls[..|ls| - 1];
      ValueSnoc(t, 0);
      assert ls == t + [0];
      Trimmed(t)
    else ls
  }

  // ---- Shift left ----

  lemma FactorOfBase(s: nat, t: nat)
    requires s > 0 && t > 1 && s * t == BASE
    ensures s < BASE && BASE / s == t && s * (BASE / s) == BASE
  {
    DivUnique(BASE, s, t, 0);
    MulLe(2, t, s);
  }

  /** 2^bs for a shift inside a limb. */
  function ShiftWord(bs: nat): (r: nat)
    requires bs < 32
    ensures 0 < r < BASE && r * (BASE / r) == BASE
  {
    BaseIsPower();
    PowSplit(2, bs, 32);
    PowStrict(2, 0, 32 - bs);
    FactorOfBase(Pow(2, bs), Pow(2, 32 - bs));
    Pow(2, bs)
  }

  /** Limb `i` of the shifted number, before placing: low bits of this limb next to
      the high bits of the one below. */
  function ShlLimb(cur: Limb, below: Limb, bs: nat): (r: Limb)
    requires bs < 32
  {
    var s := ShiftWord(bs);
    DivIdentity(cur * s, BASE);
    LowFits(cur, s);
    HighFits(below, s);
    cur * s % BASE + below * s / BASE
  }

  lemma LowFits(cur: Limb, s: nat)
    requires 0 < s < BASE && s * (BASE / s) == BASE
    ensures cur * s % BASE <= BASE - s
  {
    var t := BASE / s;
    var a, b := cur / t, cur % t;
    DivIdentity(cur, t);
    assert cur * s == a * (s * t) + b * s;
    MulLe(b, t - 1, s);
    assert (t - 1) * s == BASE - s;
    DivUnique(cur * s, BASE, a, b * s);
  }

  lemma HighFits(below: Limb, s: nat)
    requires 0 < s < BASE
    ensures 0 <= below * s / BASE < s
  {
    MulLe(below, BASE - 1, s);
    DivIdentity(below * s, BASE);
    var q := below * s / BASE;
    if q >= s {
      MulLe(s, q, BASE);
    }
  }

  /** All shifted limbs with the carry out of the top one. */
  function ShlLimbs(ls: seq<Limb>, bs: nat, below: Limb): (r: seq<Limb>)
    requires bs < 32
    ensures |r| == |ls| + 1
    decreases |ls|
  {
    var s := ShiftWord(bs);
    if ls == [] then
      HighFits(below, s);
      [below * s / BASE]
    else [ShlLimb(ls[0], below, bs)] + ShlLimbs(ls[1..], bs, ls[0])
  }

  lemma ShlStep(x: nat, v: nat, s: nat, b: nat)
    ensures (x * s % BASE + b) + BASE * (v * s + x * s / BASE) == (x + BASE * v) * s + b
  {
    DivIdentity(x * s, BASE);
    var q := x * s / BASE;
    assert BASE * (v * s + q) == (BASE * v) * s + q * BASE;
    assert (x + BASE * v) * s == x * s + (BASE * v) * s;
  }

  lemma {:induction false} ShlValue(ls: seq<Limb>, bs: nat, below: Limb)
    requires bs < 32
    ensures Value(ShlLimbs(ls, bs, below)) == Value(ls) * ShiftWord(bs) + below * ShiftWord(bs) / BASE
  {
    hide ShiftWord;
    var s := ShiftWord(bs);
    var r := ShlLimbs(ls, bs, below);
    if ls == [] {
      assert r[1..] == [];
    } else {
      ShlValue(ls[1..], bs, ls[0]);
      assert r[1..] == ShlLimbs(ls[1..], bs, ls[0]);
      ShlStep(ls[0], Value(ls[1..]), s, below * s / BASE);
    }
  }

  // ---- Multiplication and division by small numbers ----

  lemma DivSmallStep(hi: nat, x: nat, d: nat, rem: nat)
    requires d > 0 && rem == hi % d
    ensures (BASE * hi + x) / d == BASE * (hi / d) + (rem * BASE + x) / d
    ensures (BASE * hi + x) % d == (rem * BASE + x) % d
  {
    DivIdentity(hi, d);
    assert BASE * hi + x == (rem * BASE + x) + (BASE * (hi / d)) * d;
    DivShift(rem * BASE + x, d, BASE * (hi / d));
  }

  /** Long division by ten of the limbs from `i` on: quotient limbs and remainder. */
  lemma DigitFits(rem: nat, x: Limb)
    requires rem < 10
    ensures (rem * BASE + x) / 10 < BASE && (rem * BASE + x) % 10 < 10
  {
  }
}

/** The number object whose limb vector is rewritten in place. */
module Bignum {
  import opened Powers
  import opened Limbs

  /** (lo + w y) mod (w s) keeps lo and reduces y. */
  lemma ModSplit(lo: nat, w: nat, y: nat, s: nat)
    requires lo < w && s > 0
    ensures w * s > 0
    ensures (lo + w * y) % (w * s) == lo + w * (y % s)
  {
    DivIdentity(y, s);
    var q, r := y / s, y % s;
    assert w * (q * s + r) == q * (w * s) + w * r;
    MulLe(r, s - 1, w);
    assert (s - 1) * w == w * s - w;
    MulPos(w, r);
    DivUnique(lo + w * y, w * s, q, lo + w * r);
  }

  lemma DivSplit(lo: nat, w: nat, y: nat)
    requires lo < w
    ensures (lo + w * y) / w == y
  {
    DivUnique(lo + w * y, w, y, lo);
  }

  /** A shift by `q` bits as whole limbs and bits inside one. */
  lemma ShiftParts(q: nat)
    ensures Pow(2, q) == Word(q / 32) * ShiftWord(q % 32)
    ensures ShiftWord(q % 32) * Pow(2, 32 - q % 32) == BASE
  {
    WordIsPower(q / 32);
    PowSplit(2, 32 * (q / 32), q);
    BaseIsPower();
    PowSplit(2, q % 32, 32);
  }

  /** Reading limb `q / 32` and dropping its low bits: the quotient, but only its
      lowest 32 - q mod 32 bits. */
  lemma LimbAfterShift(ls: seq<Limb>, q: nat)
    requires q / 32 < |ls|
    ensures ls[q / 32] / ShiftWord(q % 32) == Value(ls) / Pow(2, q) % Pow(2, 32 - q % 32)
  {
    hide ShiftWord, Pow, Word, Value;
    var ws, s, t := q / 32, ShiftWord(q % 32), Pow(2, 32 - q % 32);
    ValueSplit(ls, ws);
    ValueBound(ls[..ws]);
    var lo, x, hi := Value(ls[..ws]), ls[ws], Value(ls[ws..][1..]);
    HighValue(ls, ws);
    ShiftParts(q);
    var v := Value(ls);
    DivSplit(lo, Word(ws), x + BASE * hi);
    DivDiv(v, Word(ws), s);
    QuotientBits(x, hi, s, t);
  }

  lemma HighValue(ls: seq<Limb>, k: nat)
    requires k < |ls|
    ensures Value(ls[k..]) == ls[k] + BASE * Value(ls[k..][1..])
  {
  }

  lemma QuotientBits(x: Limb, hi: nat, s: nat, t: nat)
    requires s > 0 && t > 0 && s * t == BASE
    ensures (x + BASE * hi) / s % t == x / s
  {
    assert x + BASE * hi == x + (t * hi) * s;
    DivShift(x, s, t * hi);
    assert x / s + t * hi == x / s + hi * t;
    DivIdentity(x, s);
    if x / s >= t {
      MulLe(t, x / s, s);
    }
    DivShift(x / s, t, hi);
    DivUnique(x / s, t, 0, x / s);
  }

  /** The quotient of a number too short to reach the shift. */
  lemma ShortQuotient(ls: seq<Limb>, q: nat)
    requires |ls| <= q / 32
    ensures Value(ls) / Pow(2, q) == 0 && Value(ls) < Pow(2, q)
  {
    ValueBound(ls);
    WordIsPower(|ls|);
    PowMonotone(2, 32 * |ls|, q);
    DivUnique(Value(ls), Pow(2, q), 0, Value(ls));
  }

  lemma LowBits(ls: seq<Limb>, q: nat)
    requires q / 32 < |ls|
    ensures Value(ls) % Pow(2, q) == Value(ls[..q / 32] + [ls[q / 32] % ShiftWord(q % 32)])
  {
    hide ShiftWord, Pow, Word, Value;
    var ws, s := q / 32, ShiftWord(q % 32);
    ValueSplit(ls, ws);
    ValueBound(ls[..ws]);
    var lo, x, hi := Value(ls[..ws]), ls[ws], Value(ls[ws..][1..]);
    HighValue(ls, ws);
    ShiftParts(q);
    ModSplit(lo, Word(ws), x + BASE * hi, s);
    LowBitsOfLimb(x, hi, s, Pow(2, 32 - q % 32));
    ValueSnoc(ls[..ws], x % s);
  }

  lemma LowBitsOfLimb(x: Limb, hi: nat, s: nat, t: nat)
    requires s > 0 && s * t == BASE
    ensures (x + BASE * hi) % s == x % s && x % s < BASE
  {
    assert x + BASE * hi == x + (t * hi) * s;
    DivShift(x, s, t * hi);
    DivIdentity(x, s);
    MulPos(x / s, s);
  }

  lemma MulStep(v: nat, w: nat, x: nat, k: nat, carry: nat, lo: nat, hi: nat)
    requires x * k + carry == lo + BASE * hi
    ensures (v + w * x) * k + w * carry == v * k + w * lo + (w * BASE) * hi
  {
    assert (v + w * x) * k == v * k + w * (x * k);
    assert w * (x * k) + w * carry == w * (x * k + carry);
    assert w * (lo + BASE * hi) == w * lo + (w * BASE) * hi;
  }

  /** The low and the high word of a double word. */
  function Low(acc: nat): Limb { acc % BASE }

  function High(acc: nat): nat { acc / BASE }

  lemma MulCarry(x: Limb, k: nat, carry: nat)
    requires k < BASE && carry < BASE
    ensures High(x * k + carry) < BASE
    ensures x * k + carry == Low(x * k + carry) + BASE * High(x * k + carry)
  {
    MulLe(x, BASE - 1, k);
    assert (BASE - 1) * k <= (BASE - 1) * (BASE - 1);
    DivIdentity(x * k + carry, BASE);
    var q := (x * k + carry) / BASE;
    if q >= BASE {
      MulLe(BASE, q, BASE);
    }
  }

  lemma MulAdvance(done: seq<Limb>, orig: seq<Limb>, x: Limb, k: nat, carry: nat, lo: Limb, hi: nat)
    requires |done| == |orig| && x * k + carry == lo + BASE * hi
    requires Value(done) + Word(|done|) * carry == Value(orig) * k
    ensures Value(done + [lo]) + Word(|done| + 1) * hi == Value(orig + [x]) * k
  {
    hide Value, Word;
    var w, vd, vo := Word(|done|), Value(done), Value(orig);
    MulAlgebra(vd, vo, w, x, k, carry, lo, hi);
    assert Value(done + [lo]) == vd + w * lo by { ValueSnoc(done, lo); }
    assert Value(orig + [x]) == vo + w * x by { ValueSnoc(orig, x); }
    assert Word(|done| + 1) == w * BASE by { WordNext(|done|); }
  }

  lemma WordNext(n: nat)
    ensures Word(n + 1) == Word(n) * BASE
  {
  }

  lemma MulAlgebra(vd: nat, vo: nat, w: nat, x: nat, k: nat, carry: nat, lo: nat, hi: nat)
    requires vd + w * carry == vo * k && x * k + carry == lo + BASE * hi
    ensures (vd + w * lo) + (w * BASE) * hi == (vo + w * x) * k
  {
    MulStep(vo, w, x, k, carry, lo, hi);
  }

  class Dec {
    var limbs: seq<Limb>

    ghost function Number(): nat
      reads this
    {
      Value(limbs)
    }

    constructor FromU64(v: nat)
      requires v < BASE * BASE
      ensures Number() == v && limbs != []
    {
      TwoLimbs(v);
      limbs := [v % BASE, v / BASE];
      new;
      assert limbs[1..][1..] == [];
      assert Value(limbs[1..]) == v / BASE;
    }

    constructor Clone(d: Dec)
      ensures limbs == d.limbs
    {
      limbs := d.limbs;
    }

    method Trim()
      modifies this
      ensures limbs == Trimmed(old(limbs))
    {
      while |limbs| > 1 && limbs[|limbs| - 1] == 0
        invariant Trimmed(limbs) == Trimmed(old(limbs))
        decreases |limbs|
      {
        limbs := limbs[..|limbs| - 1];
      }
    }

    method IsZero() returns (b: bool)
      ensures b <==> Number() == 0
    {
      ZeroLimbs(limbs);
      b := forall i :: 0 <= i < |limbs| ==> limbs[i] == 0;
    }

    /** Times 2^k. */
    method Shl(k: nat)
      requires limbs != []
      modifies this
      ensures Number() == old(Number()) * Pow(2, k) && limbs != []
    {
      var ws, bs := k / 32, k % 32;
      var n := |limbs|;
      var orig := limbs;
      var s := ShiftWord(bs);
      ghost var want := ShlLimbs(orig, bs, 0);
      limbs := seq(n + ws + 1, _ => 0);
      var top: Limb := 0;
      var i: nat := n;
      while i > 0
        invariant i <= n && |limbs| == n + ws + 1
        invariant i < n ==> top == want[n]
        invariant forall j :: 0 <= j < i + ws ==> limbs[j] == 0
        invariant forall j :: i <= j < n ==> limbs[j + ws] == want[j]
      {
        i := i - 1;
        var v := orig[i];
        if i == n - 1 {
          HighFits(v, s);
          top := v * s / BASE;
          ShlTop(orig, bs, 0);
        }
        var below: Limb := if i == 0 then 0 else orig[i - 1];
        ShlAt(orig, bs, 0, i);
        limbs := limbs[i + ws := ShlLimb(v, below, bs)];
      }
      limbs := limbs[n + ws := top];
      assert limbs == seq(ws, _ => 0) + want;
      ShlTotal(orig, want, k);
      Trim();
    }

    /** Right shift as written: the bits that cross a limb boundary go to the
        limb above instead of the one below, so only the lowest limb is usable,
        and of the quotient only its lowest 32 - q mod 32 bits arrive there. */
    method Shr(q: nat)
      requires limbs != []
      modifies this
      ensures limbs != [] && limbs[0] == old(Number()) / Pow(2, q) % Pow(2, 32 - q % 32)
    {
      var ws, bs := q / 32, q % 32;
      if ws >= |limbs| {
        ShortQuotient(limbs, q);
        DivUnique(0, Pow(2, 32 - q % 32), 0, 0);
        limbs := [0];
        return;
      }
      LimbAfterShift(limbs, q);
      limbs := limbs[ws..];
      if bs != 0 {
        ShrBits(bs);
      } else {
        ShiftByNone();
        DivUnique(limbs[0], 1, limbs[0], 0);
      }
      Trim();
    }

    method ShrBits(bs: nat)
      requires limbs != [] && bs < 32
      modifies this
      ensures limbs != [] && limbs[0] == old(limbs[0]) / ShiftWord(bs)
    {
      hide ShiftWord;
      var s := ShiftWord(bs);
      var t := BASE / s;
      var borrow: Limb := 0;
      var i := 0;
      ghost var first := limbs[0];
      while i < |limbs|
        invariant 0 <= i <= |limbs| && limbs != []
        invariant borrow <= BASE - t && (i == 0 ==> borrow == 0)
        invariant limbs[0] == if i == 0 then first else first / s
      {
        var cur := limbs[i];
        ShrFits(cur, s, t);
        limbs := limbs[i := cur / s + borrow];
        borrow := cur * t % BASE;
        i := i + 1;
      }
    }

    /** Keeps the lowest q bits. */
    method RemPow2(q: nat)
      requires limbs != []
      modifies this
      ensures Number() == old(Number()) % Pow(2, q) && limbs != []
    {
      if q >= |limbs| * 32 {
        ShortQuotient(limbs, q);
        DivUnique(Value(limbs), Pow(2, q), 0, Value(limbs));
        return;
      }
      var wm, bm := q / 32, q % 32;
      LowBits(limbs, q);
      var s := ShiftWord(bm);
      if bm == 0 {
        ShiftByNone();
        DivUnique(limbs[wm], 1, limbs[wm], 0);
      }
      DivIdentity(limbs[wm], s);
      limbs := limbs[wm := if bm != 0 then limbs[wm] % s else 0];
      limbs := limbs[..wm + 1];
      assert limbs == old(limbs)[..wm] + [old(limbs)[wm] % s];
      Trim();
    }

    /** Times a small factor. */
    method MulSmall(k: nat)
      requires k < BASE && limbs != []
      modifies this
      ensures Number() == old(Number()) * k && limbs != []
    {
      hide Value, Word, Low, High;
      ghost var orig := limbs;
      var carry: nat := 0;
      var i := 0;
      ValueEmpty(limbs);
      while i < |limbs|
        invariant 0 <= i <= |limbs| == |orig| && carry < BASE
        invariant Value(limbs[..i]) + Word(i) * carry == Value(orig[..i]) * k
        invariant forall j :: i <= j < |orig| ==> limbs[j] == orig[j]
      {
        var x := limbs[i];
        var acc := x * k + carry;
        var lo, hi := Low(acc), High(acc);
        MulCarry(x, k, carry);
        MulAdvance(limbs[..i], orig[..i], x, k, carry, lo, hi);
        assert limbs[i := lo][..i + 1] == limbs[..i] + [lo];
        assert orig[..i + 1] == orig[..i] + [x];
        limbs := limbs[i := lo];
        carry := hi;
        i := i + 1;
      }
      assert limbs[..i] == limbs && orig[..i] == orig;
      ValueSnoc(limbs, carry);
      if carry != 0 {
        limbs := limbs + [carry];
      }
    }

    /** Divides by ten in place and returns the remainder. */
    method DivMod10() returns (rem: nat)
      requires limbs != []
      modifies this
      ensures Number() == old(Number()) / 10 && rem == old(Number()) % 10 && limbs != []
    {
      ghost var orig := limbs;
      rem := 0;
      var i := |limbs|;
      assert orig[i..] == [] && limbs[i..] == [];
      while i > 0
        invariant 0 <= i <= |limbs| == |orig|
        invariant Value(limbs[i..]) == Value(orig[i..]) / 10 && rem == Value(orig[i..]) % 10
        invariant forall j :: 0 <= j < i ==> limbs[j] == orig[j]
      {
        i := i - 1;
        var x := limbs[i];
        var cur := rem * BASE + x;
        DigitFits(rem, x);
        ghost var high := limbs[i + 1..];
        limbs := limbs[i := cur / 10];
        assert limbs[i..][1..] == high && orig[i..][1..] == orig[i + 1..];
        DivSmallStep(Value(orig[i + 1..]), x, 10, rem);
        rem := cur % 10;
      }
      assert limbs[0..] == limbs && orig[0..] == orig;
      Trim();
    }
  }

  lemma TwoLimbs(v: nat)
    requires v < BASE * BASE
    ensures v / BASE < BASE && v == v % BASE + BASE * (v / BASE)
  {
    DivIdentity(v, BASE);
    var q := v / BASE;
    if q >= BASE {
      MulLe(BASE, q, BASE);
    }
  }

  lemma ValueEmpty(ls: seq<Limb>)
    ensures Value(ls[..0]) == 0
  {
  }

  lemma ShiftByNone()
    ensures ShiftWord(0) == 1
  {
  }

  lemma ShrFits(cur: Limb, s: nat, t: nat)
    requires s > 0 && t > 0 && s * t == BASE
    ensures cur / s < t && cur * t % BASE <= BASE - t
  {
    DivIdentity(cur, s);
    if cur / s >= t {
      MulLe(t, cur / s, s);
    }
    FactorSwap(s, t);
    if t < BASE {
      LowFits(cur, t);
    } else {
      DivUnique(cur * t, BASE, cur, 0);
    }
  }

  lemma FactorSwap(s: nat, t: nat)
    requires s > 0 && t > 0 && s * t == BASE
    ensures BASE / t == s && t * (BASE / t) == BASE && t <= BASE
  {
    DivUnique(BASE, t, s, 0);
    MulLe(1, s, t);
  }

  lemma {:induction false} ShlAt(ls: seq<Limb>, bs: nat, below: Limb, i: nat)
    requires bs < 32 && i < |ls|
    ensures ShlLimbs(ls, bs, below)[i] == ShlLimb(ls[i], if i == 0 then below else ls[i - 1], bs)
  {
    hide ShlLimb;
    if i > 0 {
      ShlAt(ls[1..], bs, ls[0], i - 1);
    }
  }

  lemma {:induction false} ShlTop(ls: seq<Limb>, bs: nat, below: Limb)
    requires bs < 32 && ls != []
    ensures ShlLimbs(ls, bs, below)[|ls|] == ls[|ls| - 1] * ShiftWord(bs) / BASE
  {
    hide ShlLimb, ShiftWord;
    if |ls| > 1 {
      ShlTop(ls[1..], bs, ls[0]);
    }
  }

  lemma ShlTotal(ls: seq<Limb>, want: seq<Limb>, k: nat)
    requires want == ShlLimbs(ls, k % 32, 0)
    ensures Value(seq(k / 32, _ => 0) + want) == Value(ls) * Pow(2, k)
  {
    hide ShlLimbs, ShiftWord, Pow, Word, Value;
    ShlValue(ls, k % 32, 0);
    ValueShifted(k / 32, want);
    ShiftParts(k);
    var w, v, s := Word(k / 32), Value(ls), ShiftWord(k % 32);
    assert 0 * s / BASE == 0;
    assert w * (v * s) == v * (w * s);
  }
}
