/** `significant_digits`: the first decimal digits of a double, read off a
    multi-limb number object. */
module SignificantDigits {
  import opened Basics
  import opened Powers
  import opened Bignum
  import opened Doubles
  import opened DecimalDigits

  /** How much of a quotient survives the right shift by q bits. */
  function ReadLimit(q: nat): (r: nat)
    ensures r >= 2
  {
    PowMonotone(2, 1, 32 - q % 32);
    Pow(2, 32 - q % 32)
  }

  /** What is read of a digit: the low bits of the shifted lowest limb, cut to a
      byte. */
  function Read(q: nat): nat -> nat {
    (d: nat) => d % ReadLimit(q) % 256
  }

  /** The reading the engine applies to a number scaled by 2^p. */
  function Reader(p: int): nat -> nat {
    if p >= 0 then Exact else Read(-p)
  }

  /** The digits and exponent the engine computes for m 2^p. */
  function Digits(m: nat, p: int, count: nat, read: nat -> nat): (seq<nat>, int) {
    if p >= 0 then
      var ds := NatDigits(m * Pow(2, p));
      (ds[..if count <= |ds| then count else |ds|], |ds| - 1)
    else
      var q := -p;
      DivIdentity(m, Pow(2, q));
      var ds := NatDigits(m / Pow(2, q));
      var (digits, e) := Expand(m % Pow(2, q), q, count, ds, FirstExponent(ds), 0, read);
      (digits, if e.Some? then e.value else 0)
  }

  function FirstExponent(ds: seq<nat>): Option<int> {
    if ds == [] then None else Some(|ds| - 1)
  }

  // ---- Without loss the digits are the expansion ----

  lemma WholeCorrect(m: nat, p: nat, count: nat)
    requires m > 0 && count > 0
    ensures IsExpansion(m, p, count, Digits(m, p, count, Exact).0, Digits(m, p, count, Exact).1)
  {
    var n := m * Pow(2, p);
    MulLe(1, m, Pow(2, p));
    var ds := NatDigits(n);
    NatDigitsValue(n);
    var take := if count <= |ds| then count else |ds|;
    DigitsPrefix(ds, |ds| - take);
  }

  lemma FractionCorrect(m: nat, q: nat, count: nat)
    requires m > 0 && count > 0 && q > 0
    ensures IsExpansion(m, 0 - q, count, Digits(m, 0 - q, count, Exact).0, Digits(m, 0 - q, count, Exact).1)
  {
    hide Pow, Expand, IsExpansion;
    var w := Pow(2, q);
    var ds := NatDigits(m / w);
    DivIdentity(m, w);
    NatDigitsValue(m / w);
    FirstPlace(m);
    ExpandCorrect(m, q, m % w, count, ds, FirstExponent(ds), 0);
  }

  lemma FirstPlace(m: nat)
    ensures Pow(10, 0) * m == m && Pow(2, 0) == 1 && m % 1 == 0
  {
  }

  /** When a digit can pass through the shift unharmed, the expansion is exact. */
  lemma DigitsCorrect(m: nat, p: int, count: nat)
    requires m > 0 && count > 0
    ensures IsExpansion(m, p, count, Digits(m, p, count, Exact).0, Digits(m, p, count, Exact).1)
  {
    hide IsExpansion, Digits;
    if p >= 0 {
      WholeCorrect(m, p, count);
    } else {
      FractionCorrect(m, -p, count);
    }
  }

  // ---- When digits get lost ----

  /** Of the fraction r / 2^q, every digit up to the `wanted`-th significant one is
      below the limit. */
  predicate Readable(r: nat, q: nat, wanted: nat, started: bool, pos: nat, limit: nat)
    requires r < Pow(2, q) && pos <= q && r % Pow(2, pos) == 0
    decreases q - pos
  {
    if wanted == 0 || r == 0 then true
    else
      ExpandProgress(r, q, pos);
      var d := 10 * r / Pow(2, q);
      var significant := started || d != 0;
      && d < limit
      && Readable(10 * r % Pow(2, q), q, if significant then wanted - 1 else wanted, significant, pos + 1, limit)
  }

  function Wanted(count: nat, have: nat): nat {
    if have >= count then 0 else count - have
  }

  /** The expansion only adds digits at the end, and settles the exponent once. */
  lemma {:induction false} ExpandKeeps(r: nat, q: nat, count: nat, digits: seq<nat>, e: Option<int>, pos: nat, read: nat -> nat)
    requires r < Pow(2, q) && pos <= q && r % Pow(2, pos) == 0
    ensures
      var (ds, e') := Expand(r, q, count, digits, e, pos, read);
      digits <= ds && (e.Some? ==> e' == e) && (e.None? && e'.Some? ==> e'.value <= -(pos + 1))
    decreases q - pos
  {
    hide Pow;
    if !(|digits| >= count || r == 0) {
      ExpandProgress(r, q, pos);
      var d := read(10 * r / Pow(2, q));
      var r' := 10 * r % Pow(2, q);
      if d == 0 && e.None? {
        ExpandKeeps(r', q, count, digits, None, pos + 1, read);
      } else {
        ExpandKeeps(r', q, count, digits + [d], if e.None? then Some(-(pos + 1)) else e, pos + 1, read);
      }
    }
  }

  lemma ReadFacts(q: nat, d: nat)
    requires d < 10
    ensures d < ReadLimit(q) ==> Read(q)(d) == d
    ensures d >= ReadLimit(q) ==> Read(q)(d) != d && d > 0
  {
    hide ReadLimit;
    var k := ReadLimit(q);
    DivIdentity(d, k);
    if d < k {
      DivUnique(d, k, 0, d);
    }
    assert d % k < k;
    assert d % k <= d by {
      MulPos(d / k, k);
    }
    DivUnique(d % k, 256, 0, d % k);
  }

  /** The engine's digits are the true ones exactly when no digit is too large for
      the shift. */
  lemma {:induction false} ExpandIff(r: nat, q: nat, count: nat, digits: seq<nat>, e: Option<int>, pos: nat)
    requires r < Pow(2, q) && pos <= q && r % Pow(2, pos) == 0
    ensures Expand(r, q, count, digits, e, pos, Read(q)) == Expand(r, q, count, digits, e, pos, Exact)
            <==> Readable(r, q, Wanted(count, |digits|), e.Some?, pos, ReadLimit(q))
    decreases q - pos
  {
    hide Pow, ReadLimit;
    if !(|digits| >= count || r == 0) {
      ExpandProgress(r, q, pos);
      var d, r' := 10 * r / Pow(2, q), 10 * r % Pow(2, q);
      var d' := Read(q)(d);
      ReadFacts(q, d);
      var e1 := if e.None? then Some(-(pos + 1)) else e;
      if d < ReadLimit(q) {
        if d == 0 && e.None? {
          ExpandIff(r', q, count, digits, None, pos + 1);
        } else {
          ExpandIff(r', q, count, digits + [d], e1, pos + 1);
        }
      } else {
        ExpandKeeps(r', q, count, digits + [d], e1, pos + 1, Exact);
        var good := Expand(r', q, count, digits + [d], e1, pos + 1, Exact);
        assert good.0[|digits|] == d;
        if d' == 0 && e.None? {
          ExpandKeeps(r', q, count, digits, None, pos + 1, Read(q));
        } else {
          ExpandKeeps(r', q, count, digits + [d'], e1, pos + 1, Read(q));
          var bad := Expand(r', q, count, digits + [d'], e1, pos + 1, Read(q));
          assert bad.0[|digits|] == d';
        }
      }
    }
  }

  /** The condition on a double's parts under which nothing is lost. */
  predicate Lossless(m: nat, p: int, count: nat) {
    p >= 0 ||
    (var q := -p;
     DivIdentity(m, Pow(2, q));
     var ds := NatDigits(m / Pow(2, q));
     Readable(m % Pow(2, q), q, Wanted(count, |ds|), ds != [], 0, ReadLimit(q)))
  }

  lemma SomeExponent(m: nat, q: nat, count: nat)
    requires m > 0 && count > 0 && q > 0
    ensures m % Pow(2, q) < Pow(2, q)
    ensures
      var ds := NatDigits(m / Pow(2, q));
      Expand(m % Pow(2, q), q, count, ds, FirstExponent(ds), 0, Exact).1.Some?
  {
    hide Pow, Expand, IsExpansion;
    var w := Pow(2, q);
    var ds := NatDigits(m / w);
    DivIdentity(m, w);
    NatDigitsValue(m / w);
    FirstPlace(m);
    ExpandCorrect(m, q, m % w, count, ds, FirstExponent(ds), 0);
  }

  /** The engine's digits of m 2^p are right exactly when no fractional digit it
      looks at reaches 2^(32 - q mod 32), where q = -p. */
  lemma DigitsIff(m: nat, p: int, count: nat)
    requires m > 0 && count > 0
    ensures Digits(m, p, count, Reader(p)) == Digits(m, p, count, Exact) <==> Lossless(m, p, count)
  {
    if p < 0 {
      hide Pow, Expand, Readable, ReadLimit, NatDigits, Read;
      var q := -p;
      var w := Pow(2, q);
      DivIdentity(m, w);
      var ds := NatDigits(m / w);
      FirstPlace(m);
      var e0 := FirstExponent(ds);
      ExpandIff(m % w, q, count, ds, e0, 0);
      SomeExponent(m, q, count);
      LostExponent(m, q, count);
    }
  }

  /** If the digits agree, so do the exponents: an expansion without any digit has
      lost the first one. */
  lemma LostExponent(m: nat, q: nat, count: nat)
    requires m > 0 && count > 0 && q > 0
    ensures m % Pow(2, q) < Pow(2, q)
    ensures
      var ds := NatDigits(m / Pow(2, q));
      var bad := Expand(m % Pow(2, q), q, count, ds, FirstExponent(ds), 0, Read(q));
      bad.1.None? ==> bad.0 == []
    ensures
      var ds := NatDigits(m / Pow(2, q));
      Expand(m % Pow(2, q), q, count, ds, FirstExponent(ds), 0, Exact).0 != []
  {
    hide Pow, Expand, IsExpansion, Read;
    var w := Pow(2, q);
    DivIdentity(m, w);
    var ds := NatDigits(m / w);
    NatDigitsValue(m / w);
    FirstPlace(m);
    ExpandCorrect(m, q, m % w, count, ds, FirstExponent(ds), 0);
    ExpansionHasDigits(m, 0 - q, count, Expand(m % w, q, count, ds, FirstExponent(ds), 0, Exact));
    DigitsHaveExponent(m % w, q, count, ds, FirstExponent(ds), 0, Read(q));
  }

  lemma ExpansionHasDigits(m: nat, p: int, count: nat, r: (seq<nat>, Option<int>))
    requires r.1.Some? && IsExpansion(m, p, count, r.0, r.1.value)
    ensures r.0 != []
  {
  }

  lemma {:induction false} DigitsHaveExponent(r: nat, q: nat, count: nat, digits: seq<nat>, e: Option<int>, pos: nat, read: nat -> nat)
    requires r < Pow(2, q) && pos <= q && r % Pow(2, pos) == 0
    requires e.None? ==> digits == []
    ensures
      var (ds, e') := Expand(r, q, count, digits, e, pos, read);
      e'.None? ==> ds == []
    decreases q - pos
  {
    hide Pow;
    if !(|digits| >= count || r == 0) {
      ExpandProgress(r, q, pos);
      var d := read(10 * r / Pow(2, q));
      var r' := 10 * r % Pow(2, q);
      if d == 0 && e.None? {
        DigitsHaveExponent(r', q, count, digits, None, pos + 1, read);
      } else {
        DigitsHaveExponent(r', q, count, digits + [d], if e.None? then Some(-(pos + 1)) else e, pos + 1, read);
      }
    }
  }

  lemma {:induction false} ExpandAllDigits(r: nat, q: nat, count: nat, digits: seq<nat>, e: Option<int>, pos: nat)
    requires r < Pow(2, q) && pos <= q && r % Pow(2, pos) == 0 && AllDigits(digits)
    ensures AllDigits(Expand(r, q, count, digits, e, pos, Read(q)).0)
    decreases q - pos
  {
    hide Pow, ReadLimit, Read;
    if !(|digits| >= count || r == 0) {
      ExpandProgress(r, q, pos);
      var t := 10 * r / Pow(2, q);
      ReadSmall(q, t);
      var d, r' := Read(q)(t), 10 * r % Pow(2, q);
      if d == 0 && e.None? {
        ExpandAllDigits(r', q, count, digits, None, pos + 1);
      } else {
        ExpandAllDigits(r', q, count, digits + [d], if e.None? then Some(-(pos + 1)) else e, pos + 1);
      }
    }
  }

  lemma ReadSmall(q: nat, d: nat)
    requires d < 10
    ensures Read(q)(d) < 10
  {
    hide ReadLimit;
    DivIdentity(d, ReadLimit(q));
    MulPos(d / ReadLimit(q), ReadLimit(q));
    DivIdentity(d % ReadLimit(q), 256);
  }

  lemma DigitsAreDigits(m: nat, p: int, count: nat)
    ensures AllDigits(Digits(m, p, count, Reader(p)).0)
  {
    if p < 0 {
      hide Pow, Expand, Read;
      var q := -p;
      DivIdentity(m, Pow(2, q));
      FirstPlace(m);
      var ds := NatDigits(m / Pow(2, q));
      ExpandAllDigits(m % Pow(2, q), q, count, ds, FirstExponent(ds), 0);
    }
  }

  /** Every double with q mod 32 at most 28 is expanded without loss. */
  lemma LosslessUpTo28(m: nat, p: int, count: nat)
    requires p >= 0 || (-p) % 32 <= 28
    ensures Lossless(m, p, count)
  {
    if p < 0 {
      var q := -p;
      DivIdentity(m, Pow(2, q));
      FirstPlace(m);
      PowMonotone(2, 4, 32 - q % 32);
      assert Pow(2, 4) == 16;
      var ds := NatDigits(m / Pow(2, q));
      ReadableWhenWide(m % Pow(2, q), q, Wanted(count, |ds|), ds != [], 0, ReadLimit(q));
    }
  }

  lemma {:induction false} ReadableWhenWide(r: nat, q: nat, wanted: nat, started: bool, pos: nat, limit: nat)
    requires r < Pow(2, q) && pos <= q && r % Pow(2, pos) == 0
    requires limit >= 10
    ensures Readable(r, q, wanted, started, pos, limit)
    decreases q - pos
  {
    hide Pow;
    if wanted > 0 && r > 0 {
      ExpandProgress(r, q, pos);
      var significant := started || 10 * r / Pow(2, q) != 0;
      ReadableWhenWide(10 * r % Pow(2, q), q, if significant then wanted - 1 else wanted, significant, pos + 1, limit);
    }
  }

  /** A double that loses a digit: 3 / 1024 = 0.0029296875 has its 9 read as 1. */
  lemma LosingDouble()
    ensures !Lossless(3 * Pow(2, 51), -61, 2)
    ensures Digits(3 * Pow(2, 51), -61, 2, Reader(-61)) != Digits(3 * Pow(2, 51), -61, 2, Exact)
  {
    var w, k := Pow(2, 61), Pow(2, 51);
    PowAdd(2, 10, 51);
    assert Pow(2, 10) == 1024 && Pow(2, 3) == 8;
    var m := 3 * k;
    DivUnique(m, w, 0, m);
    LosingSteps(k);
    DigitsIff(m, -61, 2);
  }

  lemma LosingSteps(k: nat)
    requires k > 0 && Pow(2, 61) == 1024 * k && Pow(2, 0) == 1 && ReadLimit(61) == 8
    ensures !Readable(3 * k, 61, 2, false, 0, ReadLimit(61))
  {
    hide Pow, ReadLimit;
    var w := 1024 * k;
    DivUnique(30 * k, w, 0, 30 * k);
    DivUnique(300 * k, w, 0, 300 * k);
    DivUnique(3000 * k, w, 2, 952 * k);
    DivUnique(9520 * k, w, 9, 304 * k);
    ExpandProgress(3 * k, 61, 0);
    ExpandProgress(30 * k, 61, 1);
    ExpandProgress(300 * k, 61, 2);
    assert !Readable(952 * k, 61, 1, true, 3, 8);
    assert !Readable(300 * k, 61, 2, false, 2, 8);
    assert !Readable(30 * k, 61, 2, false, 1, 8);
  }

  // ---- The method ----

  function Reversed(s: seq<nat>): seq<nat> {
    seq(|s|, i requires 0 <= i < |s| => s[|s| - 1 - i])
  }

  lemma ReversedSnoc(s: seq<nat>, x: nat)
    ensures Reversed(s + [x]) == [x] + Reversed(s)
  {
  }

  /** The digits of a whole number m 2^p: their number is counted first, then the
      digits not wanted are divided away, then the others collected from the last. */
  method WholeDigits(m: nat, p: nat, count: nat) returns (digits: seq<nat>, e: int)
    requires m < P53
    ensures (digits, e) == Digits(m, p, count, Exact)
  {
    hide Limbs.Value, Pow, NatDigits;
    var v := new Dec.FromU64(m);
    v.Shl(p);
    ghost var n := v.Number();
    ghost var ds := NatDigits(n);
    var d: int := CountDigits(v);
    e := d - 1;
    var take := if count <= d then count else d;
    var i := 0;
    while i < d - take
      invariant fresh(v) && v.limbs != [] && i <= d - take
      invariant NatDigits(v.Number()) == ds[..d - i]
    {
      LastDigit(v.Number(), ds[..d - i]);
      var _ := v.DivMod10();
      i := i + 1;
      assert ds[..d - i] == ds[..d - i + 1][..d - i];
    }
    var rev := TakeDigits(v, take, ds[..take]);
    digits := Reversed(rev);
  }

  lemma LastDigit(n: nat, ds: seq<nat>)
    requires ds == NatDigits(n)
    ensures ds == [] <==> n == 0
    ensures ds != [] ==> NatDigits(n / 10) == ds[..|ds| - 1] && n % 10 == ds[|ds| - 1]
  {
  }

  method CountDigits(v: Dec) returns (d: nat)
    requires v.limbs != []
    ensures d == |NatDigits(v.Number())|
  {
    hide Limbs.Value, NatDigits;
    var tmp := new Dec.Clone(v);
    d := 0;
    LastDigit(tmp.Number(), NatDigits(tmp.Number()));
    var z := tmp.IsZero();
    while !z
      invariant fresh(tmp) && tmp.limbs != []
      invariant z <==> tmp.Number() == 0
      invariant d + |NatDigits(tmp.Number())| == |NatDigits(v.Number())|
      invariant z ==> NatDigits(tmp.Number()) == []
      decreases tmp.Number()
    {
      LastDigit(tmp.Number(), NatDigits(tmp.Number()));
      var _ := tmp.DivMod10();
      d := d + 1;
      z := tmp.IsZero();
      LastDigit(tmp.Number(), NatDigits(tmp.Number()));
    }
  }

  method TakeDigits(v: Dec, take: nat, ghost want: seq<nat>) returns (rev: seq<nat>)
    requires v.limbs != [] && NatDigits(v.Number()) == want && |want| == take
    modifies v
    ensures Reversed(rev) == want
  {
    hide Limbs.Value, NatDigits;
    rev := [];
    var i := 0;
    while i < take
      invariant i <= take && v.limbs != []
      invariant NatDigits(v.Number()) == want[..take - i]
      invariant Reversed(rev) == want[take - i..]
    {
      LastDigit(v.Number(), want[..take - i]);
      var x := v.DivMod10();
      ReversedSnoc(rev, x);
      rev := rev + [x];
      i := i + 1;
    }
  }

  /** The digits of m / 2^q: the whole part first, then one digit at a time by
      multiplying by ten, reading the quotient and keeping the remainder. */
  method FractionDigits(m: nat, q: nat, count: nat) returns (digits: seq<nat>, e: int)
    requires m < P53 && q > 0
    ensures (digits, e) == Digits(m, 0 - q, count, Read(q))
  {
    hide Limbs.Value, Pow, NatDigits, Expand, Read;
    ghost var w := Pow(2, q);
    DivIdentity(m, w);
    var whole, rest := SplitWhole(m, q);
    FirstPlace(m);
    var r := new Dec.FromU64(rest);
    digits := SmallDigits(whole);
    var first := FirstExponent(digits);
    ghost var result := Expand(rest, q, count, digits, first, 0, Read(q));
    var pos := 0;
    var z := r.IsZero();
    while |digits| < count && !z
      invariant fresh(r) && r.limbs != [] && pos <= q
      invariant z <==> r.Number() == 0
      invariant r.Number() < Pow(2, q) && r.Number() % Pow(2, pos) == 0
      invariant result == Expand(r.Number(), q, count, digits, first, pos, Read(q))
      decreases q - pos
    {
      ghost var r0 := r.Number();
      ExpandProgress(r0, q, pos);
      ExpandOnce(r0, q, count, digits, first, pos);
      var d := NextDigit(r, q);
      pos := pos + 1;
      z := r.IsZero();
      if !(d == 0 && first.None?) {
        if first.None? {
          first := Some(-pos);
        }
        digits := digits + [d];
      }
    }
    ExpandStops(r.Number(), q, count, digits, first, pos);
    e := if first.Some? then first.value else 0;
  }

  method NextDigit(r: Dec, q: nat) returns (d: nat)
    requires r.limbs != []
    modifies r
    ensures r.limbs != [] && r.Number() == 10 * old(r.Number()) % Pow(2, q)
    ensures d == Read(q)(10 * old(r.Number()) / Pow(2, q))
  {
    hide Limbs.Value, Pow, Read;
    ghost var r0 := r.Number();
    r.MulSmall(10);
    assert r.Number() == 10 * r0;
    var t := new Dec.Clone(r);
    t.Shr(q);
    d := t.limbs[0] % 256;
    ReadIs(q, 10 * r0 / Pow(2, q));
    r.RemPow2(q);
  }

  lemma ReadIs(q: nat, d: nat)
    ensures Read(q)(d) == d % Pow(2, 32 - q % 32) % 256
  {
  }

  lemma ExpandOnce(r: nat, q: nat, count: nat, digits: seq<nat>, e: Option<int>, pos: nat)
    requires 0 < r < Pow(2, q) && pos <= q && r % Pow(2, pos) == 0 && |digits| < count
    ensures pos < q && 10 * r % Pow(2, q) < Pow(2, q) && 10 * r % Pow(2, q) % Pow(2, pos + 1) == 0
    ensures
      var d, r' := Read(q)(10 * r / Pow(2, q)), 10 * r % Pow(2, q);
      Expand(r, q, count, digits, e, pos, Read(q))
      == if d == 0 && e.None? then Expand(r', q, count, digits, None, pos + 1, Read(q))
         else Expand(r', q, count, digits + [d], if e.None? then Some(-(pos + 1)) else e, pos + 1, Read(q))
  {
    hide Pow, Read;
    ExpandProgress(r, q, pos);
  }

  lemma ExpandStops(r: nat, q: nat, count: nat, digits: seq<nat>, e: Option<int>, pos: nat)
    requires r < Pow(2, q) && pos <= q && r % Pow(2, pos) == 0
    requires |digits| >= count || r == 0
    ensures Expand(r, q, count, digits, e, pos, Read(q)) == (digits, e)
  {
  }

  method SplitWhole(m: nat, q: nat) returns (whole: nat, rest: nat)
    requires m < P53
    ensures whole == m / Pow(2, q) && rest == m % Pow(2, q) && rest <= m
  {
    hide Pow;
    var w := Pow(2, q);
    DivIdentity(m, w);
    if q < 64 {
      whole, rest := m / w, m % w;
      MulPos(whole, w);
    } else {
      PowMonotone(2, 53, q);
      TwoTo53();
      DivUnique(m, w, 0, m);
      whole, rest := 0, m;
    }
  }

  lemma TwoTo53()
    ensures Pow(2, 53) == P53
  {
    assert Pow(2, 10) == 1024;
    PowAdd(2, 10, 10);
    PowAdd(2, 20, 20);
    PowAdd(2, 40, 10);
    PowAdd(2, 50, 3);
    assert Pow(2, 3) == 8;
  }

  method SmallDigits(n: nat) returns (ds: seq<nat>)
    ensures ds == NatDigits(n)
  {
    hide NatDigits;
    var ip, rev := n, [];
    ghost var want := NatDigits(n);
    LastDigit(n, want);
    while ip > 0
      invariant want == NatDigits(ip) + Reversed(rev)
      invariant ip == 0 ==> NatDigits(ip) == []
    {
      LastDigit(ip, NatDigits(ip));
      LastDigit(ip / 10, NatDigits(ip / 10));
      ReversedSnoc(rev, ip % 10);
      rev := rev + [ip % 10];
      ip := ip / 10;
    }
    ds := Reversed(rev);
  }

  /** The first `count` significant digits and the exponent of the first one. */
  method Compute(b: Bits64, count: nat) returns (digits: seq<nat>, e: int)
    requires 0 < b && Sign(b) == 0 && IsFinite(b) && count > 0
    ensures (digits, e) == Digits(Significand(b), Scale(b), count, Reader(Scale(b)))
    ensures AllDigits(digits)
    ensures Lossless(Significand(b), Scale(b), count) ==> IsExpansion(Significand(b), Scale(b), count, digits, e)
  {
    hide Digits, IsExpansion, Lossless, Reader;
    var m, p := b, -1074;
    FieldsOfPositive(b);
    if b / P52 != 0 {
      m, p := b % P52 + P52, b / P52 - 1075;
    }
    if p >= 0 {
      digits, e := WholeDigits(m, p, count);
    } else {
      digits, e := FractionDigits(m, -p, count);
    }
    ReaderIs(p);
    DigitsAreDigits(m, p, count);
    DigitsIff(m, p, count);
    DigitsCorrect(m, p, count);
  }

  lemma ReaderIs(p: int)
    ensures p >= 0 ==> Reader(p) == Exact
    ensures p < 0 ==> Reader(p) == Read(-p)
  {
  }

  lemma FieldsOfPositive(b: Bits64)
    requires 0 < b && Sign(b) == 0
    ensures b / P52 == ExpField(b)
    ensures Significand(b) == if b / P52 == 0 then b else b % P52 + P52
    ensures Scale(b) == if b / P52 == 0 then -1074 else b / P52 - 1075
    ensures 0 < Significand(b) < P53
  {
  }
}
