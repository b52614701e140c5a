/** The fields of an IEEE 754 binary64 number. */
module Doubles {

  const P52: nat := 0x10_0000_0000_0000
  const P53: nat := 0x20_0000_0000_0000
  const P63: nat := 0x8000_0000_0000_0000
  const P64: nat := 0x1_0000_0000_0000_0000

  type Bits64 = b: nat | b < P64

  function Sign(b: Bits64): nat { b / P63 }

  function ExpField(b: Bits64): nat { b / P52 % 2048 }

  function MantField(b: Bits64): nat { b % P52 }

  function Pack(sign: nat, exp: nat, mant: nat): (b: Bits64)
    requires sign < 2 && exp < 2048 && mant < P52
    ensures Sign(b) == sign && ExpField(b) == exp && MantField(b) == mant
  {
    var b := sign * P63 + exp * P52 + mant;
    assert b / P52 == sign * 2048 + exp;
    b
  }

  predicate IsFinite(b: Bits64) { ExpField(b) < 2047 }

  /** The integer significand and the power of two of a finite magnitude. */
  function Significand(b: Bits64): nat {
    if ExpField(b) == 0 then MantField(b) else P52 + MantField(b)
  }

  function Scale(b: Bits64): int {
    if ExpField(b) == 0 then -1074 else ExpField(b) - 1075
  }

  lemma PackFields(b: Bits64)
    ensures Sign(b) < 2
    ensures b == Pack(Sign(b), ExpField(b), MantField(b))
  {
    assert b / P52 == Sign(b) * 2048 + ExpField(b);
  }
}
