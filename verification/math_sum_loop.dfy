/** The loop of `Math.sumPrecise` over its five states. */
module MathSumLoop {
  import opened Powers
  import opened Doubles
  import opened MathSum

  datatype State = MinusZero | Finite | PlusInf | MinusInf | NotANumber

  /** What a step of the iterator gives: a number, another value, or an exception. */
  datatype Element = Number(bits: Bits64) | Other | Raises(e: nat)

  datatype Outcome = Value(bits: Bits64) | TypeError | RangeError | Threw(e: nat)

  const INFINITY: Bits64 := INF
  const MINUS_INFINITY: Bits64 := P63 + INF
  const NAN: Bits64 := INF + P52 / 2
  const COUNT_LIMIT: nat := P53

  predicate IsNaN(b: Bits64) { !IsFinite(b) && b != INFINITY && b != MINUS_INFINITY }

  /** One element: infinities of opposite signs cancel to not-a-number, -0 changes
      nothing, and once a special state is reached finite elements are ignored. */
  function Step(c: (State, int), x: Bits64): (State, int) {
    var (state, sum) := c;
    if IsNaN(x) then (NotANumber, sum)
    else if x == INFINITY then (if state == MinusInf then NotANumber else PlusInf, sum)
    else if x == MINUS_INFINITY then (if state == PlusInf then NotANumber else MinusInf, sum)
    else if x != MINUS_ZERO && (state == MinusZero || state == Finite) then (Finite, sum + ToBig(x))
    else c
  }

  function Run(xs: seq<Bits64>): (State, int) {
    if xs == [] then (MinusZero, 0) else Step(Run(xs[..|xs| - 1]), xs[|xs| - 1])
  }

  /** The answer for a final state. */
  predicate Answers(c: (State, int), b: Bits64) {
    match c.0
    case NotANumber => b == NAN
    case PlusInf => b == INFINITY
    case MinusInf => b == MINUS_INFINITY
    case MinusZero => b == MINUS_ZERO
    case Finite => IsRounded(c.1, b)
  }

  predicate AllNumbers(items: seq<Element>) {
    forall i :: 0 <= i < |items| ==> items[i].Number?
  }

  function BitsOf(items: seq<Element>): (r: seq<Bits64>)
    requires AllNumbers(items)
    ensures |r| == |items|
  {
    seq(|items|, i requires 0 <= i < |items| => items[i].bits)
  }

  /** All elements before this one are numbers, and it is not one. */
  predicate Stops(items: seq<Element>, i: nat) {
    i < |items| && AllNumbers(items[..i]) && !items[i].Number?
  }

  /** The elements are taken one by one; the first one too many or of another type
      ends the loop, and so does an exception.  The iterator is then closed, even if
      it was the one that threw. */
  method SumPrecise(items: seq<Element>) returns (r: Outcome, closed: bool)
    ensures r.Value? <==> AllNumbers(items) && |items| < COUNT_LIMIT
    ensures r.Value? ==> Answers(Run(BitsOf(items)), r.bits)
    ensures r.RangeError? <==>
              |items| >= COUNT_LIMIT && AllNumbers(items[..COUNT_LIMIT - 1]) && !items[COUNT_LIMIT - 1].Raises?
    ensures r.TypeError? <==> exists i :: 0 <= i < COUNT_LIMIT - 1 && Stops(items, i) && items[i].Other?
    ensures forall e :: r == Threw(e) <==> exists i :: 0 <= i < COUNT_LIMIT && Stops(items, i) && items[i] == Raises(e)
    ensures closed <==> !r.Value?
  {
    hide Step, IsRounded;
    var state, sum, count := MinusZero, 0, 0;
    var i := 0;
    while i < |items|
      invariant i == count <= |items| && count < COUNT_LIMIT
      invariant AllNumbers(items[..i])
      invariant (state, sum) == Run(BitsOf(items[..i]))
    {
      var elem := items[i];
      if elem.Raises? {
        OneStop(items, i);
        return Threw(elem.e), true;
      }
      count := count + 1;
      if count >= COUNT_LIMIT {
        EarlierNumbers(items, i);
        return RangeError, true;
      }
      if elem.Other? {
        OneStop(items, i);
        return TypeError, true;
      }
      assert items[..i + 1] == items[..i] + [elem];
      assert BitsOf(items[..i + 1])[..i] == BitsOf(items[..i]);
      var x := elem.bits;
      state, sum := Advance(state, sum, x);
      i := i + 1;
    }
    assert items[..i] == items;
    match state
    case NotANumber => return Value(NAN), false;
    case PlusInf => return Value(INFINITY), false;
    case MinusInf => return Value(MINUS_INFINITY), false;
    case MinusZero => return Value(MINUS_ZERO), false;
    case Finite =>
      var b := ExactSumToF64(sum);
      return Value(b), false;
  }

  /** An iterator whose first step throws is closed all the same. */
  method ThrowerIsClosed(e: nat) returns (r: Outcome, closed: bool)
    ensures r == Threw(e) && closed
  {
    var items := [Raises(e)];
    assert Stops(items, 0);
    r, closed := SumPrecise(items);
  }

  lemma EarlierNumbers(items: seq<Element>, i: nat)
    requires i < |items| && AllNumbers(items[..i])
    ensures forall j: nat :: Stops(items, j) ==> j >= i
  {
    forall j | 0 <= j < i
      ensures items[j].Number?
    {
      assert items[..i][j] == items[j];
    }
  }

  lemma OneStop(items: seq<Element>, i: nat)
    requires Stops(items, i)
    ensures forall j: nat :: Stops(items, j) <==> j == i
    ensures forall j :: 0 <= j <= |items| && AllNumbers(items[..j]) ==> j <= i
  {
    forall j: nat | Stops(items, j)
      ensures j == i
    {
      EarlierNumbers(items, i);
      EarlierNumbers(items, j);
    }
    forall j | i < j <= |items|
      ensures !AllNumbers(items[..j])
    {
      assert items[..j][i] == items[i];
    }
  }

  method Advance(state: State, sum: int, x: Bits64) returns (state': State, sum': int)
    ensures (state', sum') == Step((state, sum), x)
  {
    state', sum' := state, sum;
    if IsNaN(x) {
      state' := NotANumber;
    } else if x == INFINITY {
      state' := if state == MinusInf then NotANumber else PlusInf;
    } else if x == MINUS_INFINITY {
      state' := if state == PlusInf then NotANumber else MinusInf;
    } else if x != MINUS_ZERO && (state == MinusZero || state == Finite) {
      state' := Finite;
      sum' := sum + ToBig(x);
    }
  }

  // ---- Finite lists ----

  predicate AllFinite(xs: seq<Bits64>) {
    forall i :: 0 <= i < |xs| ==> IsFinite(xs[i])
  }

  predicate AllMinusZero(xs: seq<Bits64>) {
    forall i :: 0 <= i < |xs| ==> xs[i] == MINUS_ZERO
  }

  /** The exact sum in units of 2^-1074. */
  function Total(xs: seq<Bits64>): int {
    if xs == [] then 0 else Total(xs[..|xs| - 1]) + ToBig(xs[|xs| - 1])
  }

  lemma SpecialBits()
    ensures !IsFinite(INFINITY) && !IsFinite(MINUS_INFINITY) && IsFinite(MINUS_ZERO) && ToBig(MINUS_ZERO) == 0
  {
    SignPosition(INFINITY);
    SignPosition(MINUS_INFINITY);
    SignPosition(MINUS_ZERO);
  }

  lemma {:induction false} RunFinite(xs: seq<Bits64>)
    requires AllFinite(xs)
    ensures Run(xs).0 == (if AllMinusZero(xs) then MinusZero else Finite) && Run(xs).1 == Total(xs)
  {
    if xs != [] {
      hide IsFinite, ToBig;
      var t, x := xs[..|xs| - 1], xs[|xs| - 1];
      RunFinite(t);
      SpecialBits();
      assert xs == t + [x];
    }
  }

  lemma {:induction false} TotalWithout(xs: seq<Bits64>, i: nat)
    requires i < |xs|
    ensures Total(xs) == Total(xs[..i] + xs[i + 1..]) + ToBig(xs[i])
    decreases |xs|
  {
    hide ToBig;
    var t := xs[..|xs| - 1];
    if i == |xs| - 1 {
      assert xs[..i] + xs[i + 1..] == t;
    } else {
      TotalWithout(t, i);
      var rest := xs[..i] + xs[i + 1..];
      assert rest[..|rest| - 1] == t[..i] + t[i + 1..];
      assert rest[|rest| - 1] == xs[|xs| - 1];
    }
  }

  /** The order of the elements does not matter for the exact sum. */
  lemma {:induction false} TotalOfPermutation(xs: seq<Bits64>, ys: seq<Bits64>)
    requires multiset(xs) == multiset(ys)
    ensures Total(xs) == Total(ys)
    decreases |xs|
  {
    hide ToBig;
    if xs == [] {
      assert |ys| == |multiset(ys)| == 0;
    } else {
      var t, x := xs[..|xs| - 1], xs[|xs| - 1];
      assert xs == t + [x];
      assert x in multiset(ys);
      var i :| 0 <= i < |ys| && ys[i] == x;
      var rest := ys[..i] + ys[i + 1..];
      assert ys == ys[..i] + [x] + ys[i + 1..];
      assert multiset(rest) == multiset(ys) - multiset{x};
      assert multiset(t) == multiset(xs) - multiset{x};
      TotalWithout(ys, i);
      TotalOfPermutation(t, rest);
    }
  }

  /** sumPrecise of finite numbers gives the same bits in every order. */
  lemma OrderDoesNotMatter(xs: seq<Bits64>, ys: seq<Bits64>, a: Bits64, b: Bits64)
    requires AllFinite(xs) && multiset(xs) == multiset(ys)
    requires Answers(Run(xs), a) && Answers(Run(ys), b)
    ensures a == b
  {
    hide IsFinite, ToBig, IsRounded, Run, Total;
    SameElements(xs, ys);
    RunFinite(xs);
    RunFinite(ys);
    TotalOfPermutation(xs, ys);
    if Run(xs).0 == Finite {
      RoundedUnique(Total(xs), a, b);
    }
  }

  lemma SameElements(xs: seq<Bits64>, ys: seq<Bits64>)
    requires multiset(xs) == multiset(ys)
    ensures AllFinite(xs) <==> AllFinite(ys)
    ensures AllMinusZero(xs) <==> AllMinusZero(ys)
  {
    hide IsFinite;
    assert forall x :: x in multiset(xs) <==> x in xs;
    assert forall y :: y in multiset(ys) <==> y in ys;
    assert forall i :: 0 <= i < |xs| ==> xs[i] in ys;
    assert forall i :: 0 <= i < |ys| ==> ys[i] in xs;
  }

  /** The answer is -0 exactly when every element is. */
  lemma MinusZeroIff(xs: seq<Bits64>, b: Bits64)
    requires AllFinite(xs) && Answers(Run(xs), b)
    ensures b == MINUS_ZERO <==> AllMinusZero(xs)
  {
    hide IsFinite, ToBig, Run, Total;
    RunFinite(xs);
    if Run(xs).0 == Finite {
      NeverMinusZero(Total(xs), b);
    }
  }

  lemma NeverMinusZero(s: int, b: Bits64)
    requires IsRounded(s, b)
    ensures b != MINUS_ZERO
  {
    if s != 0 && Position(b) == 0 {
      FirstPositions();
    }
  }

  lemma FirstPositions()
    ensures Mag(0) == 0 && Mag(1) == 1
  {
    DivUnique(1, P52, 0, 1);
  }

  // ---- Infinities and NaN ----

  predicate Special(x: Bits64) { !IsFinite(x) }

  /** The last element that is not finite, if any. */
  function LastSpecial(xs: seq<Bits64>): (r: seq<Bits64>)
    ensures |r| <= 1
    ensures r == [] <==> AllFinite(xs)
  {
    if xs == [] then [] else if Special(xs[|xs| - 1]) then [xs[|xs| - 1]] else LastSpecial(xs[..|xs| - 1])
  }

  predicate Opposite(x: Bits64, y: Bits64) {
    (x == INFINITY && y == MINUS_INFINITY) || (x == MINUS_INFINITY && y == INFINITY)
  }

  /** How many infinities at the end of the list alternate in sign, finite elements
      aside. */
  function Alternating(xs: seq<Bits64>): nat {
    if xs == [] then 0
    else
      var t, x := xs[..|xs| - 1], xs[|xs| - 1];
      if !Special(x) then Alternating(t)
      else if IsNaN(x) then 0
      else
        var last := LastSpecial(t);
        1 + if last != [] && Opposite(last[0], x) then Alternating(t) else 0
  }

  /** The loop ends in not-a-number exactly when there is a special element and the
      alternating tail is even. */
  predicate EvenTail(xs: seq<Bits64>) {
    !AllFinite(xs) && Alternating(xs) % 2 == 0
  }

  lemma TailSnoc(t: seq<Bits64>, x: Bits64)
    ensures Run(t + [x]) == Step(Run(t), x)
    ensures AllFinite(t + [x]) <==> AllFinite(t) && IsFinite(x)
    ensures LastSpecial(t + [x]) == if Special(x) then [x] else LastSpecial(t)
    ensures Alternating(t + [x]) ==
            if !Special(x) then Alternating(t)
            else if IsNaN(x) then 0
            else 1 + if LastSpecial(t) != [] && Opposite(LastSpecial(t)[0], x) then Alternating(t) else 0
  {
    hide Step, IsFinite, Opposite;
    assert (t + [x])[..|t|] == t;
    assert AllFinite(t + [x]) ==> AllFinite(t) by {
      if AllFinite(t + [x]) {
        assert forall i :: 0 <= i < |t| ==> t[i] == (t + [x])[i];
      }
    }
  }

  lemma {:induction false} StateOfTail(xs: seq<Bits64>)
    ensures Run(xs).0 == NotANumber <==> EvenTail(xs)
    ensures Run(xs).0 == PlusInf <==> LastSpecial(xs) == [INFINITY] && !EvenTail(xs)
    ensures Run(xs).0 == MinusInf <==> LastSpecial(xs) == [MINUS_INFINITY] && !EvenTail(xs)
  {
    if xs != [] {
      hide IsFinite, ToBig, AllFinite, LastSpecial, Alternating, Run;
      var t, x := xs[..|xs| - 1], xs[|xs| - 1];
      StateOfTail(t);
      SpecialBits();
      assert xs == t + [x];
      TailSnoc(t, x);
    }
  }

  /** The sum is undefined when there is a NaN or there are infinities of both
      signs. */
  predicate Undefined(xs: seq<Bits64>) {
    || (exists i :: 0 <= i < |xs| && IsNaN(xs[i]))
    || (INFINITY in xs && MINUS_INFINITY in xs)
  }

  /** Without a NaN and with one sign only, the tail does not alternate. */
  lemma {:induction false} DefinedTail(xs: seq<Bits64>)
    requires !Undefined(xs)
    ensures !EvenTail(xs)
    ensures AllFinite(xs) <==> INFINITY !in xs && MINUS_INFINITY !in xs
    ensures !AllFinite(xs) ==> LastSpecial(xs) == [if INFINITY in xs then INFINITY else MINUS_INFINITY] && Alternating(xs) == 1
  {
    if xs != [] {
      hide IsFinite;
      var t, x := xs[..|xs| - 1], xs[|xs| - 1];
      SpecialBits();
      assert xs == t + [x];
      assert forall i :: 0 <= i < |t| ==> t[i] == xs[i];
      DefinedTail(t);
    }
  }

  /** The class of answer is right exactly when an undefined sum has an even tail:
      an infinity after the cancelling pair brings the sum back from NaN. */
  lemma UndefinedIff(xs: seq<Bits64>)
    ensures !Undefined(xs) ==> Run(xs).0 != NotANumber
    ensures !Undefined(xs) && INFINITY in xs ==> Run(xs).0 == PlusInf
    ensures !Undefined(xs) && MINUS_INFINITY in xs ==> Run(xs).0 == MinusInf
    ensures Undefined(xs) ==> (Run(xs).0 == NotANumber <==> EvenTail(xs))
  {
    hide Run, Undefined, EvenTail, IsFinite, LastSpecial;
    StateOfTail(xs);
    if !Undefined(xs) {
      DefinedTail(xs);
      OneSign(xs);
    }
  }

  lemma OneSign(xs: seq<Bits64>)
    requires !Undefined(xs)
    ensures !(INFINITY in xs && MINUS_INFINITY in xs)
  {
  }

  /** Infinity, minus infinity and infinity again sum to infinity. */
  lemma InfinityReturns()
    ensures Undefined([INFINITY, MINUS_INFINITY, INFINITY])
    ensures Run([INFINITY, MINUS_INFINITY, INFINITY]).0 == PlusInf
    ensures Run([NAN, INFINITY]).0 == PlusInf
  {
    SpecialBits();
    SignPosition(NAN);
    hide IsFinite;
    var a, b := [INFINITY], [INFINITY, MINUS_INFINITY];
    var xs := [INFINITY, MINUS_INFINITY, INFINITY];
    assert a[..0] == [] && b[..1] == a && xs[..2] == b;
    assert Run(a).0 == PlusInf;
    assert Run(b).0 == NotANumber;
    var ys := [NAN, INFINITY];
    assert ys[..1] == [NAN] && [NAN][..0] == [];
    assert Run([NAN]).0 == NotANumber;
    assert xs[0] == INFINITY && xs[1] == MINUS_INFINITY;
  }
}
