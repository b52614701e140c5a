/** The helper object itself: its slots are fields, each method updates them in
    place and loops as the engine does.  Every method is proved to compute the
    function of the same name in `IteratorHelper`, so all that is proved there
    holds of the object. */
module IteratorObject {
  import opened Basics
  import opened IteratorMask
  import opened IteratorLog
  import opened IteratorHelper

  class HelperObject {
    const kind: Kind
    const mode: Mode
    const count: nat
    const padding: Option<seq<Value>>
    var state: nat
    var counter: nat
    var remaining: Limit
    var inner: Option<nat>
    var open: Mask
    var seg: nat
    var current: Option<nat>
    // The outside world.
    var tape: seq<Reaction>
    var log: Log

    /** The abstract value of the object. */
    ghost function Abs(): World
      reads this
    {
      World(Helper(kind, state, counter, remaining, inner, open, mode, count, padding, seg, current), tape, log)
    }

    constructor (kind: Kind, limit: Limit, count: nat, mode: Mode, padding: Option<seq<Value>>, tape: seq<Reaction>)
      ensures Abs() == Start(Fresh(kind, limit, count, mode, padding), tape)
    {
      this.kind, this.mode, this.count, this.padding := kind, mode, count, padding;
      state, counter, remaining, inner := 0, 0, limit, None;
      open, seg, current := ALL_OPEN, 0, None;
      this.tape, log := tape, [];
    }

    // ---- Foreign calls ----

    method Reenter(ops: seq<Op>)
      modifies this
      ensures Abs() == IteratorHelper.Reenter(old(Abs()), ops)
      decreases |tape|, 9, |ops|
    {
      if ops != [] {
        var r := Apply(ops[0]);
        Reenter(ops[1..]);
      }
    }

    method AskStep(it: nat) returns (r: StepResult)
      modifies this
      ensures (Abs(), r) == IteratorHelper.AskStep(old(Abs()), it)
      decreases |tape|, 2
    {
      log := log + [NextBegin(it)];
      r := Done;
      if tape != [] {
        var react := tape[0];
        tape := tape[1..];
        Reenter(react.reenter);
        r := react.step;
      }
      log := log + [NextEnd(it, r)];
    }

    method AskClose(it: nat, completion: Option<Value>) returns (r: Option<Value>)
      modifies this
      ensures (Abs(), r) == IteratorHelper.AskClose(old(Abs()), it, completion)
      decreases |tape|, 2
    {
      log := log + [CloseBegin(it)];
      r := completion;
      var answer := NoMethod;
      if tape != [] {
        var react := tape[0];
        tape := tape[1..];
        Reenter(react.reenter);
        answer := react.close;
        r := CloseCompletion(completion, answer);
      }
      log := log + [CloseEnd(it, answer)];
    }

    method AskCall(arg: Value, counter: nat) returns (r: Answer)
      modifies this
      ensures (Abs(), r) == IteratorHelper.AskCall(old(Abs()), arg, counter)
      decreases |tape|, 2
    {
      r := Returned(Undefined);
      if tape != [] {
        var react := tape[0];
        tape := tape[1..];
        Reenter(react.reenter);
        r := react.call;
      }
      log := log + [Called(arg, counter, r)];
    }

    method AskOpen(it: nat) returns (r: Option<Value>)
      modifies this
      ensures (Abs(), r) == IteratorHelper.AskOpen(old(Abs()), it)
      decreases |tape|, 2
    {
      r := Some(TypeErrorObject);
      if tape != [] {
        var react := tape[0];
        tape := tape[1..];
        Reenter(react.reenter);
        match react.open
        case OpenThrew(e) => r := Some(e);
        case OpenOk => r := None;
      }
      log := log + [if r.None? then Opened(it) else NotOpened(it, r.value)];
    }

    // ---- Steps ----

    method StepMap() returns (r: Outcome)
      modifies this
      ensures (Abs(), r) == IteratorHelper.StepMap(old(Abs()))
      decreases |tape|, 4
    {
      hide IteratorHelper.AskStep, IteratorHelper.AskCall, IteratorHelper.AskClose;
      var c := counter;
      var s := AskStep(0);
      match s
      case Done => r := Exhaust;
      case Threw(e) => r := Fail(e);
      case Yield(v) =>
        var a := AskCall(v, c);
        match a
        case Returned(m) =>
          counter := c + 1;
          r := Some_(m);
        case Raised(e) =>
          var _ := AskClose(0, Some(e));
          r := Fail(e);
    }

    method StepFilter() returns (r: Outcome)
      modifies this
      ensures (Abs(), r) == IteratorHelper.StepFilter(old(Abs()), old(counter))
      decreases |tape|, 4
    {
      hide IteratorHelper.AskStep, IteratorHelper.AskCall, IteratorHelper.AskClose;
      var c := counter;
      while true
        invariant |tape| <= |old(tape)|
        invariant IteratorHelper.StepFilter(Abs(), c) == IteratorHelper.StepFilter(old(Abs()), old(counter))
        decreases |tape|
      {
        var s := AskStep(0);
        match s {
          case Done => return Exhaust;
          case Threw(e) => return Fail(e);
          case Yield(v) =>
            var a := AskCall(v, c);
            match a {
              case Returned(b) =>
                c := c + 1;
                counter := c;
                if Truthy(b) {
                  return Some_(v);
                }
              case Raised(e) =>
                var _ := AskClose(0, Some(e));
                return Fail(e);
            }
        }
      }
    }

    method StepTake() returns (r: Outcome)
      modifies this
      ensures (Abs(), r) == IteratorHelper.StepTake(old(Abs()))
      decreases |tape|, 4
    {
      hide IteratorHelper.AskStep, IteratorHelper.AskClose;
      if remaining == Finite(0) {
        var c := AskClose(0, None);
        return if c.Some? then Fail(c.value) else Exhaust;
      }
      var left := Less(remaining);
      var s := AskStep(0);
      match s
      case Done => r := Exhaust;
      case Threw(e) => r := Fail(e);
      case Yield(v) =>
        remaining := left;
        r := Some_(v);
    }

    method StepDrop() returns (r: Outcome)
      modifies this
      ensures (Abs(), r) == IteratorHelper.StepDrop(old(Abs()), old(remaining))
      decreases |tape|, 4
    {
      hide IteratorHelper.AskStep;
      var left := remaining;
      while left != Finite(0)
        invariant |tape| <= |old(tape)|
        invariant IteratorHelper.StepDrop(Abs(), left) == IteratorHelper.StepDrop(old(Abs()), old(remaining))
        decreases |tape|
      {
        left := Less(left);
        var s := AskStep(0);
        match s {
          case Done => return Exhaust;
          case Threw(e) => return Fail(e);
          case Yield(_) =>
        }
      }
      remaining := Finite(0);
      var s := AskStep(0);
      match s
      case Done => r := Exhaust;
      case Threw(e) => r := Fail(e);
      case Yield(v) => r := Some_(v);
    }

    method StepFlatMap() returns (r: Outcome)
      modifies this
      ensures (Abs(), r) == IteratorHelper.StepFlatMap(old(Abs()), old(counter))
      decreases |tape|, 4, if inner.Some? then 1 else 0
    {
      hide IteratorHelper.AskStep, IteratorHelper.AskCall, IteratorHelper.AskClose, IteratorHelper.AskOpen;
      var c := counter;
      while true
        invariant |tape| <= |old(tape)|
        invariant IteratorHelper.StepFlatMap(Abs(), c) == IteratorHelper.StepFlatMap(old(Abs()), old(counter))
        decreases |tape|, if inner.Some? then 1 else 0
      {
        if inner.Some? {
          var s := AskStep(inner.value);
          match s {
            case Yield(v) => return Some_(v);
            case Done =>
              inner := None;
              continue;
            case Threw(e) =>
              var _ := AskClose(0, Some(e));
              return Fail(e);
          }
        }
        var s := AskStep(0);
        match s {
          case Done => return Exhaust;
          case Threw(e) => return Fail(e);
          case Yield(v) =>
            var a := AskCall(v, c);
            if a.Raised? {
              var _ := AskClose(0, Some(a.e));
              return Fail(a.e);
            }
            var o := AskOpen(c + 1);
            if o.Some? {
              var _ := AskClose(0, o);
              return Fail(o.value);
            }
            c := c + 1;
            counter := c;
            inner := Some(c);
        }
      }
    }

    method CloseOpen(mask: Mask, n: nat, completion: Option<Value>) returns (r: Option<Value>)
      modifies this
      ensures (Abs(), r) == IteratorHelper.CloseOpen(old(Abs()), mask, n, completion)
      decreases |tape|, 3, n
    {
      hide IteratorHelper.AskClose, BitOpen;
      r := completion;
      var i: nat := n;
      while i > 0
        invariant |tape| <= |old(tape)| && i <= n
        invariant IteratorHelper.CloseOpen(Abs(), mask, i, r) == IteratorHelper.CloseOpen(old(Abs()), mask, n, completion)
      {
        i := i - 1;
        if BitOpen(mask, i) {
          r := AskClose(i, r);
        }
      }
    }

    method StrictScan() returns (r: Outcome)
      modifies this
      ensures (Abs(), r) == IteratorHelper.StrictScan(old(Abs()), 1)
      decreases |tape|, 4
    {
      hide IteratorHelper.AskStep, IteratorHelper.CloseOpen, BitOpen, BitClear;
      var k := 1;
      while k < count
        invariant |tape| <= |old(tape)|
        invariant IteratorHelper.StrictScan(Abs(), k) == IteratorHelper.StrictScan(old(Abs()), 1)
        decreases count - k
      {
        if BitOpen(open, k) {
          var mask := open;
          var s := AskStep(k);
          match s {
            case Threw(e) =>
              open := BitClear(mask, k);
              var _ := CloseOpen(open, count, Some(e));
              return Fail(e);
            case Yield(_) =>
              var _ := CloseOpen(mask, count, Some(TypeErrorObject));
              return Fail(TypeErrorObject);
            case Done =>
              open := BitClear(mask, k);
          }
        }
        k := k + 1;
      }
      r := Exhaust;
    }

    method StepZip() returns (r: Outcome)
      modifies this
      ensures (Abs(), r) == IteratorHelper.StepZip(old(Abs()))
      decreases |tape|, 6
    {
      hide IteratorHelper.AskStep, IteratorHelper.CloseOpen, IteratorHelper.StrictScan, BitOpen, BitClear;
      if count == 0 || AllShut(open, count) {
        return Exhaust;
      }
      var values := [];
      var i := 0;
      while i < count
        invariant |tape| <= |old(tape)|
        invariant ZipRow(Abs(), i, values) == ZipRow(old(Abs()), 0, [])
        decreases count - i
      {
        if !BitOpen(open, i) {
          if mode == Longest {
            values := values + [Pad(Helper(kind, state, counter, remaining, inner, open, mode, count, padding, seg, current), i)];
          }
        } else {
          var mask := open;
          var s := AskStep(i);
          match s {
            case Yield(v) => values := values + [v];
            case Threw(e) =>
              open := BitClear(mask, i);
              var _ := CloseOpen(open, count, Some(e));
              return Fail(e);
            case Done =>
              open := BitClear(mask, i);
              match mode {
                case Shortest =>
                  var c := CloseOpen(open, count, None);
                  return if c.Some? then Fail(c.value) else Exhaust;
                case Strict =>
                  if i != 0 {
                    var _ := CloseOpen(open, count, Some(TypeErrorObject));
                    return Fail(TypeErrorObject);
                  }
                  r := StrictScan();
                  return;
                case Longest =>
                  if AllShut(open, count) {
                    return Exhaust;
                  }
                  values := values + [Pad(Helper(kind, state, counter, remaining, inner, open, mode, count, padding, seg, current), i)];
              }
          }
        }
        i := i + 1;
      }
      r := Some_(List(values));
    }

    method StepConcat() returns (r: Outcome)
      modifies this
      ensures (Abs(), r) == IteratorHelper.StepConcat(old(Abs()))
      decreases |tape|, 4
    {
      hide IteratorHelper.AskStep, IteratorHelper.AskClose, IteratorHelper.AskOpen;
      while seg < count
        invariant |tape| <= |old(tape)|
        invariant IteratorHelper.StepConcat(Abs()) == IteratorHelper.StepConcat(old(Abs()))
        decreases |tape|, if seg < count then count - seg else 0
      {
        var k := seg;
        if current.None? {
          var o := AskOpen(k);
          if o.Some? {
            return Fail(o.value);
          }
          current := Some(k);
        } else {
          var it := current.value;
          var s := AskStep(it);
          match s {
            case Yield(v) => return Some_(v);
            case Threw(e) =>
              var _ := AskClose(it, Some(e));
              return Fail(e);
            case Done =>
              current := None;
              seg := k + 1;
          }
        }
      }
      r := Exhaust;
    }

    // ---- next, return, throw ----

    method StepKind() returns (r: Outcome)
      modifies this
      ensures (Abs(), r) == IteratorHelper.StepKind(old(Abs()))
      decreases |tape|, 7
    {
      match kind
      case Map => r := StepMap();
      case Filter => r := StepFilter();
      case Take => r := StepTake();
      case Drop => r := StepDrop();
      case FlatMap => r := StepFlatMap();
      case Zip => r := StepZip();
      case Concat => r := StepConcat();
    }

    method Next() returns (r: Result)
      modifies this
      ensures (Abs(), r) == IteratorHelper.Next(old(Abs()))
      decreases |tape|, 8, 0
    {
      hide IteratorHelper.StepKind;
      if state == 2 {
        return DONE_RESULT;
      }
      if state == 1 {
        return Err(TypeErrorObject);
      }
      state := 1;
      var o := StepKind();
      match o
      case Some_(v) =>
        state := if kind == Zip || kind == Concat then 3 else 0;
        log := log + [Out(v)];
        r := Ok(v, false);
      case Exhaust =>
        state := 2;
        r := DONE_RESULT;
      case Fail(e) =>
        state := 2;
        r := Err(e);
    }

    method Return() returns (r: Result)
      modifies this
      ensures (Abs(), r) == IteratorHelper.Return(old(Abs()))
      decreases |tape|, 8, 0
    {
      hide IteratorHelper.AskClose, IteratorHelper.CloseOpen;
      if state == 2 {
        return DONE_RESULT;
      }
      if state == 1 {
        return Err(TypeErrorObject);
      }
      match kind {
        case Zip =>
          state := if state == 0 then 2 else 1;
          var c := CloseOpen(open, count, None);
          state := 2;
          return CompletionResult(c);
        case Concat =>
          if current.Some? {
            state := 1;
            var c := AskClose(current.value, None);
            state := 2;
            return CompletionResult(c);
          }
          state := 2;
          return DONE_RESULT;
        case FlatMap =>
          state := 2;
          if inner.Some? {
            var c := AskClose(inner.value, None);
            if c.Some? {
              var _ := AskClose(0, c);
              return Err(c.value);
            }
          }
        case _ =>
          state := 2;
      }
      var c := AskClose(0, None);
      r := CompletionResult(c);
    }

    method Throw(v: Value) returns (r: Result)
      modifies this
      ensures (Abs(), r) == IteratorHelper.Throw(old(Abs()), v)
      decreases |tape|, 8, 0
    {
      hide IteratorHelper.AskClose, IteratorHelper.CloseOpen;
      if state == 2 {
        return Err(v);
      }
      if state == 1 {
        return Err(TypeErrorObject);
      }
      match kind {
        case Zip =>
          state := if state == 0 then 2 else 1;
          var _ := CloseOpen(open, count, Some(v));
          state := 2;
          return Err(v);
        case Concat =>
          if current.Some? {
            state := 1;
            var _ := AskClose(current.value, Some(v));
          }
          state := 2;
          return Err(v);
        case FlatMap =>
          state := 2;
          if inner.Some? {
            var _ := AskClose(inner.value, Some(v));
          }
        case _ =>
          state := 2;
      }
      var _ := AskClose(0, Some(v));
      r := Err(v);
    }

    method Apply(op: Op) returns (r: Result)
      modifies this
      ensures (Abs(), r) == IteratorHelper.Apply(old(Abs()), op)
      decreases |tape|, 8, 1
    {
      match op
      case OpNext => r := Next();
      case OpReturn => r := Return();
      case OpThrow(v) => r := Throw(v);
    }
  }
}
