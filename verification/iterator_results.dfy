/** What the consumer of a helper is told: `next` hands over what came out, an
    exception is the first one foreign code threw, and the results of a drained
    helper are the list function of its kind. */
module IteratorResults {
  import opened Basics
  import opened IteratorMask
  import opened IteratorLog
  import opened IteratorHelper
  import opened IteratorForeign
  import opened IteratorRuns
  import opened IteratorLists
  import opened IteratorDrain

  // ---- Which exception comes out ----

  /** `c` is the first exception of those that were added, if any were. */
  ghost predicate First(before: seq<Value>, after: seq<Value>, c: Option<Value>) {
    before <= after && c == if after == before then None else Some(after[|before|])
  }

  /** A step fails with the first exception foreign code threw in it, and only then;
      it hands over nothing by itself. */
  ghost predicate Blames(w: World, r: (World, Outcome)) {
    && Outs(r.0.log) == Outs(w.log)
    && First(Errors(w.log), Errors(r.0.log), if r.1.Fail? then Some(r.1.e) else None)
  }

  /** In strict mode a step may also fail for the lengths, with a TypeError, unless a
      `next` threw; what closing does is of no account. */
  ghost predicate BlamesStrict(w: World, r: (World, Outcome)) {
    && Outs(r.0.log) == Outs(w.log)
    && Throws(w.log) <= Throws(r.0.log)
    && match r.1
       case Fail(e) => e == if Throws(r.0.log) == Throws(w.log) then TypeErrorObject else Throws(r.0.log)[|Throws(w.log)|]
       case _ => Errors(r.0.log) == Errors(w.log) && Throws(r.0.log) == Throws(w.log)
  }

  lemma StepErrors(w: World, it: nat)
    requires Guarded(w)
    ensures
      var (w1, s) := AskStep(w, it);
      && w1.h == w.h && Outs(w1.log) == Outs(w.log)
      && Errors(w1.log) == Errors(w.log) + (if s.Threw? then [s.e] else [])
      && Throws(w1.log) == Throws(w.log) + (if s.Threw? then [s.e] else [])
  {
    StepShape(w, it);
    var l := w.log + [NextBegin(it)];
    SnocErrors(w.log, NextBegin(it));
    SnocErrors(l, NextEnd(it, AskStep(w, it).1));
  }

  lemma CloseErrors(w: World, it: nat, c: Option<Value>)
    requires Guarded(w)
    ensures
      var (w1, c') := AskClose(w, it, c);
      && w1.h == w.h && Outs(w1.log) == Outs(w.log)
      && Errors(w.log) <= Errors(w1.log)
      && Throws(w1.log) == Throws(w.log)
      && (c.Some? ==> c' == c)
      && (c.None? ==> Errors(w1.log) == Errors(w.log) + (if c'.Some? then [c'.value] else []))
  {
    CloseShape(w, it, c);
    var l := w.log + [CloseBegin(it)];
    SnocErrors(w.log, CloseBegin(it));
    SnocErrors(l, CloseEnd(it, NextAnswer(w)));
  }

  lemma CallErrors(w: World, arg: Value, counter: nat)
    requires Guarded(w)
    ensures
      var (w1, a) := AskCall(w, arg, counter);
      && w1.h == w.h && Outs(w1.log) == Outs(w.log)
      && Errors(w1.log) == Errors(w.log) + (if a.Raised? then [a.e] else [])
  {
    hide Errors, Throws, Outs;
    if w.tape != [] {
      ReentryIsInert(w.(tape := w.tape[1..]), w.tape[0].reenter);
    }
    SnocErrors(w.log, Called(arg, counter, AskCall(w, arg, counter).1));
  }

  lemma OpenErrors(w: World, it: nat)
    requires Guarded(w)
    ensures
      var (w1, o) := AskOpen(w, it);
      && w1.h == w.h && Outs(w1.log) == Outs(w.log)
      && Errors(w1.log) == Errors(w.log) + (if o.Some? then [o.value] else [])
  {
    if w.tape != [] {
      ReentryIsInert(w.(tape := w.tape[1..]), w.tape[0].reenter);
    }
    hide Errors, Throws, Outs;
    var o := AskOpen(w, it).1;
    SnocErrors(w.log, if o.None? then Opened(it) else NotOpened(it, o.value));
  }

  lemma {:induction false} CloseOpenErrors(w: World, mask: Mask, n: nat, c: Option<Value>)
    requires Guarded(w)
    ensures
      var (w1, c') := CloseOpen(w, mask, n, c);
      && w1.h == w.h && Outs(w1.log) == Outs(w.log)
      && Errors(w.log) <= Errors(w1.log)
      && Throws(w1.log) == Throws(w.log)
      && (c.Some? ==> c' == c)
      && (c.None? ==> First(Errors(w.log), Errors(w1.log), c'))
    decreases n
  {
    hide AskClose, BitOpen, Outs, Errors, Throws;
    if n > 0 {
      if !BitOpen(mask, n - 1) {
        CloseOpenErrors(w, mask, n - 1, c);
      } else {
        CloseErrors(w, n - 1, c);
        var (w1, c1) := AskClose(w, n - 1, c);
        CloseOpenErrors(w1, mask, n - 1, c1);
      }
    }
  }

  /** An exception was thrown, and what followed can only have added to it. */
  lemma ThenClosed(w: World, w1: World, e: Value, it: nat)
    requires Guarded(w1) && Outs(w1.log) == Outs(w.log) && Errors(w1.log) == Errors(w.log) + [e]
    ensures Blames(w, (AskClose(w1, it, Some(e)).0, Fail(e)))
  {
    hide AskClose, Outs, Errors;
    CloseErrors(w1, it, Some(e));
    assert Errors(w1.log)[|Errors(w.log)|] == e;
  }

  lemma MapBlames(w: World)
    requires w.h.state == 1
    ensures Blames(w, StepMap(w))
  {
    hide AskStep, AskCall, AskClose, Outs, Errors;
    StepErrors(w, 0);
    var (w1, s) := AskStep(w, 0);
    if s.Yield? {
      CallErrors(w1, s.v, w.h.counter);
      var (w2, a) := AskCall(w1, s.v, w.h.counter);
      if a.Raised? {
        ThenClosed(w, w2, a.e, 0);
      }
    }
  }

  lemma {:induction false} FilterBlames(w: World, counter: nat)
    requires w.h.state == 1
    ensures Blames(w, StepFilter(w, counter))
    decreases |w.tape|
  {
    hide AskStep, AskCall, AskClose, Outs, Errors;
    StepErrors(w, 0);
    var (w1, s) := AskStep(w, 0);
    if s.Yield? {
      CallErrors(w1, s.v, counter);
      var (w2, a) := AskCall(w1, s.v, counter);
      if a.Raised? {
        ThenClosed(w, w2, a.e, 0);
      } else if !Truthy(a.v) {
        FilterBlames(w2.(h := w2.h.(counter := counter + 1)), counter + 1);
      }
    }
  }

  lemma TakeBlames(w: World)
    requires w.h.state == 1
    ensures Blames(w, StepTake(w))
  {
    hide AskStep, AskClose, Outs, Errors, Throws;
    if w.h.remaining == Finite(0) {
      CloseErrors(w, 0, None);
    } else {
      StepErrors(w, 0);
    }
  }

  lemma {:induction false} DropBlames(w: World, remaining: Limit)
    requires w.h.state == 1
    ensures Blames(w, StepDrop(w, remaining))
    decreases |w.tape|
  {
    hide AskStep, Outs, Errors;
    StepErrors(w, 0);
    StepErrors(w.(h := w.h.(remaining := Finite(0))), 0);
    var (w1, s) := AskStep(w, 0);
    if remaining != Finite(0) && s.Yield? {
      DropBlames(w1, Less(remaining));
    }
  }

  lemma {:induction false} FlatMapBlames(w: World, counter: nat)
    requires w.h.state == 1
    ensures Blames(w, StepFlatMap(w, counter))
    decreases |w.tape|, if w.h.inner.Some? then 1 else 0
  {
    hide AskStep, AskCall, AskClose, AskOpen, Outs, Errors;
    if w.h.inner.Some? {
      StepErrors(w, w.h.inner.value);
      var (w1, s) := AskStep(w, w.h.inner.value);
      if s.Done? {
        FlatMapBlames(w1.(h := w1.h.(inner := None)), counter);
      } else if s.Threw? {
        ThenClosed(w, w1, s.e, 0);
      }
    } else {
      StepErrors(w, 0);
      var (w1, s) := AskStep(w, 0);
      if s.Yield? {
        CallErrors(w1, s.v, counter);
        var (w2, a) := AskCall(w1, s.v, counter);
        if a.Raised? {
          ThenClosed(w, w2, a.e, 0);
        } else {
          OpenErrors(w2, counter + 1);
          var (w3, o) := AskOpen(w2, counter + 1);
          if o.Some? {
            ThenClosed(w, w3, o.value, 0);
          } else {
            FlatMapBlames(w3.(h := w3.h.(counter := counter + 1, inner := Some(counter + 1))), counter + 1);
          }
        }
      }
    }
  }

  lemma {:induction false} ConcatBlames(w: World)
    requires w.h.state == 1
    ensures Blames(w, StepConcat(w))
    decreases |w.tape|, if w.h.seg < w.h.count then w.h.count - w.h.seg else 0
  {
    hide AskStep, AskClose, AskOpen, Outs, Errors;
    if w.h.seg < w.h.count {
      if w.h.current.None? {
        OpenErrors(w, w.h.seg);
        var (w1, o) := AskOpen(w, w.h.seg);
        if o.None? {
          ConcatBlames(w1.(h := w1.h.(current := Some(w.h.seg))));
        }
      } else {
        StepErrors(w, w.h.current.value);
        var (w1, s) := AskStep(w, w.h.current.value);
        if s.Done? {
          ConcatBlames(w1.(h := w1.h.(current := None, seg := w.h.seg + 1)));
        } else if s.Threw? {
          ThenClosed(w, w1, s.e, w.h.current.value);
        }
      }
    }
  }

  // ---- zip ----

  ghost predicate RowBlames(w: World, r: (World, Outcome)) {
    if w.h.mode == Strict then BlamesStrict(w, r) else Blames(w, r)
  }

  /** A `next` threw, and the inputs that are open are closed. */
  lemma RowThrew(w: World, w2: World, e: Value, n: nat)
    requires Guarded(w2) && Outs(w2.log) == Outs(w.log) && Errors(w2.log) == Errors(w.log) + [e] && Throws(w2.log) == Throws(w.log) + [e]
    ensures RowBlames(w, (CloseOpen(w2, w2.h.open, n, Some(e)).0, Fail(e)))
  {
    hide CloseOpen, Outs, Errors, Throws;
    CloseOpenErrors(w2, w2.h.open, n, Some(e));
    assert Errors(w2.log)[|Errors(w.log)|] == e && Throws(w2.log)[|Throws(w.log)|] == e;
  }

  /** The lengths differ, and the inputs that are open are closed. */
  lemma RowMismatch(w: World, w2: World, n: nat)
    requires w.h.mode == Strict && Guarded(w2) && Outs(w2.log) == Outs(w.log) && Throws(w2.log) == Throws(w.log)
    ensures RowBlames(w, (CloseOpen(w2, w2.h.open, n, Some(TypeErrorObject)).0, Fail(TypeErrorObject)))
  {
    hide CloseOpen, Outs, Errors, Throws;
    CloseOpenErrors(w2, w2.h.open, n, Some(TypeErrorObject));
  }

  lemma {:induction false} StrictScanBlames(w: World, k: nat)
    requires w.h.state == 1 && w.h.mode == Strict
    ensures RowBlames(w, StrictScan(w, k))
    decreases |w.tape|, if k < w.h.count then w.h.count - k else 0
  {
    hide AskStep, CloseOpen, BitOpen, BitClear, Outs, Errors, Throws;
    if k < w.h.count {
      if !BitOpen(w.h.open, k) {
        StrictScanBlames(w, k + 1);
      } else {
        StepErrors(w, k);
        var (w1, s) := AskStep(w, k);
        var w2 := SetOpen(w1, BitClear(w.h.open, k));
        match s
        case Threw(e) => RowThrew(w, w2, e, w.h.count);
        case Yield(_) => RowMismatch(w, w1, w.h.count);
        case Done => StrictScanBlames(w2, k + 1);
      }
    }
  }

  lemma {:induction false} ZipRowBlames(w: World, i: nat, values: seq<Value>)
    requires w.h.state == 1
    ensures RowBlames(w, ZipRow(w, i, values))
    decreases |w.tape|, if i < w.h.count then w.h.count - i else 0
  {
    hide AskStep, CloseOpen, BitOpen, BitClear, StrictScan, Outs, Errors, Throws;
    if i < w.h.count {
      if !BitOpen(w.h.open, i) {
        ZipRowBlames(w, i + 1, if w.h.mode == Longest then values + [Pad(w.h, i)] else values);
      } else {
        StepErrors(w, i);
        var (w1, s) := AskStep(w, i);
        var w2 := SetOpen(w1, BitClear(w.h.open, i));
        match s
        case Yield(v) => ZipRowBlames(w1, i + 1, values + [v]);
        case Threw(e) => RowThrew(w, w2, e, w.h.count);
        case Done =>
          match w.h.mode
          case Shortest => CloseOpenErrors(w2, w2.h.open, w.h.count, None);
          case Strict =>
            if i != 0 {
              RowMismatch(w, w2, w.h.count);
            } else {
              StrictScanBlames(w2, 1);
            }
          case Longest => ZipRowBlames(w2, i + 1, values + [Pad(w2.h, i)]);
      }
    }
  }

  ghost predicate IsStrict(h: Helper) {
    h.kind == Zip && h.mode == Strict
  }

  lemma StepBlames(w: World)
    requires w.h.state == 1
    ensures if IsStrict(w.h) then BlamesStrict(w, StepKind(w)) else Blames(w, StepKind(w))
  {
    hide AskStep, AskCall, AskClose, StepMap, StepTake, StepFilter, StepDrop, StepFlatMap, StepConcat, ZipRow, Outs, Errors, Throws;
    match w.h.kind
    case Map => MapBlames(w);
    case Filter => FilterBlames(w, w.h.counter);
    case Take => TakeBlames(w);
    case Drop => DropBlames(w, w.h.remaining);
    case FlatMap => FlatMapBlames(w, w.h.counter);
    case Zip => ZipRowBlames(w, 0, []);
    case Concat => ConcatBlames(w);
  }

  // ---- The answers of next, return and throw ----

  /** `next` hands over a value exactly as it comes out; it answers done if nothing
      went wrong; and it throws the first exception foreign code threw, or, in a
      strict zip, the first one of a `next`, and a TypeError for the lengths. */
  lemma NextAnswers(w: World)
    requires w.h.state in {0, 3}
    ensures
      var (w', r) := Next(w);
      match r
      case Ok(v, done) =>
        && Errors(w'.log) == Errors(w.log)
        && (!done ==> Outs(w'.log) == Outs(w.log) + [v] && w'.h.state in {0, 3})
        && (done ==> Outs(w'.log) == Outs(w.log) && v == Undefined && w'.h.state == 2)
      case Err(e) =>
        && Outs(w'.log) == Outs(w.log)
        && w'.h.state == 2
        && if IsStrict(w.h) then BlamesStrict(w, (w', Fail(e))) else First(Errors(w.log), Errors(w'.log), Some(e))
  {
    hide StepKind, Outs, Errors, Throws;
    var w0 := SetState(w, 1);
    StepBlames(w0);
    var (w1, o) := StepKind(w0);
    if o.Some_? {
      SnocErrors(w1.log, Out(o.v));
    }
  }

  /** `return` throws the first exception of the iterators it closes, if any, and
      otherwise answers done. */
  lemma ReturnAnswers(w: World)
    requires w.h.state in {0, 3}
    ensures
      var (w', r) := Return(w);
      && Outs(w'.log) == Outs(w.log)
      && First(Errors(w.log), Errors(w'.log), if r.Err? then Some(r.e) else None)
      && (r.Ok? ==> r == Ok(Undefined, true))
  {
    hide AskClose, CloseOpen, Outs, Errors, Throws;
    var w0 := SetState(w, 2);
    match w.h.kind
    case Zip => CloseOpenErrors(SetState(w, if w.h.state == 0 then 2 else 1), w.h.open, w.h.count, None);
    case Concat =>
      if w.h.current.Some? {
        CloseErrors(SetState(w, 1), w.h.current.value, None);
      }
    case FlatMap =>
      if w.h.inner.Some? {
        CloseErrors(w0, w.h.inner.value, None);
        var (w1, c) := AskClose(w0, w.h.inner.value, None);
        CloseErrors(w1, 0, c);
      } else {
        CloseErrors(w0, 0, None);
      }
    case _ => CloseErrors(w0, 0, None);
  }

  /** `throw` throws its argument, whatever closing does. */
  lemma ThrowAnswers(w: World, v: Value)
    requires w.h.state in {0, 2, 3}
    ensures Throw(w, v).1 == Err(v) && Outs(Throw(w, v).0.log) == Outs(w.log)
  {
    hide AskClose, CloseOpen, Outs, Errors, Throws;
    if w.h.state != 2 {
      var w0 := SetState(w, 2);
      match w.h.kind
      case Zip => CloseOpenErrors(SetState(w, if w.h.state == 0 then 2 else 1), w.h.open, w.h.count, Some(v));
      case Concat =>
        if w.h.current.Some? {
          CloseErrors(SetState(w, 1), w.h.current.value, Some(v));
        }
      case FlatMap =>
        if w.h.inner.Some? {
          CloseErrors(w0, w.h.inner.value, Some(v));
          CloseErrors(AskClose(w0, w.h.inner.value, Some(v)).0, 0, Some(v));
        } else {
          CloseErrors(w0, 0, Some(v));
        }
      case _ => CloseErrors(w0, 0, Some(v));
    }
  }

  /** A helper that is running refuses every operation, a completed one is done. */
  lemma OtherAnswers(w: World, op: Op)
    ensures w.h.state == 1 ==> Apply(w, op) == (w, Err(TypeErrorObject))
    ensures w.h.state == 2 ==> Apply(w, op) == (w, if op.OpThrow? then Err(op.v) else Ok(Undefined, true))
  {
  }

  // ---- What a consumer has been handed ----

  /** The values the operations of a run hand to the consumer, in order. */
  function Delivered(w: World, ops: seq<Op>): seq<Value>
    decreases |ops|
  {
    if ops == [] then []
    else
      var (w', r) := Apply(w, ops[0]);
      (if r.Ok? && !r.done then [r.v] else []) + Delivered(w', ops[1..])
  }

  lemma ApplyDelivers(w: World, op: Op)
    requires w.h.state in {0, 2, 3}
    ensures
      var (w', r) := Apply(w, op);
      && Outs(w'.log) == Outs(w.log) + (if r.Ok? && !r.done then [r.v] else [])
      && w'.h.state in {0, 2, 3}
  {
    hide Next, Return, Throw, Outs, Errors;
    OtherAnswers(w, op);
    if w.h.state != 2 {
      match op
      case OpNext => NextAnswers(w);
      case OpReturn =>
        ReturnAnswers(w);
        ReturnCompletes(w);
      case OpThrow(v) =>
        ThrowAnswers(w, v);
        ThrowCompletes(w, v);
    }
  }

  lemma ReturnCompletes(w: World)
    requires w.h.state in {0, 3}
    ensures Return(w).0.h.state == 2
  {
    hide AskClose, CloseOpen;
    var w0 := SetState(w, 2);
    if w.h.kind != Zip && w.h.kind != Concat {
      if w.h.kind == FlatMap && w.h.inner.Some? {
        CloseErrors(w0, w.h.inner.value, None);
        var (w1, c) := AskClose(w0, w.h.inner.value, None);
        CloseErrors(w1, 0, c);
      } else {
        CloseErrors(w0, 0, None);
      }
    }
  }

  lemma ThrowCompletes(w: World, v: Value)
    requires w.h.state in {0, 3}
    ensures Throw(w, v).0.h.state == 2
  {
    hide AskClose, CloseOpen;
    var w0 := SetState(w, 2);
    if w.h.kind != Zip && w.h.kind != Concat {
      if w.h.kind == FlatMap && w.h.inner.Some? {
        CloseErrors(w0, w.h.inner.value, Some(v));
        CloseErrors(AskClose(w0, w.h.inner.value, Some(v)).0, 0, Some(v));
      } else {
        CloseErrors(w0, 0, Some(v));
      }
    }
  }

  /** What the operations of a run hand over is what came out, in every run of every
      helper. */
  lemma {:induction false} RunDelivers(w: World, ops: seq<Op>)
    requires w.h.state in {0, 2, 3}
    ensures Outs(Run(w, ops).log) == Outs(w.log) + Delivered(w, ops)
    decreases |ops|
  {
    hide Apply, Outs;
    if ops != [] {
      ApplyDelivers(w, ops[0]);
      RunDelivers(Apply(w, ops[0]).0, ops[1..]);
    }
  }

  // ---- The results of draining ----

  /** A helper as it was made, with limit n. */
  predicate IsFresh(w: World, n: Limit) {
    w.log == [] && w.h == Fresh(w.h.kind, n, w.h.count, w.h.mode, w.h.padding)
  }

  /** The first `next` that reports exhaustion of a fresh helper is the one after k
      others. */
  ghost predicate DrainedAfter(w: World, n: Limit, k: nat) {
    IsFresh(w, n) && Drains(Run(w, Nexts(k)), n)
  }

  /** The log when the consumer has been told. */
  function FinalLog(w: World, k: nat): Log {
    Next(Run(w, Nexts(k))).0.log
  }

  /** What all the calls of `next` together have handed over. */
  function Results(w: World, k: nat): seq<Value> {
    Delivered(w, Nexts(k + 1))
  }

  lemma {:induction false} OneMoreNext(w: World, k: nat)
    ensures Run(w, Nexts(k + 1)) == Next(Run(w, Nexts(k))).0
    decreases k
  {
    hide Run, Nexts, Next;
    RunNext(w, k + 1);
    if k == 0 {
      RunNone(w);
      RunNone(Next(w).0);
    } else {
      RunNext(w, k);
      OneMoreNext(Next(w).0, k - 1);
    }
  }

  lemma ResultsAreOuts(w: World, n: Limit, k: nat)
    requires IsFresh(w, n)
    ensures Results(w, k) == Outs(FinalLog(w, k))
  {
    hide Run, Nexts, Next, Delivered;
    RunDelivers(w, Nexts(k + 1));
    OneMoreNext(w, k);
    assert Outs(w.log) == [];
  }

  lemma {:induction false} RunLater(w: World, k: nat)
    ensures Later(w, Run(w, Nexts(k)))
    decreases k
  {
    hide Next, Run, Nexts;
    if k == 0 {
      RunNone(w);
    } else {
      RunNext(w, k);
      RunLater(Next(w).0, k - 1);
    }
  }

  lemma DrainedFacts(w: World, n: Limit, k: nat)
    requires DrainedAfter(w, n, k)
    ensures Results(w, k) == Outs(FinalLog(w, k)) && Later(w, Run(w, Nexts(k)))
  {
    hide Run, Nexts, Next, Drains, Results, FinalLog;
    ResultsAreOuts(w, n, k);
    RunLater(w, k);
  }

  /** map: the callback's values of all elements, with their positions. */
  lemma MapResults(w: World, n: Limit, k: nat, xs: seq<Value>, f: (Value, nat) -> Value)
    requires DrainedAfter(w, n, k) && w.h.kind == Map
    requires Walks(FinalLog(w, k), 0, xs) && AnsweredBy(FinalLog(w, k), f)
    ensures Results(w, k) == seq(|xs|, i requires 0 <= i < |xs| => f(xs[i], i))
  {
    hide Run, Nexts, Next, Drains, Results, Walks, AnsweredBy;
    DrainedFacts(w, n, k);
    MapDrained(Run(w, Nexts(k)), n, xs, f);
  }

  /** filter: the elements the callback holds for. */
  lemma FilterResults(w: World, n: Limit, k: nat, xs: seq<Value>, f: (Value, nat) -> Value)
    requires DrainedAfter(w, n, k) && w.h.kind == Filter
    requires Walks(FinalLog(w, k), 0, xs) && AnsweredBy(FinalLog(w, k), f)
    ensures Results(w, k) == Filtered(xs, f)
  {
    hide Run, Nexts, Next, Drains, Results, Walks, AnsweredBy, Filtered;
    DrainedFacts(w, n, k);
    FilterDrained(Run(w, Nexts(k)), n, xs, f);
  }

  /** take and drop: the first n elements, and the others. */
  lemma TakeDropResults(w: World, n: Limit, k: nat, xs: seq<Value>)
    requires DrainedAfter(w, n, k) && w.h.kind in {Take, Drop} && Walks(FinalLog(w, k), 0, xs)
    ensures
      var m := if n.Finite? && n.n <= |xs| then n.n else |xs|;
      Results(w, k) == if w.h.kind == Take then xs[..m] else xs[m..]
  {
    hide Run, Nexts, Next, Drains, Results, Walks;
    DrainedFacts(w, n, k);
    if w.h.kind == Take {
      TakeDrained(Run(w, Nexts(k)), n, xs);
    } else {
      DropDrained(Run(w, Nexts(k)), n, xs);
    }
  }

  /** flatMap and concat: the inner lists, and the segments, one after the other. */
  lemma FlatMapResults(w: World, n: Limit, k: nat, xs: seq<Value>, xss: seq<seq<Value>>)
    requires DrainedAfter(w, n, k) && w.h.kind == FlatMap && |xss| == |xs|
    requires Walks(FinalLog(w, k), 0, xs)
    requires forall i :: 0 <= i < |xss| ==> Walks(FinalLog(w, k), i + 1, xss[i])
    ensures Results(w, k) == Flatten(xss)
  {
    hide Run, Nexts, Next, Drains, Results, Walks, Flatten, Aligned;
    DrainedFacts(w, n, k);
    FlatMapDrained(Run(w, Nexts(k)), n, xs, xss);
  }

  lemma ConcatResults(w: World, n: Limit, k: nat, xss: seq<seq<Value>>)
    requires DrainedAfter(w, n, k) && w.h.kind == Concat && |xss| == w.h.count
    requires forall i :: 0 <= i < |xss| ==> Walks(FinalLog(w, k), i, xss[i])
    ensures Results(w, k) == Flatten(xss)
  {
    hide Run, Nexts, Next, Drains, Results, Walks, Flatten;
    DrainedFacts(w, n, k);
    ConcatDrained(Run(w, Nexts(k)), n, xss);
  }

  ghost predicate Rows(h: Helper, xss: seq<seq<Value>>, outs: seq<Value>) {
    forall i :: 0 <= i < |outs| ==> RowOf(h, xss, i, outs[i])
  }

  /** zip: the rows of the table of the inputs, as many as the mode says. */
  lemma ZipResults(w: World, n: Limit, k: nat, xss: seq<seq<Value>>)
    requires DrainedAfter(w, n, k) && w.h.kind == Zip && |xss| == w.h.count > 0 && AllWalk(FinalLog(w, k), xss)
    ensures Rows(w.h, xss, Results(w, k))
    ensures
      match w.h.mode
      case Shortest => IsShortest(xss, |Results(w, k)|)
      case Longest => IsLongest(xss, |Results(w, k)|)
      case Strict => forall i :: 0 <= i < |xss| ==> |xss[i]| == |Results(w, k)|
  {
    hide Run, Nexts, Next, Drains, Results, AllWalk, IsShortest, IsLongest;
    DrainedFacts(w, n, k);
    var v := Run(w, Nexts(k));
    match w.h.mode {
      case Shortest => ShortestDrained(v, n, xss);
      case Longest => LongestDrained(v, n, xss);
      case Strict => StrictDrained(v, n, xss);
    }
    SamePads(w.h, v.h, xss, Results(w, k));
  }
}
