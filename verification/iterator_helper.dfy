/** The iterator-helper state machine: one set of slots drives map, filter, take,
    drop, flatMap, zip and concat.

    All foreign code (underlying iterators, callbacks, `@@iterator` methods) is
    a tape of reactions.  Each foreign call takes the next reaction, which says
    which operations the foreign code performs on this very helper before it
    answers, and what it answers.  An empty tape answers "done", so every finite
    prefix of every run is the run of some tape. */
module IteratorHelper {
  import opened Basics
  import opened IteratorLog
  import opened IteratorMask

  datatype Kind = Map | Filter | Take | Drop | FlatMap | Zip | Concat

  datatype Mode = Shortest | Longest | Strict

  /** A limit of take or drop: a natural number or +Infinity. */
  datatype Limit = Finite(n: nat) | Infinite

  datatype Op = OpNext | OpReturn | OpThrow(v: Value)

  /** Whether opening an inner iterator (or a segment) succeeded. */
  datatype OpenAnswer = OpenOk | OpenThrew(e: Value)

  datatype Reaction =
    Reaction(reenter: seq<Op>, step: StepResult, close: CloseAnswer, call: Answer, open: OpenAnswer)

  /** The slots of a helper object.  `state` is 0 suspended-start, 1 executing,
      2 completed, 3 suspended-yield. */
  datatype Helper = Helper(
    kind: Kind,
    state: nat,
    counter: nat,
    remaining: Limit,
    inner: Option<nat>,
    open: Mask,
    mode: Mode,
    count: nat,
    padding: Option<seq<Value>>,
    seg: nat,
    current: Option<nat>)

  datatype World = World(h: Helper, tape: seq<Reaction>, log: Log)

  datatype Result = Ok(v: Value, done: bool) | Err(e: Value)

  /** What one step of a kind delivers: a value, exhaustion, or an exception. */
  datatype Outcome = Some_(v: Value) | Exhaust | Fail(e: Value)

  function Emit(w: World, e: Event): (r: World) {
    w.(log := w.log + [e])
  }

  function SetState(w: World, s: nat): World {
    w.(h := w.h.(state := s))
  }

  /** `r` comes after `w` in some run of the same helper: the tape only gets
      shorter, and the slots written once at construction stay. */
  predicate Later(w: World, r: World) {
    && |r.tape| <= |w.tape|
    && r.h.kind == w.h.kind
    && r.h.count == w.h.count
    && r.h.mode == w.h.mode
    && r.h.padding == w.h.padding
  }

  // ---- Construction ----

  /** A fresh helper.  `limit` matters for take and drop, `count` for zip (inputs)
      and concat (segments), `mode` and `padding` for zip. */
  function Fresh(kind: Kind, limit: Limit, count: nat, mode: Mode, padding: Option<seq<Value>>): Helper {
    Helper(kind, 0, 0, limit, None, ALL_OPEN, mode, count, padding, 0, None)
  }

  function Start(h: Helper, tape: seq<Reaction>): World {
    World(h, tape, [])
  }

  // ---- Foreign calls ----

  /** The operations foreign code performs on this helper before answering. */
  function Reenter(w: World, ops: seq<Op>): (r: World)
    ensures Later(w, r)
    decreases |w.tape|, 9, |ops|
  {
    if ops == [] then w
    else Reenter(Apply(w, ops[0]).0, ops[1..])
  }

  /** IteratorStepValue on iterator `it`. */
  function AskStep(w: World, it: nat): (r: (World, StepResult))
    ensures Later(w, r.0)
    ensures w.tape != [] ==> |r.0.tape| < |w.tape|
    ensures w.tape == [] ==> r.1 == Done
    decreases |w.tape|, 2
  {
    var w1 := Emit(w, NextBegin(it));
    if w.tape == [] then
      (Emit(w1, NextEnd(it, Done)), Done)
    else
      var react := w.tape[0];
      var w2 := Reenter(w1.(tape := w.tape[1..]), react.reenter);
      (Emit(w2, NextEnd(it, react.step)), react.step)
  }

  /** IteratorClose on iterator `it`.  An exception in flight always wins;
      otherwise a failing or non-object `return` becomes the exception. */
  function AskClose(w: World, it: nat, completion: Option<Value>): (r: (World, Option<Value>))
    ensures Later(w, r.0)
    decreases |w.tape|, 2
  {
    var w1 := Emit(w, CloseBegin(it));
    if w.tape == [] then
      (Emit(w1, CloseEnd(it, NoMethod)), completion)
    else
      var react := w.tape[0];
      var w2 := Reenter(w1.(tape := w.tape[1..]), react.reenter);
      (Emit(w2, CloseEnd(it, react.close)), CloseCompletion(completion, react.close))
  }

  function CloseCompletion(completion: Option<Value>, a: CloseAnswer): Option<Value> {
    if completion.Some? then completion
    else
      match a
      case NoMethod => None
      case GetterThrew(e) => Some(e)
      case ReturnThrew(e) => Some(e)
      case ReturnedObject => None
      case ReturnedPrimitive => Some(TypeErrorObject)
  }

  /** A user callback with the element and the running count. */
  function AskCall(w: World, arg: Value, counter: nat): (r: (World, Answer))
    ensures Later(w, r.0)
    decreases |w.tape|, 2
  {
    if w.tape == [] then
      (Emit(w, Called(arg, counter, Returned(Undefined))), Returned(Undefined))
    else
      var react := w.tape[0];
      var w2 := Reenter(w.(tape := w.tape[1..]), react.reenter);
      (Emit(w2, Called(arg, counter, react.call)), react.call)
  }

  /** Opening iterator `it`: GetIteratorFlattenable for flatMap, the cached
      `@@iterator` method of a segment for concat. */
  function AskOpen(w: World, it: nat): (r: (World, Option<Value>))
    ensures Later(w, r.0)
    ensures r.1.None? ==> |r.0.tape| < |w.tape|
    decreases |w.tape|, 2
  {
    if w.tape == [] then
      (Emit(w, NotOpened(it, TypeErrorObject)), Some(TypeErrorObject))
    else
      var react := w.tape[0];
      var w2 := Reenter(w.(tape := w.tape[1..]), react.reenter);
      match react.open
      case OpenThrew(e) => (Emit(w2, NotOpened(it, e)), Some(e))
      case OpenOk => (Emit(w2, Opened(it)), None)
  }

  // ---- One step of each kind ----

  function StepMap(w: World): (r: (World, Outcome))
    ensures Later(w, r.0)
    decreases |w.tape|, 4
  {
    var counter := w.h.counter;
    var (w1, s) := AskStep(w, 0);
    match s
    case Done => (w1, Exhaust)
    case Threw(e) => (w1, Fail(e))
    case Yield(v) =>
      var (w2, a) := AskCall(w1, v, counter);
      match a
      case Returned(m) => (w2.(h := w2.h.(counter := counter + 1)), Some_(m))
      case Raised(e) => (AskClose(w2, 0, Some(e)).0, Fail(e))
  }

  function StepFilter(w: World, counter: nat): (r: (World, Outcome))
    ensures Later(w, r.0)
    decreases |w.tape|, 4
  {
    var (w1, s) := AskStep(w, 0);
    match s
    case Done => (w1, Exhaust)
    case Threw(e) => (w1, Fail(e))
    case Yield(v) =>
      var (w2, a) := AskCall(w1, v, counter);
      match a
      case Raised(e) => (AskClose(w2, 0, Some(e)).0, Fail(e))
      case Returned(b) =>
        var w3 := w2.(h := w2.h.(counter := counter + 1));
        if Truthy(b) then (w3, Some_(v)) else StepFilter(w3, counter + 1)
  }

  function Less(l: Limit): Limit
    requires l != Finite(0)
  {
    if l.Infinite? then Infinite else Finite(l.n - 1)
  }

  function StepTake(w: World): (r: (World, Outcome))
    ensures Later(w, r.0)
    decreases |w.tape|, 4
  {
    var remaining := w.h.remaining;
    if remaining == Finite(0) then
      var (w1, c) := AskClose(w, 0, None);
      (w1, if c.Some? then Fail(c.value) else Exhaust)
    else
      var (w1, s) := AskStep(w, 0);
      match s
      case Done => (w1, Exhaust)
      case Threw(e) => (w1, Fail(e))
      case Yield(v) => (w1.(h := w1.h.(remaining := Less(remaining))), Some_(v))
  }

  function StepDrop(w: World, remaining: Limit): (r: (World, Outcome))
    ensures Later(w, r.0)
    decreases |w.tape|, 4
  {
    if remaining != Finite(0) then
      var (w1, s) := AskStep(w, 0);
      match s
      case Done => (w1, Exhaust)
      case Threw(e) => (w1, Fail(e))
      case Yield(_) => StepDrop(w1, Less(remaining))
    else
      var (w1, s) := AskStep(w.(h := w.h.(remaining := Finite(0))), 0);
      match s
      case Done => (w1, Exhaust)
      case Threw(e) => (w1, Fail(e))
      case Yield(v) => (w1, Some_(v))
  }

  /** flatMap: iterator 0 is the outer one; the k-th inner iterator is number k. */
  function StepFlatMap(w: World, counter: nat): (r: (World, Outcome))
    ensures Later(w, r.0)
    decreases |w.tape|, 4, if w.h.inner.Some? then 1 else 0
  {
    if w.h.inner.Some? then
      var (w1, s) := AskStep(w, w.h.inner.value);
      match s
      case Yield(v) => (w1, Some_(v))
      case Done => StepFlatMap(w1.(h := w1.h.(inner := None)), counter)
      case Threw(e) => (AskClose(w1, 0, Some(e)).0, Fail(e))
    else
      var (w1, s) := AskStep(w, 0);
      match s
      case Done => (w1, Exhaust)
      case Threw(e) => (w1, Fail(e))
      case Yield(v) =>
        var (w2, a) := AskCall(w1, v, counter);
        match a
        case Raised(e) => (AskClose(w2, 0, Some(e)).0, Fail(e))
        case Returned(_) =>
          var (w3, o) := AskOpen(w2, counter + 1);
          match o
          case Some(e) => (AskClose(w3, 0, Some(e)).0, Fail(e))
          case None =>
            StepFlatMap(w3.(h := w3.h.(counter := counter + 1, inner := Some(counter + 1))), counter + 1)
  }

  // ---- zip ----

  /** Closes the inputs below `n` that the mask says are open, from the last to
      the first; a close error becomes the completion. */
  function CloseOpen(w: World, mask: Mask, n: nat, completion: Option<Value>): (r: (World, Option<Value>))
    ensures Later(w, r.0)
    decreases |w.tape|, 3, n
  {
    if n == 0 then (w, completion)
    else if !BitOpen(mask, n - 1) then CloseOpen(w, mask, n - 1, completion)
    else
      var (w1, c) := AskClose(w, n - 1, completion);
      CloseOpen(w1, mask, n - 1, c)
  }

  predicate AllShut(mask: Mask, count: nat) {
    forall i :: 0 <= i < count ==> !BitOpen(mask, i)
  }

  function Pad(h: Helper, i: nat): Value {
    if h.padding.Some? && i < |h.padding.value| then h.padding.value[i] else Undefined
  }

  function SetOpen(w: World, mask: Mask): World {
    w.(h := w.h.(open := mask))
  }

  /** Strict mode, first input exhausted: the others must all be exhausted too. */
  function StrictScan(w: World, k: nat): (r: (World, Outcome))
    ensures Later(w, r.0)
    decreases |w.tape|, 4, if k < w.h.count then w.h.count - k else 0
  {
    if k >= w.h.count then (w, Exhaust)
    else if !BitOpen(w.h.open, k) then StrictScan(w, k + 1)
    else
      var open := w.h.open;
      var count := w.h.count;
      var (w1, s) := AskStep(w, k);
      match s
      case Threw(e) =>
        var w2 := SetOpen(w1, BitClear(open, k));
        (CloseOpen(w2, BitClear(open, k), count, Some(e)).0, Fail(e))
      case Yield(_) =>
        (CloseOpen(w1, open, count, Some(TypeErrorObject)).0, Fail(TypeErrorObject))
      case Done =>
        var w2 := SetOpen(w1, BitClear(open, k));
        StrictScan(w2, k + 1)
  }

  /** One row of zip, from input `i` on, with the values of the inputs before. */
  function ZipRow(w: World, i: nat, values: seq<Value>): (r: (World, Outcome))
    ensures Later(w, r.0)
    decreases |w.tape|, 5, if i < w.h.count then w.h.count - i else 0
  {
    if i >= w.h.count then (w, Some_(List(values)))
    else if !BitOpen(w.h.open, i) then
      ZipRow(w, i + 1, if w.h.mode == Longest then values + [Pad(w.h, i)] else values)
    else
      var open := w.h.open;
      var count := w.h.count;
      var (w1, s) := AskStep(w, i);
      match s
      case Yield(v) =>
        ZipRow(w1, i + 1, values + [v])
      case Threw(e) =>
        var w2 := SetOpen(w1, BitClear(open, i));
        (CloseOpen(w2, BitClear(open, i), count, Some(e)).0, Fail(e))
      case Done =>
        var open' := BitClear(open, i);
        var w2 := SetOpen(w1, open');
        match w.h.mode
        case Shortest =>
          var (w3, c) := CloseOpen(w2, open', count, None);
          (w3, if c.Some? then Fail(c.value) else Exhaust)
        case Strict =>
          if i != 0 then
            (CloseOpen(w2, open', count, Some(TypeErrorObject)).0, Fail(TypeErrorObject))
          else
            StrictScan(w2, 1)
        case Longest =>
          if AllShut(open', count) then (w2, Exhaust)
          else ZipRow(w2, i + 1, values + [Pad(w2.h, i)])
  }

  function StepZip(w: World): (r: (World, Outcome))
    ensures Later(w, r.0)
    decreases |w.tape|, 6
  {
    if w.h.count == 0 || AllShut(w.h.open, w.h.count) then (w, Exhaust)
    else ZipRow(w, 0, [])
  }

  // ---- concat ----

  /** concat: segment `k` is iterator number `k`. */
  function StepConcat(w: World): (r: (World, Outcome))
    ensures Later(w, r.0)
    decreases |w.tape|, 4, if w.h.seg < w.h.count then w.h.count - w.h.seg else 0
  {
    if w.h.seg >= w.h.count then (w, Exhaust)
    else
      var seg := w.h.seg;
      if w.h.current.None? then
        var (w1, o) := AskOpen(w, seg);
        match o
        case Some(e) => (w1, Fail(e))
        case None => StepConcat(w1.(h := w1.h.(current := Some(seg))))
      else
        var current := w.h.current.value;
        var (w1, s) := AskStep(w, current);
        match s
        case Yield(v) => (w1, Some_(v))
        case Threw(e) => (AskClose(w1, current, Some(e)).0, Fail(e))
        case Done =>
          var w2 := w1.(h := w1.h.(current := None, seg := seg + 1));
          StepConcat(w2)
  }

  // ---- next, return, throw ----

  function StepKind(w: World): (r: (World, Outcome))
    ensures Later(w, r.0)
    decreases |w.tape|, 7
  {
    match w.h.kind
    case Map => StepMap(w)
    case Filter => StepFilter(w, w.h.counter)
    case Take => StepTake(w)
    case Drop => StepDrop(w, w.h.remaining)
    case FlatMap => StepFlatMap(w, w.h.counter)
    case Zip => StepZip(w)
    case Concat => StepConcat(w)
  }

  const DONE_RESULT := Ok(Undefined, true)

  function Next(w: World): (r: (World, Result))
    ensures Later(w, r.0)
    decreases |w.tape|, 8, 0
  {
    if w.h.state == 2 then (w, DONE_RESULT)
    else if w.h.state == 1 then (w, Err(TypeErrorObject))
    else
      var (w1, o) := StepKind(SetState(w, 1));
      match o
      case Some_(v) =>
        var w2 := SetState(w1, if w.h.kind == Zip || w.h.kind == Concat then 3 else 0);
        (Emit(w2, Out(v)), Ok(v, false))
      case Exhaust => (SetState(w1, 2), DONE_RESULT)
      case Fail(e) => (SetState(w1, 2), Err(e))
  }

  function CompletionResult(c: Option<Value>): Result {
    if c.Some? then Err(c.value) else DONE_RESULT
  }

  function Return(w: World): (r: (World, Result))
    ensures Later(w, r.0)
    decreases |w.tape|, 8, 0
  {
    if w.h.state == 2 then (w, DONE_RESULT)
    else if w.h.state == 1 then (w, Err(TypeErrorObject))
    else
      match w.h.kind
      case Zip =>
        var (w1, c) := CloseOpen(SetState(w, if w.h.state == 0 then 2 else 1), w.h.open, w.h.count, None);
        (SetState(w1, 2), CompletionResult(c))
      case Concat =>
        if w.h.current.Some? then
          var (w1, c) := AskClose(SetState(w, 1), w.h.current.value, None);
          (SetState(w1, 2), CompletionResult(c))
        else (SetState(w, 2), DONE_RESULT)
      case FlatMap =>
        var w0 := SetState(w, 2);
        if w.h.inner.Some? then
          var (w1, c) := AskClose(w0, w.h.inner.value, None);
          if c.Some? then (AskClose(w1, 0, c).0, Err(c.value))
          else
            var (w2, c2) := AskClose(w1, 0, None);
            (w2, CompletionResult(c2))
        else
          var (w1, c) := AskClose(w0, 0, None);
          (w1, CompletionResult(c))
      case _ =>
        var (w1, c) := AskClose(SetState(w, 2), 0, None);
        (w1, CompletionResult(c))
  }

  function Throw(w: World, v: Value): (r: (World, Result))
    ensures Later(w, r.0)
    decreases |w.tape|, 8, 0
  {
    if w.h.state == 2 then (w, Err(v))
    else if w.h.state == 1 then (w, Err(TypeErrorObject))
    else
      match w.h.kind
      case Zip =>
        var (w1, c) := CloseOpen(SetState(w, if w.h.state == 0 then 2 else 1), w.h.open, w.h.count, Some(v));
        (SetState(w1, 2), Err(v))
      case Concat =>
        if w.h.current.Some? then
          var (w1, c) := AskClose(SetState(w, 1), w.h.current.value, Some(v));
          (SetState(w1, 2), Err(v))
        else (SetState(w, 2), Err(v))
      case FlatMap =>
        var w0 := SetState(w, 2);
        var w1 := if w.h.inner.Some? then AskClose(w0, w.h.inner.value, Some(v)).0 else w0;
        (AskClose(w1, 0, Some(v)).0, Err(v))
      case _ =>
        (AskClose(SetState(w, 2), 0, Some(v)).0, Err(v))
  }

  function Apply(w: World, op: Op): (r: (World, Result))
    ensures Later(w, r.0)
    decreases |w.tape|, 8, 1
  {
    match op
    case OpNext => Next(w)
    case OpReturn => Return(w)
    case OpThrow(v) => Throw(w, v)
  }

  /** A whole run: the consumer's operations, one after the other. */
  function Run(w: World, ops: seq<Op>): (r: World)
    decreases |ops|
  {
    if ops == [] then w else Run(Apply(w, ops[0]).0, ops[1..])
  }
}
