/** Foreign code never gets in between: whenever a helper calls out, its state
    slot already rejects or short-circuits every re-entrant operation.  From
    this each foreign call has a simple effect on the log. */
module IteratorForeign {
  import opened Basics
  import opened IteratorLog
  import opened IteratorHelper

  /** Executing or completed: the states in which a helper calls foreign code. */
  predicate Guarded(w: World) {
    w.h.state == 1 || w.h.state == 2
  }

  /** Re-entrant operations on a guarded helper change nothing at all: they make
      no foreign call, write no slot and take nothing from the tape. */
  lemma {:induction false} ReentryIsInert(w: World, ops: seq<Op>)
    requires Guarded(w)
    ensures Reenter(w, ops) == w
    decreases |ops|
  {
    if ops != [] {
      assert Apply(w, ops[0]).0 == w;
      ReentryIsInert(w, ops[1..]);
    }
  }

  /** Everything about the log that an interaction with no visible trace keeps. */
  ghost predicate SameTrace(l: Log, l': Log) {
    && Outs(l') == Outs(l)
    && Calls(l') == Calls(l)
    && Opens(l') == Opens(l)
  }

  ghost predicate StepEffect(l: Log, l': Log, it: nat, r: StepResult, lenient: bool) {
    && (Legal(l', lenient) <==> Legal(l, lenient) && StatusOf(l, it) == Idle)
    && (forall i: nat :: StatusOf(l', i) == if i == it then StatusAfterStep(r) else StatusOf(l, i))
    && (forall i: nat :: Produced(l', i) == Produced(l, i) + (if i == it && r.Yield? then [r.v] else []))
    && (forall i: nat :: NextCalls(l', i) == NextCalls(l, i) + (if i == it then 1 else 0))
    && SameTrace(l, l')
  }

  ghost predicate CloseEffect(l: Log, l': Log, it: nat, lenient: bool) {
    && (Legal(l', lenient) <==>
        Legal(l, lenient) && (StatusOf(l, it) == Idle || (lenient && StatusOf(l, it) == Failed)))
    && (forall i: nat :: StatusOf(l', i) == if i == it then Closed else StatusOf(l, i))
    && (forall i: nat :: Produced(l', i) == Produced(l, i))
    && (forall i: nat :: NextCalls(l', i) == NextCalls(l, i))
    && SameTrace(l, l')
  }

  ghost predicate SameIterators(l: Log, l': Log, lenient: bool) {
    && (Legal(l', lenient) <==> Legal(l, lenient))
    && (forall i: nat :: StatusOf(l', i) == StatusOf(l, i))
    && (forall i: nat :: Produced(l', i) == Produced(l, i))
    && (forall i: nat :: NextCalls(l', i) == NextCalls(l, i))
    && Outs(l') == Outs(l)
  }

  lemma StepShape(w: World, it: nat)
    requires Guarded(w)
    ensures AskStep(w, it).0.h == w.h
    ensures AskStep(w, it).0.log == (w.log + [NextBegin(it)]) + [NextEnd(it, AskStep(w, it).1)]
  {
    if w.tape != [] {
      ReentryIsInert(Emit(w, NextBegin(it)).(tape := w.tape[1..]), w.tape[0].reenter);
    }
  }

  lemma StepOnLog(l: Log, it: nat, r: StepResult, lenient: bool)
    ensures StepEffect(l, (l + [NextBegin(it)]) + [NextEnd(it, r)], it, r, lenient)
  {
    var l1 := l + [NextBegin(it)];
    Snoc(l, NextBegin(it), lenient);
    Snoc(l1, NextEnd(it, r), lenient);
  }

  lemma StepFacts(w: World, it: nat, lenient: bool)
    requires Guarded(w)
    ensures AskStep(w, it).0.h == w.h
    ensures StepEffect(w.log, AskStep(w, it).0.log, it, AskStep(w, it).1, lenient)
  {
    StepShape(w, it);
    StepOnLog(w.log, it, AskStep(w, it).1, lenient);
  }

  /** What `return` will answer if it is called now. */
  function NextAnswer(w: World): CloseAnswer {
    if w.tape == [] then NoMethod else w.tape[0].close
  }

  lemma CloseShape(w: World, it: nat, completion: Option<Value>)
    requires Guarded(w)
    ensures AskClose(w, it, completion).0.h == w.h
    ensures AskClose(w, it, completion).0.log == (w.log + [CloseBegin(it)]) + [CloseEnd(it, NextAnswer(w))]
    ensures completion.Some? ==> AskClose(w, it, completion).1 == completion
    ensures completion.None? ==> AskClose(w, it, completion).1 == ErrorIn(CloseEnd(it, NextAnswer(w)))
  {
    if w.tape != [] {
      ReentryIsInert(Emit(w, CloseBegin(it)).(tape := w.tape[1..]), w.tape[0].reenter);
    }
  }

  lemma CloseOnLog(l: Log, it: nat, a: CloseAnswer, lenient: bool)
    ensures CloseEffect(l, (l + [CloseBegin(it)]) + [CloseEnd(it, a)], it, lenient)
  {
    Snoc(l, CloseBegin(it), lenient);
    Snoc(l + [CloseBegin(it)], CloseEnd(it, a), lenient);
  }

  lemma CloseFacts(w: World, it: nat, completion: Option<Value>, lenient: bool)
    requires Guarded(w)
    ensures AskClose(w, it, completion).0.h == w.h
    ensures CloseEffect(w.log, AskClose(w, it, completion).0.log, it, lenient)
    ensures completion.Some? ==> AskClose(w, it, completion).1 == completion
  {
    CloseShape(w, it, completion);
    CloseOnLog(w.log, it, NextAnswer(w), lenient);
  }

  lemma CallFacts(w: World, arg: Value, counter: nat, lenient: bool)
    requires Guarded(w)
    ensures AskCall(w, arg, counter).0.h == w.h
    ensures SameIterators(w.log, AskCall(w, arg, counter).0.log, lenient)
    ensures Calls(AskCall(w, arg, counter).0.log) == Calls(w.log) + [Called(arg, counter, AskCall(w, arg, counter).1)]
    ensures Opens(AskCall(w, arg, counter).0.log) == Opens(w.log)
  {
    if w.tape != [] {
      ReentryIsInert(w.(tape := w.tape[1..]), w.tape[0].reenter);
    }
    Snoc(w.log, Called(arg, counter, AskCall(w, arg, counter).1), lenient);
  }

  lemma OpenFacts(w: World, it: nat, lenient: bool)
    requires Guarded(w)
    ensures AskOpen(w, it).0.h == w.h
    ensures SameIterators(w.log, AskOpen(w, it).0.log, lenient)
    ensures Calls(AskOpen(w, it).0.log) == Calls(w.log)
    ensures Opens(AskOpen(w, it).0.log) == Opens(w.log) + (if AskOpen(w, it).1.None? then [it] else [])
  {
    if w.tape != [] {
      ReentryIsInert(w.(tape := w.tape[1..]), w.tape[0].reenter);
    }
    var o := AskOpen(w, it).1;
    Snoc(w.log, if o.None? then Opened(it) else NotOpened(it, o.value), lenient);
  }

  lemma OutFacts(w: World, v: Value, lenient: bool)
    ensures var l' := Emit(w, Out(v)).log;
      && (Legal(l', lenient) <==> Legal(w.log, lenient))
      && (forall i: nat :: StatusOf(l', i) == StatusOf(w.log, i))
      && (forall i: nat :: Produced(l', i) == Produced(w.log, i))
      && (forall i: nat :: NextCalls(l', i) == NextCalls(w.log, i))
      && Outs(l') == Outs(w.log) + [v]
      && Calls(l') == Calls(w.log)
      && Opens(l') == Opens(w.log)
  {
    Snoc(w.log, Out(v), lenient);
  }
}
