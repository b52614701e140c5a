/** What every run of a helper keeps: the protocol towards the underlying
    iterators, no iterator left open after completion, and the exact relation
    between what went in and what came out. */
module IteratorRuns {
  import opened Basics
  import opened IteratorMask
  import opened IteratorLog
  import opened IteratorHelper
  import opened IteratorForeign

  // ---- What came out, in terms of what went in ----

  /** The k-th callback call got the k-th element and the number k. */
  ghost predicate Aligned(calls: seq<Event>, xs: seq<Value>) {
    && |calls| <= |xs|
    && forall k :: 0 <= k < |calls| ==> calls[k].Called? && calls[k].arg == xs[k] && calls[k].counter == k
  }

  ghost predicate Answers(calls: seq<Event>, outs: seq<Value>) {
    && |outs| <= |calls|
    && forall k :: 0 <= k < |outs| ==> calls[k].Called? && calls[k].answer == Returned(outs[k])
  }

  /** The arguments of the calls that were answered with a truthy value. */
  function Kept(calls: seq<Event>): seq<Value> {
    if calls == [] then []
    else
      var c := calls[|calls| - 1];
      Kept(calls[..|calls| - 1]) +
      (if c.Called? && c.answer.Returned? && Truthy(c.answer.v) then [c.arg] else [])
  }

  function Dropped(xs: seq<Value>, n: Limit): seq<Value> {
    if n.Infinite? || |xs| <= n.n then [] else xs[n.n..]
  }

  /** What is left of a limit after `m` elements. */
  function LeftOf(n: Limit, m: nat): Limit {
    match n
    case Infinite => Infinite
    case Finite(k) => Finite(if m <= k then k - m else 0)
  }

  /** The elements of `n` consecutive iterators, one after the other. */
  function Joined(log: Log, from: nat, n: nat): seq<Value> {
    if n == 0 then [] else Joined(log, from, n - 1) + Produced(log, from + n - 1)
  }

  /** Column `i` of row `k` of zip. */
  function Cell(h: Helper, log: Log, i: nat, k: nat): Value {
    var p := Produced(log, i);
    if k < |p| then p[k] else Pad(h, i)
  }

  ghost predicate IsRow(h: Helper, log: Log, k: nat, v: Value) {
    && v.List?
    && |v.items| == h.count
    && forall i :: 0 <= i < h.count ==> v.items[i] == Cell(h, log, i, k)
  }

  ghost predicate OpenedInOrder(log: Log, from: nat) {
    forall k :: 0 <= k < |Opens(log)| ==> Opens(log)[k] == from + k
  }

  /** The relation that holds between input and output in every state.  `n` is
      the limit take and drop were created with. */
  ghost predicate Trace(h: Helper, n: Limit, log: Log, outs: seq<Value>) {
    match h.kind
    case Map => Aligned(Calls(log), Produced(log, 0)) && Answers(Calls(log), outs)
    case Filter => Aligned(Calls(log), Produced(log, 0)) && outs == Kept(Calls(log))
    case Take => outs == Produced(log, 0) && (n.Finite? ==> NextCalls(log, 0) <= n.n)
    case Drop => outs == Dropped(Produced(log, 0), n)
    case FlatMap =>
      && Aligned(Calls(log), Produced(log, 0))
      && OpenedInOrder(log, 1)
      && outs == Joined(log, 1, |Opens(log)|)
    case Zip => forall k :: 0 <= k < |outs| ==> IsRow(h, log, k, outs[k])
    case Concat =>
      && |Opens(log)| <= h.count
      && OpenedInOrder(log, 0)
      && outs == Joined(log, 0, |Opens(log)|)
      && (forall i: nat :: StatusOf(log, i) != Failed)  // a segment that threw has been closed
  }

  // ---- Slots and iterators while the helper is suspended ----

  ghost predicate Suspended(h: Helper, n: Limit, log: Log, outs: seq<Value>) {
    match h.kind
    case Map =>
      && StatusOf(log, 0) == Idle
      && |outs| == |Calls(log)| == |Produced(log, 0)| == h.counter
      && Opens(log) == []
    case Filter =>
      && StatusOf(log, 0) == Idle
      && |Calls(log)| == |Produced(log, 0)| == h.counter
      && Opens(log) == []
    case Take =>
      && StatusOf(log, 0) == Idle
      && NextCalls(log, 0) == |Produced(log, 0)|
      && h.remaining == LeftOf(n, |Produced(log, 0)|)
      && Opens(log) == []
    case Drop =>
      && StatusOf(log, 0) == Idle
      && h.remaining == LeftOf(n, |Produced(log, 0)|)
      && Opens(log) == []
    case FlatMap => FlatSuspended(h, log)
    case Zip => ZipSuspended(h, log, outs) && Opens(log) == []
    case Concat => ConcatSuspended(h, log)
  }

  ghost predicate FlatSuspended(h: Helper, log: Log) {
    && StatusOf(log, 0) == Idle
    && h.counter == |Opens(log)| == |Calls(log)| == |Produced(log, 0)|
    && (h.inner.Some? ==> h.counter > 0 && h.inner.value == h.counter && StatusOf(log, h.counter) == Idle)
    && (forall i :: 0 < i <= h.counter && h.inner != Some(i) ==> StatusOf(log, i) == Exhausted)
    && (forall i :: i > h.counter ==> StatusOf(log, i) == Idle && Produced(log, i) == [])
  }

  ghost predicate ConcatSuspended(h: Helper, log: Log) {
    && (h.current.Some? ==> h.current.value == h.seg && h.seg < h.count)
    && |Opens(log)| == h.seg + (if h.current.Some? then 1 else 0)
    && (forall i :: 0 <= i < h.seg ==> StatusOf(log, i) == Exhausted)
    && (forall i :: i >= h.seg ==> StatusOf(log, i) == Idle)
    && (forall i :: i >= |Opens(log)| ==> Produced(log, i) == [])
  }

  /** Input `i` has delivered exactly `r` elements and is open, or fewer and is
      exhausted, as the mask says. */
  ghost predicate InputAt(h: Helper, log: Log, i: nat, r: nat) {
    if BitOpen(h.open, i) then StatusOf(log, i) == Idle && |Produced(log, i)| == r
    else StatusOf(log, i) == Exhausted && |Produced(log, i)| <= r
  }

  ghost predicate ZipSuspended(h: Helper, log: Log, outs: seq<Value>) {
    && (forall i :: 0 <= i < h.count ==> InputAt(h, log, i, |outs|))
    && (h.mode != Longest ==> forall i :: 0 <= i < h.count ==> BitOpen(h.open, i))
    && (if h.count > 0 then !AllShut(h.open, h.count) else outs == [])
  }

  // ---- Completion ----

  predicate Quiet(s: Status) {
    s == Exhausted || s == Failed || s == Closed
  }

  /** How many iterators the helper was created with. */
  function Given(h: Helper): nat {
    match h.kind
    case Zip => h.count
    case Concat => 0
    case _ => 1
  }

  /** Every iterator the helper was given, and every one it opened on the way,
      is exhausted, has thrown, or has been closed. */
  ghost predicate NoLeak(h: Helper, log: Log) {
    && (forall i :: 0 <= i < Given(h) ==> Quiet(StatusOf(log, i)))
    && (forall k :: 0 <= k < |Opens(log)| ==> Quiet(StatusOf(log, Opens(log)[k])))
  }

  /** What holds in addition when the helper itself reports exhaustion. */
  ghost predicate Finished(h: Helper, n: Limit, log: Log, outs: seq<Value>) {
    match h.kind
    case Map => StatusOf(log, 0) == Exhausted && |outs| == |Calls(log)| == |Produced(log, 0)|
    case Filter => StatusOf(log, 0) == Exhausted && |Calls(log)| == |Produced(log, 0)|
    case Take =>
      || StatusOf(log, 0) == Exhausted
      || (StatusOf(log, 0) == Closed && n == Finite(|outs|) && NextCalls(log, 0) == |outs|)
    case Drop => StatusOf(log, 0) == Exhausted
    case FlatMap =>
      && StatusOf(log, 0) == Exhausted
      && |Opens(log)| == |Calls(log)| == |Produced(log, 0)|
      && forall i :: 0 < i <= |Opens(log)| ==> StatusOf(log, i) == Exhausted
    case Zip => ZipFinished(h, log, |outs|)
    case Concat =>
      && |Opens(log)| == h.count
      && forall i :: 0 <= i < h.count ==> StatusOf(log, i) == Exhausted
  }

  ghost predicate ZipFinished(h: Helper, log: Log, r: nat) {
    match h.mode
    case Shortest =>
      && (forall i :: 0 <= i < h.count ==> |Produced(log, i)| >= r)
      && (h.count > 0 ==>
          exists i :: 0 <= i < h.count && StatusOf(log, i) == Exhausted && |Produced(log, i)| == r)
    case Longest =>
      && (forall i :: 0 <= i < h.count ==> StatusOf(log, i) == Exhausted && |Produced(log, i)| <= r)
      && (r > 0 ==> exists i :: 0 <= i < h.count && |Produced(log, i)| == r)
    case Strict =>
      forall i :: 0 <= i < h.count ==> StatusOf(log, i) == Exhausted && |Produced(log, i)| == r
  }

  /** Strict zip failed although no input threw: two inputs have different
      lengths, and every input not exhausted has been closed. */
  ghost predicate ZipFailed(h: Helper, log: Log, r: nat) {
    h.mode == Strict && (forall i :: 0 <= i < h.count ==> StatusOf(log, i) != Failed) ==>
      && (exists i, j :: 0 <= i < h.count && 0 <= j < h.count &&
           StatusOf(log, i) == Exhausted && |Produced(log, i)| == r && |Produced(log, j)| > r)
      && (forall i :: 0 <= i < h.count ==> StatusOf(log, i) == Exhausted || StatusOf(log, i) == Closed)
  }

  // ---- One step ----

  predicate Lenient(h: Helper) {
    h.kind == Concat
  }

  /** zip keeps its promises as long as the mask can name every input. */
  predicate Fits(h: Helper) {
    h.kind == Zip ==> h.count <= 32
  }

  ghost predicate Ready(w: World, n: Limit) {
    && w.h.state == 1
    && Fits(w.h)
    && Legal(w.log, Lenient(w.h))
    && Trace(w.h, n, w.log, Outs(w.log))
    && Suspended(w.h, n, w.log, Outs(w.log))
  }

  ghost predicate StepOk(w: World, n: Limit, r: (World, Outcome)) {
    var w' := r.0;
    var outs := Outs(w.log);
    && w'.h.state == 1
    && Later(w, w')
    && Legal(w'.log, Lenient(w'.h))
    && Outs(w'.log) == outs
    && match r.1
       case Some_(v) => Trace(w'.h, n, w'.log, outs + [v]) && Suspended(w'.h, n, w'.log, outs + [v])
       case Exhaust => Trace(w'.h, n, w'.log, outs) && Finished(w'.h, n, w'.log, outs) && NoLeak(w'.h, w'.log)
       case Fail(_) =>
         && Trace(w'.h, n, w'.log, outs)
         && NoLeak(w'.h, w'.log)
         && (w'.h.kind == Zip ==> ZipFailed(w'.h, w'.log, |outs|))
  }

  /** A step that continues from a later world with the same output is a step. */
  lemma StepOkFrom(w: World, w': World, n: Limit, r: (World, Outcome))
    requires StepOk(w', n, r)
    requires Later(w, w') && Outs(w'.log) == Outs(w.log)
    ensures StepOk(w, n, r)
  {
    hide Trace, Suspended, Legal, Outs, Finished, NoLeak, ZipFailed;
  }

  /** The callback of map threw: the input is closed. */
  lemma MapRaised(w: World, n: Limit)
    requires Ready(w, n) && w.h.kind == Map
    requires AskStep(w, 0).1.Yield?
    requires AskCall(AskStep(w, 0).0, AskStep(w, 0).1.v, w.h.counter).1.Raised?
    ensures StepOk(w, n, StepMap(w))
  {
    hide StatusOf, Legal, Produced, NextCalls, Outs, Calls, Opens, AskStep, AskCall, AskClose, AskOpen;
    StepFacts(w, 0, false);
    var (w1, s) := AskStep(w, 0);
    CallFacts(w1, s.v, w.h.counter, false);
    var (w2, a) := AskCall(w1, s.v, w.h.counter);
    CloseFacts(w2, 0, Some(a.e), false);
  }

  /** One more call, one more value. */
  lemma MapGrows(calls: seq<Event>, xs: seq<Value>, outs: seq<Value>, v: Value, m: Value)
    requires Aligned(calls, xs) && Answers(calls, outs) && |calls| == |xs| == |outs|
    ensures
      var calls' := calls + [Called(v, |calls|, Returned(m))];
      Aligned(calls', xs + [v]) && Answers(calls', outs + [m])
  {
  }

  lemma StepMapOk(w: World, n: Limit)
    requires Ready(w, n) && w.h.kind == Map
    ensures StepOk(w, n, StepMap(w))
  {
    hide StatusOf, Legal, Produced, NextCalls, Outs, Calls, Opens, AskStep, AskCall, AskClose, AskOpen, Aligned, Answers;
    StepFacts(w, 0, false);
    var (w1, s) := AskStep(w, 0);
    if s.Yield? {
      CallFacts(w1, s.v, w.h.counter, false);
      var a := AskCall(w1, s.v, w.h.counter).1;
      if a.Raised? {
        MapRaised(w, n);
      } else {
        MapGrows(Calls(w.log), Produced(w.log, 0), Outs(w.log), s.v, a.v);
      }
    } else {
      assert Produced(w1.log, 0) == Produced(w.log, 0);
    }
  }

  lemma {:induction false} StepFilterOk(w: World, n: Limit)
    requires Ready(w, n) && w.h.kind == Filter
    ensures StepOk(w, n, StepFilter(w, w.h.counter))
    decreases |w.tape|
  {
    hide StatusOf, Legal, Produced, NextCalls, Outs, Calls, Opens, AskStep, AskCall, AskClose, AskOpen;
    var counter := w.h.counter;
    StepFacts(w, 0, false);
    var (w1, s) := AskStep(w, 0);
    if s.Yield? {
      CallFacts(w1, s.v, counter, false);
      var (w2, a) := AskCall(w1, s.v, counter);
      var calls := Calls(w.log);
      assert (calls + [Called(s.v, counter, a)])[..|calls|] == calls;
      if a.Raised? {
        CloseFacts(w2, 0, Some(a.e), false);
      } else if !Truthy(a.v) {
        StepFilterOk(w2.(h := w2.h.(counter := counter + 1)), n);
      }
    }
  }

  lemma StepTakeOk(w: World, n: Limit)
    requires Ready(w, n) && w.h.kind == Take
    ensures StepOk(w, n, StepTake(w))
  {
    hide StatusOf, Legal, Produced, NextCalls, Outs, Calls, Opens, AskStep, AskCall, AskClose, AskOpen;
    if w.h.remaining == Finite(0) {
      CloseFacts(w, 0, None, false);
    } else {
      StepFacts(w, 0, false);
    }
  }

  /** While drop skips, only the local count of what is left moves. */
  lemma {:induction false} StepDropOk(w: World, n: Limit, remaining: Limit)
    requires w.h.state == 1 && w.h.kind == Drop && Legal(w.log, false)
    requires StatusOf(w.log, 0) == Idle && Opens(w.log) == []
    requires remaining == LeftOf(n, |Produced(w.log, 0)|)
    requires Outs(w.log) == Dropped(Produced(w.log, 0), n)
    ensures StepOk(w, n, StepDrop(w, remaining))
    decreases |w.tape|
  {
    hide StatusOf, Legal, Produced, NextCalls, Outs, Calls, Opens, AskStep, AskCall, AskClose, AskOpen;
    if remaining != Finite(0) {
      StepFacts(w, 0, false);
      var (w1, s) := AskStep(w, 0);
      if s.Yield? {
        StepDropOk(w1, n, Less(remaining));
      }
    } else {
      StepFacts(w.(h := w.h.(remaining := Finite(0))), 0, false);
    }
  }

  // ---- flatMap ----

  /** The joined elements depend only on what the joined iterators produced. */
  lemma {:induction false} JoinedSame(l: Log, l': Log, from: nat, n: nat)
    requires forall i :: from <= i < from + n ==> Produced(l', i) == Produced(l, i)
    ensures Joined(l', from, n) == Joined(l, from, n)
  {
    hide Produced;
    if n > 0 {
      JoinedSame(l, l', from, n - 1);
    }
  }

  /** One more element of the last iterator is one more element of the whole. */
  lemma JoinedGrows(l: Log, l': Log, from: nat, n: nat, v: Value)
    requires n > 0
    requires forall i :: from <= i < from + n - 1 ==> Produced(l', i) == Produced(l, i)
    requires Produced(l', from + n - 1) == Produced(l, from + n - 1) + [v]
    ensures Joined(l', from, n) == Joined(l, from, n) + [v]
  {
    hide StatusOf, Legal, Produced, NextCalls, Outs, Calls, Opens, AskStep, AskCall, AskClose, AskOpen;
    JoinedSame(l, l', from, n - 1);
  }

  lemma FlatInner(w: World, n: Limit)
    requires Ready(w, n) && w.h.kind == FlatMap && w.h.inner.Some?
    ensures
      var (w1, s) := AskStep(w, w.h.inner.value);
      match s
      case Yield(v) => StepOk(w, n, (w1, Some_(v)))
      case Done => Ready(w1.(h := w1.h.(inner := None)), n) && Outs(w1.log) == Outs(w.log) && w1.h == w.h
      case Threw(e) => StepOk(w, n, (AskClose(w1, 0, Some(e)).0, Fail(e)))
  {
    hide StatusOf, Legal, Produced, NextCalls, Outs, Calls, Opens, AskStep, AskCall, AskClose, AskOpen;
    var it := w.h.inner.value;
    StepFacts(w, it, false);
    var (w1, s) := AskStep(w, it);
    match s
    case Yield(v) => JoinedGrows(w.log, w1.log, 1, |Opens(w.log)|, v);
    case Done => JoinedSame(w.log, w1.log, 1, |Opens(w.log)|);
    case Threw(e) =>
      CloseFacts(w1, 0, Some(e), false);
      JoinedSame(w.log, AskClose(w1, 0, Some(e)).0.log, 1, |Opens(w.log)|);
  }

  /** The mapper threw, or its result could not be opened: the outer iterator
      is closed. */
  lemma FlatAbort(w: World, n: Limit, w2: World, e: Value)
    requires Ready(w, n) && w.h.kind == FlatMap && w.h.inner.None?
    requires w2.h == w.h && |w2.tape| <= |w.tape| && Legal(w2.log, false)
    requires StatusOf(w2.log, 0) == Idle
    requires forall i: nat :: i > 0 ==> StatusOf(w2.log, i) == StatusOf(w.log, i) && Produced(w2.log, i) == Produced(w.log, i)
    requires Aligned(Calls(w2.log), Produced(w2.log, 0))
    requires Outs(w2.log) == Outs(w.log) && Opens(w2.log) == Opens(w.log)
    ensures StepOk(w, n, (AskClose(w2, 0, Some(e)).0, Fail(e)))
  {
    hide StatusOf, Legal, Produced, NextCalls, Outs, Calls, Opens, AskStep, AskCall, AskClose, AskOpen;
    CloseFacts(w2, 0, Some(e), false);
    JoinedSame(w.log, AskClose(w2, 0, Some(e)).0.log, 1, |Opens(w.log)|);
  }

  lemma FlatOuter(w: World, n: Limit)
    requires Ready(w, n) && w.h.kind == FlatMap && w.h.inner.None?
    ensures
      var counter := w.h.counter;
      var (w1, s) := AskStep(w, 0);
      match s
      case Done => StepOk(w, n, (w1, Exhaust))
      case Threw(e) => StepOk(w, n, (w1, Fail(e)))
      case Yield(v) =>
        var (w2, a) := AskCall(w1, v, counter);
        match a
        case Raised(e) => StepOk(w, n, (AskClose(w2, 0, Some(e)).0, Fail(e)))
        case Returned(_) =>
          var (w3, o) := AskOpen(w2, counter + 1);
          match o
          case Some(e) => StepOk(w, n, (AskClose(w3, 0, Some(e)).0, Fail(e)))
          case None =>
            var w4 := w3.(h := w3.h.(counter := counter + 1, inner := Some(counter + 1)));
            Ready(w4, n) && Outs(w4.log) == Outs(w.log)
  {
    hide StatusOf, Legal, Produced, NextCalls, Outs, Calls, Opens, AskStep, AskCall, AskClose, AskOpen;
    var counter := w.h.counter;
    StepFacts(w, 0, false);
    var (w1, s) := AskStep(w, 0);
    match s
    case Done => JoinedSame(w.log, w1.log, 1, |Opens(w.log)|);
    case Threw(e) => JoinedSame(w.log, w1.log, 1, |Opens(w.log)|);
    case Yield(v) =>
      CallFacts(w1, v, counter, false);
      var (w2, a) := AskCall(w1, v, counter);
      if a.Raised? {
        FlatAbort(w, n, w2, a.e);
      } else {
        OpenFacts(w2, counter + 1, false);
        var (w3, o) := AskOpen(w2, counter + 1);
        if o.Some? {
          FlatAbort(w, n, w3, o.value);
        } else {
          FlatOpened(w, n, w3.(h := w3.h.(counter := counter + 1, inner := Some(counter + 1))));
        }
      }
  }

  lemma {:induction false} StepFlatMapOk(w: World, n: Limit)
    requires Ready(w, n) && w.h.kind == FlatMap
    ensures StepOk(w, n, StepFlatMap(w, w.h.counter))
    decreases |w.tape|, if w.h.inner.Some? then 1 else 0
  {
    hide StatusOf, Legal, Produced, NextCalls, Outs, Calls, Opens, AskStep, AskCall, AskClose, AskOpen, StepOk, Trace, Suspended;
    var counter := w.h.counter;
    if w.h.inner.Some? {
      FlatInner(w, n);
      var (w1, s) := AskStep(w, w.h.inner.value);
      if s.Done? {
        var w2 := w1.(h := w1.h.(inner := None));
        StepFlatMapOk(w2, n);
        StepOkFrom(w, w2, n, StepFlatMap(w2, counter));
      }
    } else {
      FlatOuter(w, n);
      var (w1, s) := AskStep(w, 0);
      if s.Yield? {
        var (w2, a) := AskCall(w1, s.v, counter);
        var (w3, o) := AskOpen(w2, counter + 1);
        if a.Returned? && o.None? {
          var w4 := w3.(h := w3.h.(counter := counter + 1, inner := Some(counter + 1)));
          StepFlatMapOk(w4, n);
          StepOkFrom(w, w4, n, StepFlatMap(w4, counter + 1));
        }
      }
    }
  }

  lemma FlatOpened(w: World, n: Limit, w4: World)
    requires Ready(w, n) && w.h.kind == FlatMap && w.h.inner.None?
    requires w4.h == w.h.(counter := w.h.counter + 1, inner := Some(w.h.counter + 1))
    requires Legal(w4.log, false)
    requires forall i: nat :: StatusOf(w4.log, i) == StatusOf(w.log, i)
    requires forall i: nat :: i > 0 ==> Produced(w4.log, i) == Produced(w.log, i)
    requires |Calls(w4.log)| == |Produced(w4.log, 0)| == w.h.counter + 1
    requires Aligned(Calls(w4.log), Produced(w4.log, 0))
    requires Opens(w4.log) == Opens(w.log) + [w.h.counter + 1]
    requires Outs(w4.log) == Outs(w.log)
    ensures Ready(w4, n)
  {
    hide StatusOf, Legal, Produced, NextCalls, Outs, Calls, Opens, AskStep, AskCall, AskClose, AskOpen;
    JoinedSame(w.log, w4.log, 1, |Opens(w.log)|);
    assert Joined(w4.log, 1, |Opens(w4.log)|) == Joined(w4.log, 1, |Opens(w.log)|) + Produced(w4.log, w.h.counter + 1);
  }

  // ---- concat ----

  lemma ConcatOpening(w: World, n: Limit)
    requires Ready(w, n) && w.h.kind == Concat && w.h.seg < w.h.count && w.h.current.None?
    ensures
      var (w1, o) := AskOpen(w, w.h.seg);
      match o
      case Some(e) => StepOk(w, n, (w1, Fail(e)))
      case None => Ready(w1.(h := w1.h.(current := Some(w.h.seg))), n) && Outs(w1.log) == Outs(w.log)
  {
    hide StatusOf, Legal, Produced, NextCalls, Outs, Calls, Opens, AskStep, AskCall, AskClose, AskOpen;
    var seg := w.h.seg;
    OpenFacts(w, seg, true);
    var (w1, o) := AskOpen(w, seg);
    JoinedSame(w.log, w1.log, 0, |Opens(w.log)|);
    if o.None? {
      assert Joined(w1.log, 0, seg + 1) == Joined(w1.log, 0, seg) + Produced(w1.log, seg);
    }
  }

  lemma ConcatPulling(w: World, n: Limit)
    requires Ready(w, n) && w.h.kind == Concat && w.h.seg < w.h.count && w.h.current.Some?
    ensures
      var (w1, s) := AskStep(w, w.h.seg);
      match s
      case Yield(v) => StepOk(w, n, (w1, Some_(v)))
      case Threw(e) => StepOk(w, n, (AskClose(w1, w.h.seg, Some(e)).0, Fail(e)))
      case Done =>
        && Ready(w1.(h := w1.h.(current := None, seg := w.h.seg + 1)), n)
        && Outs(w1.log) == Outs(w.log)
  {
    hide StatusOf, Legal, Produced, NextCalls, Outs, Calls, Opens, AskStep, AskCall, AskClose, AskOpen;
    var seg := w.h.seg;
    StepFacts(w, seg, true);
    var (w1, s) := AskStep(w, seg);
    match s
    case Yield(v) => JoinedGrows(w.log, w1.log, 0, |Opens(w.log)|, v);
    case Threw(e) =>
      CloseFacts(w1, seg, Some(e), true);
      JoinedSame(w.log, AskClose(w1, seg, Some(e)).0.log, 0, |Opens(w.log)|);
    case Done => JoinedSame(w.log, w1.log, 0, |Opens(w.log)|);
  }

  lemma {:induction false} StepConcatOk(w: World, n: Limit)
    requires Ready(w, n) && w.h.kind == Concat
    ensures StepOk(w, n, StepConcat(w))
    decreases |w.tape|, if w.h.seg < w.h.count then w.h.count - w.h.seg else 0
  {
    hide StatusOf, Legal, Produced, NextCalls, Outs, Calls, Opens, AskStep, AskCall, AskClose, AskOpen, Joined;
    var seg := w.h.seg;
    if seg < w.h.count {
      if w.h.current.None? {
        ConcatOpening(w, n);
        var (w1, o) := AskOpen(w, seg);
        if o.None? {
          var w2 := w1.(h := w1.h.(current := Some(seg)));
          StepConcatOk(w2, n);
          StepOkFrom(w, w2, n, StepConcat(w2));
        }
      } else {
        ConcatPulling(w, n);
        var (w1, s) := AskStep(w, seg);
        if s.Done? {
          var w2 := w1.(h := w1.h.(current := None, seg := seg + 1));
          StepConcatOk(w2, n);
          StepOkFrom(w, w2, n, StepConcat(w2));
        }
      }
    }
  }
}
