/** Draining a helper over finite inputs is the list function of its kind. */
module IteratorLists {
  import opened Basics
  import opened IteratorLog
  import opened IteratorHelper
  import opened IteratorRuns
  import opened IteratorTheorems

  /** Iterator `i` has been walking along the list `xs`. */
  ghost predicate Walks(log: Log, i: nat, xs: seq<Value>) {
    && Produced(log, i) <= xs
    && (StatusOf(log, i) == Exhausted ==> Produced(log, i) == xs)
  }

  /** All callback answers came from the function `f` of element and count. */
  ghost predicate AnsweredBy(log: Log, f: (Value, nat) -> Value) {
    forall k :: 0 <= k < |Calls(log)| && Calls(log)[k].Called? ==>
      Calls(log)[k].answer == Returned(f(Calls(log)[k].arg, Calls(log)[k].counter))
  }

  /** This `next` is the one with which the helper reports exhaustion. */
  ghost predicate Drains(w: World, n: Limit) {
    Inv(w, n) && w.h.state != 2 && Next(w).1 == DONE_RESULT
  }

  function Filtered(xs: seq<Value>, f: (Value, nat) -> Value): seq<Value> {
    if xs == [] then []
    else
      var k := |xs| - 1;
      Filtered(xs[..k], f) + (if Truthy(f(xs[k], k)) then [xs[k]] else [])
  }

  function Flatten(xss: seq<seq<Value>>): seq<Value> {
    if xss == [] then [] else Flatten(xss[..|xss| - 1]) + xss[|xss| - 1]
  }

  /** What the relations of `IteratorRuns` say at the end of a drain. */
  lemma DrainFacts(w: World, n: Limit)
    requires Drains(w, n)
    ensures
      var w' := Next(w).0;
      && Later(w, w')
      && Trace(w'.h, n, w'.log, Outs(w'.log))
      && Finished(w'.h, n, w'.log, Outs(w'.log))
  {
    hide Next, Trace, Finished, Suspended, Legal, NoLeak;
    NextInv(w, n);
  }

  lemma MapDrained(w: World, n: Limit, xs: seq<Value>, f: (Value, nat) -> Value)
    requires Drains(w, n) && w.h.kind == Map
    requires Walks(Next(w).0.log, 0, xs) && AnsweredBy(Next(w).0.log, f)
    ensures Outs(Next(w).0.log) == seq(|xs|, k requires 0 <= k < |xs| => f(xs[k], k))
  {
    hide Next, StatusOf, Produced, Outs, Calls, Inv;
    DrainFacts(w, n);
    var log := Next(w).0.log;
    forall k | 0 <= k < |xs|
      ensures Outs(log)[k] == f(xs[k], k)
    {
      assert Calls(log)[k].answer == Returned(f(Calls(log)[k].arg, Calls(log)[k].counter));
    }
  }

  lemma {:induction false} KeptIsFiltered(calls: seq<Event>, xs: seq<Value>, f: (Value, nat) -> Value)
    requires |calls| == |xs| && Aligned(calls, xs)
    requires forall k :: 0 <= k < |calls| ==> calls[k].answer == Returned(f(calls[k].arg, calls[k].counter))
    ensures Kept(calls) == Filtered(xs, f)
  {
    if calls != [] {
      var k := |calls| - 1;
      KeptIsFiltered(calls[..k], xs[..k], f);
    }
  }

  lemma FilterDrained(w: World, n: Limit, xs: seq<Value>, f: (Value, nat) -> Value)
    requires Drains(w, n) && w.h.kind == Filter
    requires Walks(Next(w).0.log, 0, xs) && AnsweredBy(Next(w).0.log, f)
    ensures Outs(Next(w).0.log) == Filtered(xs, f)
  {
    hide Next, StatusOf, Produced, Outs, Calls, Inv, Kept, Filtered;
    DrainFacts(w, n);
    KeptIsFiltered(Calls(Next(w).0.log), xs, f);
  }

  /** take(n): the first n elements, asking for no more than n. */
  lemma TakeDrained(w: World, n: Limit, xs: seq<Value>)
    requires Drains(w, n) && w.h.kind == Take && Walks(Next(w).0.log, 0, xs)
    ensures Outs(Next(w).0.log) == if n.Finite? && n.n <= |xs| then xs[..n.n] else xs
    ensures n.Finite? ==> NextCalls(Next(w).0.log, 0) <= n.n
  {
    hide Next, StatusOf, Produced, Outs, Calls, Inv, NextCalls;
    DrainFacts(w, n);
    TakeProducesWhatItAskedFor(w, n);
  }

  lemma {:induction false} ProducedAtMostAsked(log: Log, i: nat)
    requires Legal(log, false)
    ensures |Produced(log, i)| + (if StatusOf(log, i) == Stepping then 1 else 0) <= NextCalls(log, i)
  {
    if log != [] {
      ProducedAtMostAsked(log[..|log| - 1], i);
    }
  }

  lemma TakeProducesWhatItAskedFor(w: World, n: Limit)
    requires Drains(w, n) && w.h.kind == Take
    ensures |Produced(Next(w).0.log, 0)| <= NextCalls(Next(w).0.log, 0)
  {
    hide Next, StatusOf, Produced, Outs, Calls, NextCalls, Legal, Trace, Finished, Suspended, NoLeak;
    NextInv(w, n);
    ProducedAtMostAsked(Next(w).0.log, 0);
  }

  lemma DropDrained(w: World, n: Limit, xs: seq<Value>)
    requires Drains(w, n) && w.h.kind == Drop && Walks(Next(w).0.log, 0, xs)
    ensures Outs(Next(w).0.log) == if n.Finite? && n.n <= |xs| then xs[n.n..] else []
  {
    hide Next, StatusOf, Produced, Outs, Calls, Inv;
    DrainFacts(w, n);
  }

  lemma {:induction false} JoinedIsFlatten(log: Log, from: nat, xss: seq<seq<Value>>)
    requires forall k :: 0 <= k < |xss| ==> Produced(log, from + k) == xss[k]
    ensures Joined(log, from, |xss|) == Flatten(xss)
  {
    hide Produced;
    if xss != [] {
      JoinedIsFlatten(log, from, xss[..|xss| - 1]);
    }
  }

  /** flatMap: one inner list per outer element, all one after the other. */
  lemma FlatMapDrained(w: World, n: Limit, xs: seq<Value>, xss: seq<seq<Value>>)
    requires Drains(w, n) && w.h.kind == FlatMap && |xss| == |xs|
    requires Walks(Next(w).0.log, 0, xs)
    requires forall k :: 0 <= k < |xss| ==> Walks(Next(w).0.log, k + 1, xss[k])
    ensures Outs(Next(w).0.log) == Flatten(xss)
    ensures Aligned(Calls(Next(w).0.log), xs) && |Calls(Next(w).0.log)| == |xs|
  {
    hide Next, StatusOf, Produced, Outs, Calls, Inv, Opens, Joined, Flatten;
    DrainFacts(w, n);
    var log := Next(w).0.log;
    forall k | 0 <= k < |xss|
      ensures Produced(log, 1 + k) == xss[k]
    {
      assert Walks(log, k + 1, xss[k]);
    }
    JoinedIsFlatten(log, 1, xss);
  }

  /** concat: all segments one after the other, each opened once, in order. */
  lemma ConcatDrained(w: World, n: Limit, xss: seq<seq<Value>>)
    requires Drains(w, n) && w.h.kind == Concat && |xss| == w.h.count
    requires forall k :: 0 <= k < |xss| ==> Walks(Next(w).0.log, k, xss[k])
    ensures Outs(Next(w).0.log) == Flatten(xss)
    ensures Opens(Next(w).0.log) == seq(w.h.count, k => k)
  {
    hide Next, StatusOf, Produced, Outs, Calls, Inv, Opens, Joined, Flatten;
    DrainFacts(w, n);
    var log := Next(w).0.log;
    forall k | 0 <= k < |xss|
      ensures Produced(log, 0 + k) == xss[k]
    {
      assert Walks(log, k, xss[k]);
    }
    JoinedIsFlatten(log, 0, xss);
  }

  // ---- zip ----

  ghost predicate AllWalk(log: Log, xss: seq<seq<Value>>) {
    forall i :: 0 <= i < |xss| ==> Walks(log, i, xss[i])
  }

  ghost predicate IsShortest(xss: seq<seq<Value>>, m: nat) {
    && (forall i :: 0 <= i < |xss| ==> m <= |xss[i]|)
    && exists i :: 0 <= i < |xss| && |xss[i]| == m
  }

  ghost predicate IsLongest(xss: seq<seq<Value>>, m: nat) {
    && (forall i :: 0 <= i < |xss| ==> |xss[i]| <= m)
    && exists i :: 0 <= i < |xss| && |xss[i]| == m
  }

  ghost predicate AllSameLength(xss: seq<seq<Value>>) {
    forall i, j :: 0 <= i < |xss| && 0 <= j < |xss| ==> |xss[i]| == |xss[j]|
  }

  /** Row `k` of the table whose columns are `xss`, padded from the helper. */
  ghost predicate RowOf(h: Helper, xss: seq<seq<Value>>, k: nat, v: Value) {
    && v.List? && |v.items| == |xss|
    && forall i :: 0 <= i < |xss| ==>
         v.items[i] ==
         if k < |xss[i]| then xss[i][k]
         else if h.padding.Some? && i < |h.padding.value| then h.padding.value[i]
         else Undefined
  }

  lemma RowsOfLists(h: Helper, log: Log, xss: seq<seq<Value>>, outs: seq<Value>)
    requires |xss| == h.count && AllWalk(log, xss)
    requires forall i :: 0 <= i < h.count ==> |Produced(log, i)| >= |outs| || StatusOf(log, i) == Exhausted
    requires forall k :: 0 <= k < |outs| ==> IsRow(h, log, k, outs[k])
    ensures forall k :: 0 <= k < |outs| ==> RowOf(h, xss, k, outs[k])
  {
    hide StatusOf, Produced;
    forall k | 0 <= k < |outs|
      ensures RowOf(h, xss, k, outs[k])
    {
      assert IsRow(h, log, k, outs[k]);
      forall i | 0 <= i < |xss|
        ensures outs[k].items[i] == if k < |xss[i]| then xss[i][k] else Pad(h, i)
      {
        assert Walks(log, i, xss[i]);
      }
    }
  }

  /** shortest: the rows up to the length of the shortest list. */
  lemma ShortestDrained(w: World, n: Limit, xss: seq<seq<Value>>)
    requires Drains(w, n) && w.h.kind == Zip && w.h.mode == Shortest
    requires |xss| == w.h.count > 0 && AllWalk(Next(w).0.log, xss)
    ensures
      var outs := Outs(Next(w).0.log);
      IsShortest(xss, |outs|) && forall k :: 0 <= k < |outs| ==> RowOf(w.h, xss, k, outs[k])
  {
    hide Next, StatusOf, Produced, Outs, Calls, Inv, IsRow;
    DrainFacts(w, n);
    var w' := Next(w).0;
    RowsOfLists(w'.h, w'.log, xss, Outs(w'.log));
    assert forall i :: 0 <= i < |xss| ==> Walks(w'.log, i, xss[i]);
    SamePads(w.h, w'.h, xss, Outs(w'.log));
    var i :| 0 <= i < w'.h.count && StatusOf(w'.log, i) == Exhausted && |Produced(w'.log, i)| == |Outs(w'.log)|;
    assert |xss[i]| == |Outs(w'.log)|;
  }

  lemma SamePads(h: Helper, h': Helper, xss: seq<seq<Value>>, outs: seq<Value>)
    requires h'.padding == h.padding
    requires forall k :: 0 <= k < |outs| ==> RowOf(h', xss, k, outs[k])
    ensures forall k :: 0 <= k < |outs| ==> RowOf(h, xss, k, outs[k])
  {
  }

  /** longest: the rows up to the length of the longest list, short lists padded. */
  lemma LongestDrained(w: World, n: Limit, xss: seq<seq<Value>>)
    requires Drains(w, n) && w.h.kind == Zip && w.h.mode == Longest
    requires |xss| == w.h.count > 0 && AllWalk(Next(w).0.log, xss)
    ensures
      var outs := Outs(Next(w).0.log);
      IsLongest(xss, |outs|) && forall k :: 0 <= k < |outs| ==> RowOf(w.h, xss, k, outs[k])
  {
    hide Next, StatusOf, Produced, Outs, Calls, Inv, IsRow;
    DrainFacts(w, n);
    var w' := Next(w).0;
    RowsOfLists(w'.h, w'.log, xss, Outs(w'.log));
    assert forall i :: 0 <= i < |xss| ==> Walks(w'.log, i, xss[i]);
    SamePads(w.h, w'.h, xss, Outs(w'.log));
    if |Outs(w'.log)| == 0 {
      assert |xss[0]| == 0;
    } else {
      var i :| 0 <= i < w'.h.count && |Produced(w'.log, i)| == |Outs(w'.log)|;
      assert |xss[i]| == |Outs(w'.log)|;
    }
  }

  /** strict: exhaustion means all lists have one length, and all rows came out. */
  lemma StrictDrained(w: World, n: Limit, xss: seq<seq<Value>>)
    requires Drains(w, n) && w.h.kind == Zip && w.h.mode == Strict
    requires |xss| == w.h.count && AllWalk(Next(w).0.log, xss)
    ensures
      var outs := Outs(Next(w).0.log);
      && (forall i :: 0 <= i < |xss| ==> |xss[i]| == |outs|)
      && AllSameLength(xss)
      && forall k :: 0 <= k < |outs| ==> RowOf(w.h, xss, k, outs[k])
  {
    hide Next, StatusOf, Produced, Outs, Calls, Inv, IsRow;
    DrainFacts(w, n);
    var w' := Next(w).0;
    RowsOfLists(w'.h, w'.log, xss, Outs(w'.log));
    assert forall i :: 0 <= i < |xss| ==> Walks(w'.log, i, xss[i]);
    SamePads(w.h, w'.h, xss, Outs(w'.log));
  }

  /** strict: an error although no input threw means two lists differ in length;
      by then every input is exhausted or has been closed. */
  lemma StrictMismatch(w: World, n: Limit, xss: seq<seq<Value>>)
    requires Inv(w, n) && w.h.state != 2 && Next(w).1.Err? && w.h.kind == Zip && w.h.mode == Strict
    requires |xss| == w.h.count && AllWalk(Next(w).0.log, xss)
    requires forall i :: 0 <= i < w.h.count ==> StatusOf(Next(w).0.log, i) != Failed
    ensures !AllSameLength(xss)
    ensures forall i :: 0 <= i < w.h.count ==> StatusOf(Next(w).0.log, i) in {Exhausted, Closed}
  {
    hide Next, StatusOf, Produced, Outs, Calls, Inv, IsRow;
    NextInv(w, n);
    var w' := Next(w).0;
    assert ZipFailed(w'.h, w'.log, |Outs(w'.log)|);
    var i, j :| 0 <= i < w'.h.count && 0 <= j < w'.h.count &&
      StatusOf(w'.log, i) == Exhausted && |Produced(w'.log, i)| == |Outs(w'.log)| &&
      |Produced(w'.log, j)| > |Outs(w'.log)|;
    assert Walks(w'.log, i, xss[i]) && Walks(w'.log, j, xss[j]);
  }

  /** strict: the `next` that completes the helper reports exhaustion, rather
      than an error, exactly when all lists have one length. */
  lemma StrictDoneIff(w: World, n: Limit, xss: seq<seq<Value>>)
    requires Inv(w, n) && w.h.state != 2 && Next(w).0.h.state == 2 && w.h.kind == Zip && w.h.mode == Strict
    requires |xss| == w.h.count && AllWalk(Next(w).0.log, xss)
    requires forall i :: 0 <= i < w.h.count ==> StatusOf(Next(w).0.log, i) != Failed
    ensures Next(w).1 == DONE_RESULT <==> AllSameLength(xss)
    ensures Next(w).1 != DONE_RESULT ==> Next(w).1.Err?
  {
    hide AllWalk, StatusOf, AllSameLength, StepKind;
    if Next(w).1 == DONE_RESULT {
      StrictDrained(w, n, xss);
    } else {
      InvState(w, n);
      StrictMismatch(w, n, xss);
    }
  }

  // ---- concat and iterators that throw ----

  function Throwing(e: Value): seq<Reaction> {
    [Reaction([], Done, NoMethod, Returned(Undefined), OpenOk),
     Reaction([], Threw(e), NoMethod, Returned(Undefined), OpenOk)]
  }

  /** One segment that opens and then throws: `return` is called on it. */
  lemma ConcatClosesThrower(n: Limit, mode: Mode, padding: Option<seq<Value>>, e: Value)
    ensures
      var log := Run(Start(Fresh(Concat, n, 1, mode, padding), Throwing(e)), [OpNext]).log;
      && log == [Opened(0), NextBegin(0), NextEnd(0, Threw(e)), CloseBegin(0), CloseEnd(0, NoMethod)]
      && !NoReturnAfterThrow(log)
  {
    var w := Start(Fresh(Concat, n, 1, mode, padding), Throwing(e));
    var w0 := SetState(w, 1);
    var w1 := AskOpen(w0, 0).0;
    assert Reenter(w0.(tape := w0.tape[1..]), []) == w0.(tape := w0.tape[1..]);
    assert w0.log + [Opened(0)] == [Opened(0)];
    assert w1 == World(w0.h, Throwing(e)[1..], [Opened(0)]);
    var w2 := w1.(h := w1.h.(current := Some(0)));
    assert StepConcat(w0) == StepConcat(w2);
    var w3 := AskStep(w2, 0).0;
    assert w2.tape[1..] == [];
    var w2' := Emit(w2, NextBegin(0)).(tape := []);
    assert Reenter(w2', []) == w2';
    assert w3 == World(w2.h, [], [Opened(0), NextBegin(0), NextEnd(0, Threw(e))]);
    var w4 := AskClose(w3, 0, Some(e)).0;
    assert w4 == World(w3.h, [],
      [Opened(0), NextBegin(0), NextEnd(0, Threw(e)), CloseBegin(0), CloseEnd(0, NoMethod)]);
    assert StepConcat(w2) == (w4, Fail(e));
    assert Next(w).0 == SetState(w4, 2);
    assert Run(w, [OpNext]) == Run(Next(w).0, []);
    var log := Run(w, [OpNext]).log;
    assert log[2] == NextEnd(0, Threw(e)) && log[3] == CloseBegin(0);
  }

  /** concat closes a segment whose `next` threw, always: a run spares the
      thrower exactly when nothing threw. */
  lemma ConcatReturnsAfterThrow(n: Limit, count: nat, mode: Mode, padding: Option<seq<Value>>,
                                tape: seq<Reaction>, ops: seq<Op>)
    ensures
      var log := Run(Start(Fresh(Concat, n, count, mode, padding), tape), ops).log;
      NoReturnAfterThrow(log) <==> forall j :: 0 <= j < |log| && log[j].NextEnd? ==> !log[j].r.Threw?
  {
    hide Run, StatusOf, Legal, Suspended, NoLeak;
    var w0 := Start(Fresh(Concat, n, count, mode, padding), tape);
    FreshInv(Concat, n, count, mode, padding, tape);
    RunInv(w0, n, ops);
    RunKeepsKind(w0, ops);
    var log := Run(w0, ops).log;
    forall j | 0 <= j < |log| && log[j].NextEnd? && log[j].r.Threw?
      ensures exists k :: j < k < |log| && log[k] == CloseBegin(log[j].it)
    {
      assert log[..|log|] == log;
      ThrowerGetsClosed(log, j, |log|);
    }
  }

  lemma {:induction false} ThrowerGetsClosed(log: Log, j: nat, k: nat)
    requires j < k <= |log| && Legal(log, true)
    requires log[j].NextEnd? && log[j].r.Threw?
    requires StatusOf(log[..k], log[j].it) != Failed
    ensures exists m :: j < m < k && log[m] == CloseBegin(log[j].it)
  {
    hide Legal;
    if k == j + 1 {
      StatusJustAfter(log, j);
    } else {
      assert log[..k][..k - 1] == log[..k - 1];
      if StatusOf(log[..k - 1], log[j].it) != Failed {
        ThrowerGetsClosed(log, j, k - 1);
      } else {
        LegalAt(log, true, k - 1);
        assert log[k - 1] == CloseBegin(log[j].it);
      }
    }
  }
}
