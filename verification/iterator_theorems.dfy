/** The promises of iterator helpers over whole runs. */
module IteratorTheorems {
  import opened Basics
  import opened IteratorMask
  import opened IteratorLog
  import opened IteratorHelper
  import opened IteratorForeign
  import opened IteratorRuns
  import opened IteratorZip

  /** Holds between any two operations of the consumer. */
  ghost predicate Inv(w: World, n: Limit) {
    && Fits(w.h)
    && Legal(w.log, Lenient(w.h))
    && Trace(w.h, n, w.log, Outs(w.log))
    && (if w.h.state == 2 then NoLeak(w.h, w.log)
        else (w.h.state == 0 || w.h.state == 3) && Suspended(w.h, n, w.log, Outs(w.log)))
  }

  lemma FreshInv(kind: Kind, n: Limit, count: nat, mode: Mode, padding: Option<seq<Value>>, tape: seq<Reaction>)
    requires kind == Zip ==> count <= 32
    ensures Inv(Start(Fresh(kind, n, count, mode, padding), tape), n)
  {
    hide BitOpen;
    forall j: nat
      ensures BitOpen(ALL_OPEN, j)
    {
      FreshBit(j);
    }
    assert BitOpen(ALL_OPEN, 0);
  }

  lemma StepKindOk(w: World, n: Limit)
    requires Ready(w, n)
    ensures StepOk(w, n, StepKind(w))
  {
    hide Legal, Outs, StepOk, Ready;
    match w.h.kind
    case Map => StepMapOk(w, n);
    case Filter => StepFilterOk(w, n);
    case Take => StepTakeOk(w, n);
    case Drop => DropReady(w, n);
                 StepDropOk(w, n, w.h.remaining);
    case FlatMap => StepFlatMapOk(w, n);
    case Zip => StepZipOk(w, n);
    case Concat => StepConcatOk(w, n);
  }

  lemma DropReady(w: World, n: Limit)
    requires Ready(w, n) && w.h.kind == Drop
    ensures w.h.state == 1 && Legal(w.log, false)
    ensures StatusOf(w.log, 0) == Idle && Opens(w.log) == []
    ensures w.h.remaining == LeftOf(n, |Produced(w.log, 0)|)
    ensures Outs(w.log) == Dropped(Produced(w.log, 0), n)
  {
  }

  /** The relations speak about a helper's slots only through those named here. */
  lemma StateIsFree(h: Helper, s: nat, n: Limit, log: Log, outs: seq<Value>)
    ensures Trace(h.(state := s), n, log, outs) <==> Trace(h, n, log, outs)
    ensures Suspended(h.(state := s), n, log, outs) <==> Suspended(h, n, log, outs)
    ensures Finished(h.(state := s), n, log, outs) <==> Finished(h, n, log, outs)
    ensures NoLeak(h.(state := s), log) <==> NoLeak(h, log)
    ensures ZipFailed(h.(state := s), log, |outs|) <==> ZipFailed(h, log, |outs|)
  {
    hide StatusOf, Legal, Produced, NextCalls, Outs, Calls, Opens, BitOpen;
    var h' := h.(state := s);
    assert forall k :: 0 <= k < |outs| ==> (IsRow(h', log, k, outs[k]) <==> IsRow(h, log, k, outs[k]));
    assert forall i :: 0 <= i < h.count ==> (InputAt(h', log, i, |outs|) <==> InputAt(h, log, i, |outs|));
  }

  /** The relations do not see the event that hands a value to the consumer. */
  lemma OutIsFree(w: World, v: Value, n: Limit)
    requires Trace(w.h, n, w.log, Outs(w.log) + [v]) && Suspended(w.h, n, w.log, Outs(w.log) + [v])
    ensures
      var l' := Emit(w, Out(v)).log;
      && Outs(l') == Outs(w.log) + [v]
      && Trace(w.h, n, l', Outs(l'))
      && Suspended(w.h, n, l', Outs(l'))
  {
    hide StatusOf, Legal, Produced, NextCalls, Outs, Calls, Opens, BitOpen;
    OutFacts(w, v, false);
    var l' := Emit(w, Out(v)).log;
    var outs := Outs(w.log) + [v];
    match w.h.kind {
      case FlatMap => JoinedSame(w.log, l', 1, |Opens(w.log)|);
      case Concat => JoinedSame(w.log, l', 0, |Opens(w.log)|);
      case Zip =>
        RowsStay(w.h, w.h, w.log, l', outs);
        forall i | 0 <= i < w.h.count
          ensures InputAt(w.h, l', i, |outs|)
        {
          assert InputAt(w.h, w.log, i, |outs|);
        }
      case _ =>
    }
  }

  // ---- next ----

  lemma NextInv(w: World, n: Limit)
    requires Inv(w, n)
    ensures Inv(Next(w).0, n)
    ensures w.h.state != 2 && Next(w).1 == DONE_RESULT ==>
      Next(w).0.h.state == 2 && Finished(Next(w).0.h, n, Next(w).0.log, Outs(Next(w).0.log))
    ensures w.h.state != 2 && Next(w).1.Err? && w.h.kind == Zip ==>
      ZipFailed(Next(w).0.h, Next(w).0.log, |Outs(Next(w).0.log)|)
  {
    hide Legal, Outs, Trace, Suspended, NoLeak, Finished, ZipFailed, StepKind;
    if w.h.state != 2 {
      var w0 := SetState(w, 1);
      StateIsFree(w.h, 1, n, w.log, Outs(w.log));
      assert Ready(w0, n);
      StepKindOk(w0, n);
      var (w1, o) := StepKind(w0);
      match o
      case Some_(v) =>
        var s := if w.h.kind == Zip || w.h.kind == Concat then 3 else 0;
        StateIsFree(w1.h, s, n, w1.log, Outs(w1.log) + [v]);
        OutIsFree(SetState(w1, s), v, n);
        OutFacts(SetState(w1, s), v, Lenient(w.h));
      case Exhaust => StateIsFree(w1.h, 2, n, w1.log, Outs(w1.log));
      case Fail(e) => StateIsFree(w1.h, 2, n, w1.log, Outs(w1.log));
    }
  }

  // ---- return and throw ----

  /** Closing the single underlying iterator completes the helper. */
  lemma CloseSingle(w: World, n: Limit, c: Option<Value>)
    requires Inv(w, n) && w.h.state != 2 && w.h.kind in {Map, Filter, Take, Drop}
    ensures Inv(AskClose(SetState(w, 2), 0, c).0, n)
  {
    hide StatusOf, Legal, Produced, NextCalls, Outs, Calls, Opens, AskClose;
    CloseFacts(SetState(w, 2), 0, c, false);
  }

  lemma CloseFlat(w: World, n: Limit, c: Option<Value>, c2: Option<Value>)
    requires Inv(w, n) && w.h.state != 2 && w.h.kind == FlatMap
    ensures w.h.inner.Some? ==>
      Inv(AskClose(AskClose(SetState(w, 2), w.h.inner.value, c).0, 0, c2).0, n)
    ensures w.h.inner.None? ==> Inv(AskClose(SetState(w, 2), 0, c2).0, n)
  {
    hide StatusOf, Legal, Produced, NextCalls, Outs, Calls, Opens, AskClose;
    var w0 := SetState(w, 2);
    if w.h.inner.Some? {
      CloseFacts(w0, w.h.inner.value, c, false);
      var w1 := AskClose(w0, w.h.inner.value, c).0;
      CloseFacts(w1, 0, c2, false);
      var w2 := AskClose(w1, 0, c2).0;
      JoinedSame(w.log, w2.log, 1, |Opens(w.log)|);
    } else {
      CloseFacts(w0, 0, c2, false);
      var w2 := AskClose(w0, 0, c2).0;
      JoinedSame(w.log, w2.log, 1, |Opens(w.log)|);
    }
  }

  lemma CloseConcat(w: World, n: Limit, c: Option<Value>)
    requires Inv(w, n) && w.h.state != 2 && w.h.kind == Concat
    ensures w.h.current.Some? ==> Inv(SetState(AskClose(SetState(w, 1), w.h.current.value, c).0, 2), n)
    ensures w.h.current.None? ==> Inv(SetState(w, 2), n)
  {
    hide StatusOf, Legal, Produced, NextCalls, Outs, Calls, Opens, AskClose;
    if w.h.current.Some? {
      CloseFacts(SetState(w, 1), w.h.current.value, c, true);
      var w1 := AskClose(SetState(w, 1), w.h.current.value, c).0;
      JoinedSame(w.log, w1.log, 0, |Opens(w.log)|);
    }
  }

  lemma CloseZip(w: World, n: Limit, s: nat, c: Option<Value>)
    requires Inv(w, n) && w.h.state != 2 && w.h.kind == Zip && (s == 1 || s == 2)
    ensures Inv(SetState(CloseOpen(SetState(w, s), w.h.open, w.h.count, c).0, 2), n)
  {
    hide StatusOf, Legal, Produced, NextCalls, Outs, Calls, Opens, CloseOpen, BitOpen, IsRow;
    forall j | 0 <= j < w.h.count
      ensures if BitOpen(w.h.open, j) then StatusOf(w.log, j) == Idle else StatusOf(w.log, j) == Exhausted
    {
      assert InputAt(w.h, w.log, j, |Outs(w.log)|);
    }
    CloseOpenFacts(SetState(w, s), w.h.open, w.h.count, c);
    var w1 := CloseOpen(SetState(w, s), w.h.open, w.h.count, c).0;
    RowsStay(w.h, w1.h.(state := 2), w.log, w1.log, Outs(w.log));
  }

  lemma ReturnInv(w: World, n: Limit)
    requires Inv(w, n)
    ensures Inv(Return(w).0, n)
    ensures Return(w).0.h.state == 2
  {
    hide Inv, AskClose, CloseOpen;
    if w.h.state != 2 {
      InvState(w, n);
      match w.h.kind
      case Zip => CloseZip(w, n, if w.h.state == 0 then 2 else 1, None);
      case Concat => CloseConcat(w, n, None);
      case FlatMap =>
        if w.h.inner.Some? {
          CloseFlat(w, n, None, AskClose(SetState(w, 2), w.h.inner.value, None).1);
          CloseState(SetState(w, 2), w.h.inner.value, None);
          var (w1, c) := AskClose(SetState(w, 2), w.h.inner.value, None);
          CloseState(w1, 0, c);
        } else {
          CloseFlat(w, n, None, None);
          CloseState(SetState(w, 2), 0, None);
        }
      case _ =>
        CloseSingle(w, n, None);
        CloseState(SetState(w, 2), 0, None);
    }
  }

  lemma InvState(w: World, n: Limit)
    requires Inv(w, n)
    ensures w.h.state in {0, 2, 3}
  {
  }

  lemma CloseState(w: World, it: nat, c: Option<Value>)
    requires w.h.state == 2
    ensures AskClose(w, it, c).0.h == w.h
  {
    hide AskClose;
    CloseFacts(w, it, c, false);
  }

  lemma ThrowInv(w: World, n: Limit, v: Value)
    requires Inv(w, n)
    ensures Inv(Throw(w, v).0, n)
    ensures Throw(w, v).0.h.state == 2
  {
    hide Inv, AskClose, CloseOpen;
    if w.h.state != 2 {
      InvState(w, n);
      match w.h.kind
      case Zip => CloseZip(w, n, if w.h.state == 0 then 2 else 1, Some(v));
      case Concat => CloseConcat(w, n, Some(v));
      case FlatMap =>
        CloseFlat(w, n, Some(v), Some(v));
        if w.h.inner.Some? {
          CloseState(SetState(w, 2), w.h.inner.value, Some(v));
          CloseState(AskClose(SetState(w, 2), w.h.inner.value, Some(v)).0, 0, Some(v));
        } else {
          CloseState(SetState(w, 2), 0, Some(v));
        }
      case _ =>
        CloseSingle(w, n, Some(v));
        CloseState(SetState(w, 2), 0, Some(v));
    }
  }

  // ---- Whole runs ----

  lemma {:induction false} RunInv(w: World, n: Limit, ops: seq<Op>)
    requires Inv(w, n)
    ensures Inv(Run(w, ops), n)
    decreases |ops|
  {
    hide Inv, Next, Return, Throw;
    if ops != [] {
      match ops[0] {
        case OpNext => NextInv(w, n);
        case OpReturn => ReturnInv(w, n);
        case OpThrow(v) => ThrowInv(w, n, v);
      }
      RunInv(Apply(w, ops[0]).0, n, ops[1..]);
    }
  }

  /** A completed helper never speaks to anyone again. */
  lemma {:induction false} CompletedIsFinal(w: World, ops: seq<Op>)
    requires w.h.state == 2
    ensures Run(w, ops) == w
    decreases |ops|
  {
    if ops != [] {
      assert Apply(w, ops[0]).0 == w;
      CompletedIsFinal(w, ops[1..]);
    }
  }

  /** Any helper, any foreign code, any operations, re-entrant or not: the
      underlying iterators are used by the protocol, none is left open after
      completion, and the output is what the kind promises of the input. */
  lemma EveryRunIsSafe(
      kind: Kind, n: Limit, count: nat, mode: Mode, padding: Option<seq<Value>>,
      tape: seq<Reaction>, ops: seq<Op>)
    requires kind == Zip ==> count <= 32
    ensures
      var w := Run(Start(Fresh(kind, n, count, mode, padding), tape), ops);
      && ProtocolRespected(w.log, kind == Concat)
      && (w.h.state == 2 ==> NoLeak(w.h, w.log))
      && Trace(w.h, n, w.log, Outs(w.log))
  {
    hide Trace, NoLeak, Legal, ProtocolRespected, Suspended;
    var w0 := Start(Fresh(kind, n, count, mode, padding), tape);
    FreshInv(kind, n, count, mode, padding, tape);
    RunInv(w0, n, ops);
    var w := Run(w0, ops);
    RunKeepsKind(w0, ops);
    LegalMeansProtocol(w.log, kind == Concat);
  }

  lemma {:induction false} RunKeepsKind(w: World, ops: seq<Op>)
    ensures Later(w, Run(w, ops))
    decreases |ops|
  {
    hide Next, Return, Throw;
    if ops != [] {
      RunKeepsKind(Apply(w, ops[0]).0, ops[1..]);
    }
  }
}
