/** Draining ends: on any finite tape a consumer that keeps calling `next`
    completes the helper, and where no foreign code throws it is told "done". */
module IteratorDrain {
  import opened Basics
  import opened IteratorMask
  import opened IteratorLog
  import opened IteratorHelper
  import opened IteratorForeign
  import opened IteratorRuns
  import opened IteratorTheorems
  import opened IteratorLists

  /** A step that delivers a value has used up part of the tape. */
  predicate Consumes(w: World, r: (World, Outcome)) {
    r.1.Some_? ==> |r.0.tape| < |w.tape|
  }

  lemma {:induction false} FilterConsumes(w: World, counter: nat)
    ensures Consumes(w, StepFilter(w, counter))
    decreases |w.tape|
  {
    hide AskStep, AskCall, AskClose;
    var (w1, s) := AskStep(w, 0);
    if s.Yield? {
      var (w2, a) := AskCall(w1, s.v, counter);
      if a.Returned? && !Truthy(a.v) {
        FilterConsumes(w2.(h := w2.h.(counter := counter + 1)), counter + 1);
      }
    }
  }

  lemma {:induction false} DropConsumes(w: World, remaining: Limit)
    ensures Consumes(w, StepDrop(w, remaining))
    decreases |w.tape|
  {
    hide AskStep;
    var (w1, s) := AskStep(w, 0);
    if remaining != Finite(0) && s.Yield? {
      DropConsumes(w1, Less(remaining));
    }
  }

  lemma {:induction false} FlatMapConsumes(w: World, counter: nat)
    ensures Consumes(w, StepFlatMap(w, counter))
    decreases |w.tape|, if w.h.inner.Some? then 1 else 0
  {
    hide AskStep, AskCall, AskClose, AskOpen;
    if w.h.inner.Some? {
      var (w1, s) := AskStep(w, w.h.inner.value);
      if s.Done? {
        FlatMapConsumes(w1.(h := w1.h.(inner := None)), counter);
      }
    } else {
      var (w1, s) := AskStep(w, 0);
      if s.Yield? {
        var (w2, a) := AskCall(w1, s.v, counter);
        if a.Returned? {
          var (w3, o) := AskOpen(w2, counter + 1);
          if o.None? {
            FlatMapConsumes(w3.(h := w3.h.(counter := counter + 1, inner := Some(counter + 1))), counter + 1);
          }
        }
      }
    }
  }

  lemma {:induction false} ConcatConsumes(w: World)
    ensures Consumes(w, StepConcat(w))
    decreases |w.tape|, if w.h.seg < w.h.count then w.h.count - w.h.seg else 0
  {
    hide AskStep, AskClose, AskOpen;
    if w.h.seg < w.h.count {
      if w.h.current.None? {
        var (w1, o) := AskOpen(w, w.h.seg);
        if o.None? {
          ConcatConsumes(w1.(h := w1.h.(current := Some(w.h.seg))));
        }
      } else {
        var (w1, s) := AskStep(w, w.h.current.value);
        if s.Done? {
          ConcatConsumes(w1.(h := w1.h.(current := None, seg := w.h.seg + 1)));
        }
      }
    }
  }

  /** A row of zip in which no input has answered yet, and one is still open. */
  ghost predicate NothingYet(w: World, i: nat) {
    && w.h.state == 1
    && w.h.count <= 32
    && (forall j :: 0 <= j < i && j < w.h.count ==> !BitOpen(w.h.open, j))
    && exists j :: i <= j < w.h.count && BitOpen(w.h.open, j)
  }

  lemma {:induction false} StrictScanFails(w: World, k: nat)
    ensures !StrictScan(w, k).1.Some_?
    decreases |w.tape|, if k < w.h.count then w.h.count - k else 0
  {
    hide AskStep, CloseOpen, BitOpen, BitClear;
    if k < w.h.count {
      if !BitOpen(w.h.open, k) {
        StrictScanFails(w, k + 1);
      } else {
        var (w1, s) := AskStep(w, k);
        if s.Done? {
          StrictScanFails(SetOpen(w1, BitClear(w.h.open, k)), k + 1);
        }
      }
    }
  }

  lemma ClearedFirst(w: World, i: nat)
    requires NothingYet(w, i) && i < w.h.count && BitOpen(w.h.open, i)
    ensures
      var open' := BitClear(w.h.open, i);
      !AllShut(open', w.h.count) ==> NothingYet(SetOpen(w, open'), i + 1)
  {
    hide BitOpen, BitClear;
    ClearedBits(w.h.open, i, w.h.count);
  }

  lemma {:induction false} ZipRowConsumes(w: World, i: nat, values: seq<Value>)
    requires NothingYet(w, i)
    ensures Consumes(w, ZipRow(w, i, values))
    decreases |w.tape|, if i < w.h.count then w.h.count - i else 0
  {
    hide AskStep, CloseOpen, BitOpen, BitClear, StrictScan;
    if !BitOpen(w.h.open, i) {
      ZipRowConsumes(w, i + 1, if w.h.mode == Longest then values + [Pad(w.h, i)] else values);
    } else {
      StepShape(w, i);
      var (w1, s) := AskStep(w, i);
      if s.Done? {
        var w2 := SetOpen(w1, BitClear(w.h.open, i));
        StrictScanFails(w2, 1);
        ClearedFirst(w1, i);
        if w.h.mode == Longest && !AllShut(w2.h.open, w.h.count) {
          ZipRowConsumes(w2, i + 1, values + [Pad(w2.h, i)]);
        }
      }
    }
  }

  lemma StepConsumes(w: World)
    requires w.h.state == 1 && Fits(w.h)
    ensures Consumes(w, StepKind(w))
  {
    hide AskStep, AskCall, AskClose, StepFilter, StepDrop, StepFlatMap, StepConcat, ZipRow;
    match w.h.kind
    case Map =>
    case Filter => FilterConsumes(w, w.h.counter);
    case Take =>
    case Drop => DropConsumes(w, w.h.remaining);
    case FlatMap => FlatMapConsumes(w, w.h.counter);
    case Zip =>
      if w.h.count != 0 && !AllShut(w.h.open, w.h.count) {
        ZipRowConsumes(w, 0, []);
      }
    case Concat => ConcatConsumes(w);
  }

  function Nexts(k: nat): seq<Op> {
    if k == 0 then [] else [OpNext] + Nexts(k - 1)
  }

  /** After `k` calls of `next` the helper is still suspended, and one more
      completes it. */
  ghost predicate EndsAfter(w: World, k: nat) {
    var v := Run(w, Nexts(k));
    v.h.state != 2 && Next(v).0.h.state == 2
  }

  ghost predicate Ends(w: World) {
    exists k: nat :: EndsAfter(w, k)
  }

  lemma RunNone(w: World)
    ensures Run(w, Nexts(0)) == w
  {
  }

  lemma RunNext(w: World, k: nat)
    requires k > 0
    ensures Run(w, Nexts(k)) == Run(Next(w).0, Nexts(k - 1))
  {
    hide Next;
    assert Nexts(k)[1..] == Nexts(k - 1);
    assert Apply(w, OpNext) == Next(w);
  }

  lemma NextEndsOrConsumes(w: World)
    requires w.h.state in {0, 3} && Fits(w.h)
    ensures Next(w).0.h.state == 2 || |Next(w).0.tape| < |w.tape|
  {
    hide StepKind;
    StepConsumes(SetState(w, 1));
  }

  /** Every helper in every reachable state, on every tape, is completed by a
      bounded number of `next` calls. */
  lemma {:induction false} DrainEnds(w: World, n: Limit) returns (k: nat)
    requires Inv(w, n) && w.h.state != 2
    ensures k <= |w.tape| && EndsAfter(w, k) && Inv(Run(w, Nexts(k)), n)
    decreases |w.tape|
  {
    hide Inv, Next;
    InvState(w, n);
    assert Fits(w.h) by { InvFits(w, n); }
    NextEndsOrConsumes(w);
    NextInv(w, n);
    if Next(w).0.h.state == 2 {
      k := 0;
    } else {
      var j := DrainEnds(Next(w).0, n);
      k := j + 1;
      RunNext(w, k);
    }
  }

  lemma InvFits(w: World, n: Limit)
    requires Inv(w, n)
    ensures Fits(w.h)
  {
  }

  // ---- Foreign code that never throws ----

  predicate Calm(r: Reaction) {
    && !r.step.Threw?
    && r.close in {NoMethod, ReturnedObject}
    && r.call.Returned?
    && r.open.OpenOk?
  }

  predicate AllCalm(tape: seq<Reaction>) {
    forall i :: 0 <= i < |tape| ==> Calm(tape[i])
  }

  predicate Quiet(w: World) {
    w.h.state == 1 && AllCalm(w.tape)
  }

  lemma StepQuiet(w: World, it: nat)
    requires Quiet(w)
    ensures Quiet(AskStep(w, it).0) && AskStep(w, it).0.h == w.h && !AskStep(w, it).1.Threw?
  {
    StepShape(w, it);
    if w.tape != [] {
      ReentryIsInert(Emit(w, NextBegin(it)).(tape := w.tape[1..]), w.tape[0].reenter);
    }
  }

  lemma CloseQuiet(w: World, it: nat)
    requires Quiet(w)
    ensures Quiet(AskClose(w, it, None).0) && AskClose(w, it, None).0.h == w.h && AskClose(w, it, None).1.None?
  {
    CloseShape(w, it, None);
    if w.tape != [] {
      ReentryIsInert(Emit(w, CloseBegin(it)).(tape := w.tape[1..]), w.tape[0].reenter);
    }
  }

  lemma CallQuiet(w: World, arg: Value, counter: nat)
    requires Quiet(w)
    ensures Quiet(AskCall(w, arg, counter).0) && AskCall(w, arg, counter).0.h == w.h
    ensures AskCall(w, arg, counter).1.Returned?
  {
    if w.tape != [] {
      ReentryIsInert(w.(tape := w.tape[1..]), w.tape[0].reenter);
    }
  }

  /** Only a tape that has run out refuses to open an iterator. */
  lemma OpenQuiet(w: World, it: nat)
    requires Quiet(w)
    ensures Quiet(AskOpen(w, it).0) && AskOpen(w, it).0.h == w.h
    ensures AskOpen(w, it).1.Some? ==> AskOpen(w, it).0.tape == []
  {
    if w.tape != [] {
      ReentryIsInert(w.(tape := w.tape[1..]), w.tape[0].reenter);
    }
  }

  lemma {:induction false} CloseOpenQuiet(w: World, mask: Mask, n: nat)
    requires Quiet(w)
    ensures Quiet(CloseOpen(w, mask, n, None).0) && CloseOpen(w, mask, n, None).1.None?
    decreases n
  {
    hide Quiet, AskClose, BitOpen;
    if n > 0 {
      CloseQuiet(w, n - 1);
      CloseOpenQuiet(if BitOpen(mask, n - 1) then AskClose(w, n - 1, None).0 else w, mask, n - 1);
    }
  }

  /** A step among calm foreign code never fails, except that a strict zip may
      find lists of different lengths and that flatMap and concat may find the
      tape used up where they open an iterator. */
  predicate CalmOutcome(r: (World, Outcome)) {
    && (!r.1.Fail? ==> AllCalm(r.0.tape))
    && (r.1.Fail? ==>
        match r.0.h.kind
        case Zip => r.0.h.mode == Strict
        case FlatMap => r.0.tape == []
        case Concat => r.0.tape == []
        case _ => false)
  }

  lemma {:induction false} FilterCalm(w: World, counter: nat)
    requires Quiet(w) && w.h.kind == Filter
    ensures CalmOutcome(StepFilter(w, counter))
    decreases |w.tape|
  {
    hide AskStep, AskCall, AskClose;
    StepQuiet(w, 0);
    var (w1, s) := AskStep(w, 0);
    if s.Yield? {
      CallQuiet(w1, s.v, counter);
      var (w2, a) := AskCall(w1, s.v, counter);
      if !Truthy(a.v) {
        FilterCalm(w2.(h := w2.h.(counter := counter + 1)), counter + 1);
      }
    }
  }

  lemma {:induction false} DropCalm(w: World, remaining: Limit)
    requires Quiet(w) && w.h.kind == Drop
    ensures CalmOutcome(StepDrop(w, remaining))
    decreases |w.tape|
  {
    hide AskStep;
    StepQuiet(w, 0);
    StepQuiet(w.(h := w.h.(remaining := Finite(0))), 0);
    var (w1, s) := AskStep(w, 0);
    if remaining != Finite(0) && s.Yield? {
      DropCalm(w1, Less(remaining));
    }
  }

  lemma {:induction false} FlatMapCalm(w: World, counter: nat)
    requires Quiet(w) && w.h.kind == FlatMap
    ensures CalmOutcome(StepFlatMap(w, counter))
    decreases |w.tape|, if w.h.inner.Some? then 1 else 0
  {
    hide AskStep, AskCall, AskClose, AskOpen;
    if w.h.inner.Some? {
      StepQuiet(w, w.h.inner.value);
      var (w1, s) := AskStep(w, w.h.inner.value);
      if s.Done? {
        FlatMapCalm(w1.(h := w1.h.(inner := None)), counter);
      }
    } else {
      StepQuiet(w, 0);
      var (w1, s) := AskStep(w, 0);
      if s.Yield? {
        CallQuiet(w1, s.v, counter);
        var (w2, a) := AskCall(w1, s.v, counter);
        OpenQuiet(w2, counter + 1);
        var (w3, o) := AskOpen(w2, counter + 1);
        if o.None? {
          FlatMapCalm(w3.(h := w3.h.(counter := counter + 1, inner := Some(counter + 1))), counter + 1);
        }
      }
    }
  }

  lemma {:induction false} ConcatCalm(w: World)
    requires Quiet(w) && w.h.kind == Concat
    ensures CalmOutcome(StepConcat(w))
    decreases |w.tape|, if w.h.seg < w.h.count then w.h.count - w.h.seg else 0
  {
    hide AskStep, AskClose, AskOpen;
    if w.h.seg < w.h.count {
      if w.h.current.None? {
        OpenQuiet(w, w.h.seg);
        var (w1, o) := AskOpen(w, w.h.seg);
        if o.None? {
          ConcatCalm(w1.(h := w1.h.(current := Some(w.h.seg))));
        }
      } else {
        StepQuiet(w, w.h.current.value);
        var (w1, s) := AskStep(w, w.h.current.value);
        if s.Done? {
          ConcatCalm(w1.(h := w1.h.(current := None, seg := w.h.seg + 1)));
        }
      }
    }
  }

  lemma {:induction false} StrictScanCalm(w: World, k: nat)
    requires Quiet(w) && w.h.kind == Zip && w.h.mode == Strict
    ensures CalmOutcome(StrictScan(w, k))
    decreases |w.tape|, if k < w.h.count then w.h.count - k else 0
  {
    hide AskStep, CloseOpen, BitOpen, BitClear;
    if k < w.h.count {
      if !BitOpen(w.h.open, k) {
        StrictScanCalm(w, k + 1);
      } else {
        StepQuiet(w, k);
        var (w1, s) := AskStep(w, k);
        if s.Done? {
          StrictScanCalm(SetOpen(w1, BitClear(w.h.open, k)), k + 1);
        }
      }
    }
  }

  lemma {:induction false} ZipRowCalm(w: World, i: nat, values: seq<Value>)
    requires Quiet(w) && w.h.kind == Zip
    ensures CalmOutcome(ZipRow(w, i, values))
    decreases |w.tape|, if i < w.h.count then w.h.count - i else 0
  {
    hide AskStep, CloseOpen, BitOpen, BitClear, StrictScan;
    if i < w.h.count {
      if !BitOpen(w.h.open, i) {
        ZipRowCalm(w, i + 1, if w.h.mode == Longest then values + [Pad(w.h, i)] else values);
      } else {
        StepQuiet(w, i);
        var (w1, s) := AskStep(w, i);
        if s.Yield? {
          ZipRowCalm(w1, i + 1, values + [s.v]);
        } else {
          var w2 := SetOpen(w1, BitClear(w.h.open, i));
          match w.h.mode
          case Shortest => CloseOpenQuiet(w2, w2.h.open, w.h.count);
          case Strict => StrictScanCalm(w2, 1);
          case Longest => ZipRowCalm(w2, i + 1, values + [Pad(w2.h, i)]);
        }
      }
    }
  }

  lemma StepCalm(w: World)
    requires Quiet(w)
    ensures CalmOutcome(StepKind(w))
  {
    hide AskStep, AskCall, AskClose, StepFilter, StepDrop, StepFlatMap, StepConcat, ZipRow;
    match w.h.kind
    case Map =>
      StepQuiet(w, 0);
      if AskStep(w, 0).1.Yield? {
        CallQuiet(AskStep(w, 0).0, AskStep(w, 0).1.v, w.h.counter);
      }
    case Filter => FilterCalm(w, w.h.counter);
    case Take =>
      StepQuiet(w, 0);
      CloseQuiet(w, 0);
    case Drop => DropCalm(w, w.h.remaining);
    case FlatMap => FlatMapCalm(w, w.h.counter);
    case Zip => ZipRowCalm(w, 0, []);
    case Concat => ConcatCalm(w);
  }

  /** How a helper among calm foreign code completes. */
  predicate CalmEnd(h: Helper, r: (World, Result)) {
    || r.1 == DONE_RESULT
    || (r.1.Err? && h.kind == Zip && h.mode == Strict)
    || (r.1.Err? && h.kind in {FlatMap, Concat} && r.0.tape == [])
  }

  lemma NextCalm(w: World)
    requires w.h.state in {0, 3} && AllCalm(w.tape)
    ensures Next(w).0.h.state == 2 ==> CalmEnd(w.h, Next(w))
    ensures Next(w).0.h.state != 2 ==> AllCalm(Next(w).0.tape)
  {
    hide StepKind;
    StepCalm(SetState(w, 1));
  }

  lemma {:induction false} RunCalm(w: World, n: Limit, k: nat)
    requires Inv(w, n) && AllCalm(w.tape) && w.h.state != 2
    requires Run(w, Nexts(k)).h.state != 2
    ensures AllCalm(Run(w, Nexts(k)).tape) && Later(w, Run(w, Nexts(k)))
    decreases k
  {
    hide Inv, Next, AllCalm, Run;
    InvState(w, n);
    if k == 0 {
      RunNone(w);
    } else {
      RunNext(w, k);
      NextCalm(w);
      NextInv(w, n);
      if Next(w).0.h.state == 2 {
        CompletedIsFinal(Next(w).0, Nexts(k - 1));
      } else {
        RunCalm(Next(w).0, n, k - 1);
      }
    }
  }

  /** A consumer that keeps calling `next` on a fresh helper among calm foreign
      code is told "done" in the end, unless a strict zip found different
      lengths or the tape ran out where an iterator was to be opened. */
  lemma DrainReportsDone(kind: Kind, n: Limit, count: nat, mode: Mode, padding: Option<seq<Value>>,
                         tape: seq<Reaction>) returns (k: nat)
    requires kind == Zip ==> count <= 32
    requires AllCalm(tape)
    ensures
      var w := Start(Fresh(kind, n, count, mode, padding), tape);
      var v := Run(w, Nexts(k));
      && k <= |tape|
      && EndsAfter(w, k)
      && CalmEnd(w.h, Next(v))
      && (Next(v).1 == DONE_RESULT ==> Drains(v, n))
  {
    hide Inv, Next, Run, AllCalm, Nexts;
    var w := Start(Fresh(kind, n, count, mode, padding), tape);
    FreshInv(kind, n, count, mode, padding, tape);
    k := DrainEnds(w, n);
    RunCalm(w, n, k);
    InvState(Run(w, Nexts(k)), n);
    NextCalm(Run(w, Nexts(k)));
  }

  // ---- Longest zip with more than 32 inputs ----

  /** Input 32 is never marked exhausted, so a row comes out of empty inputs. */
  lemma {:induction false} EmptyWideRow(w: World, i: nat, values: seq<Value>)
    requires w.tape == [] && w.h.mode == Longest && w.h.count > 32
    ensures
      var r := ZipRow(w, i, values);
      r.1.Some_? && r.0.tape == [] && r.0.h.state == w.h.state
    decreases if i < w.h.count then w.h.count - i else 0
  {
    hide Bit, BitClear;
    if i < w.h.count {
      if !BitOpen(w.h.open, i) {
        EmptyWideRow(w, i + 1, values + [Pad(w.h, i)]);
      } else {
        var w2 := SetOpen(AskStep(w, i).0, BitClear(w.h.open, i));
        assert BitOpen(w2.h.open, 32);
        EmptyWideRow(w2, i + 1, values + [Pad(w2.h, i)]);
      }
    }
  }

  lemma {:induction false} WideLongestNeverEnds(w: World, k: nat)
    requires w.tape == [] && w.h.kind == Zip && w.h.mode == Longest && w.h.count > 32 && w.h.state in {0, 3}
    ensures !EndsAfter(w, k)
    decreases k
  {
    hide Run, Nexts, ZipRow, Bit;
    var w1 := SetState(w, 1);
    assert BitOpen(w1.h.open, 32);
    assert StepKind(w1) == StepZip(w1) == ZipRow(w1, 0, []);
    EmptyWideRow(w1, 0, []);
    assert Next(w).0.h.state == 3 && Next(w).0.tape == [];
    if k == 0 {
      RunNone(w);
    } else {
      RunNext(w, k);
      WideLongestNeverEnds(Next(w).0, k - 1);
    }
  }

  /** A longest zip over finite inputs always drains exactly when it has at most
      32 inputs. */
  lemma LongestDrainsUpTo32(n: Limit, count: nat, padding: Option<seq<Value>>)
    ensures
      (forall tape: seq<Reaction> :: Ends(Start(Fresh(Zip, n, count, Longest, padding), tape)))
      <==> count <= 32
  {
    hide EndsAfter, Inv;
    if count <= 32 {
      forall tape: seq<Reaction>
        ensures Ends(Start(Fresh(Zip, n, count, Longest, padding), tape))
      {
        FreshInv(Zip, n, count, Longest, padding, tape);
        var k := DrainEnds(Start(Fresh(Zip, n, count, Longest, padding), tape), n);
      }
    } else {
      var w := Start(Fresh(Zip, n, count, Longest, padding), []);
      forall k: nat
        ensures !EndsAfter(w, k)
      {
        WideLongestNeverEnds(w, k);
      }
      assert !Ends(w);
    }
  }
}
