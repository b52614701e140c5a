/** zip with more than 32 inputs: the mask cannot remember that input 32 is
    exhausted, so that input is closed after it reported done. */
module IteratorWideZip {
  import opened Basics
  import opened IteratorMask
  import opened IteratorLog
  import opened IteratorHelper
  import opened IteratorForeign
  import opened IteratorRuns
  import opened IteratorTheorems

  const YIELDING := Reaction([], Yield(Undefined), NoMethod, Returned(Undefined), OpenOk)

  ghost predicate Yielding(tape: seq<Reaction>) {
    forall k :: 0 <= k < |tape| ==> tape[k] == YIELDING
  }

  /** The inputs before 32 all yield, and the row reaches input 32. */
  lemma {:induction false} RowReaches32(w: World, i: nat, values: seq<Value>) returns (w': World, values': seq<Value>)
    requires w.h.state == 1 && i <= 32 < w.h.count
    requires |w.tape| == 32 - i && Yielding(w.tape)
    requires forall j: nat :: BitOpen(w.h.open, j)
    ensures ZipRow(w, i, values) == ZipRow(w', 32, values')
    ensures w'.h == w.h && w'.tape == []
    decreases 32 - i
  {
    hide BitOpen, BitClear;
    if i == 32 {
      w', values' := w, values;
    } else {
      var (w1, s) := AskStep(w, i);
      assert w.tape[0] == YIELDING;
      ReentryIsInert(Emit(w, NextBegin(i)).(tape := w.tape[1..]), []);
      w', values' := RowReaches32(w1, i + 1, values + [s.v]);
    }
  }

  ghost predicate Closes32(l: Log, l': Log) {
    l <= l' && exists m :: |l| <= m < |l'| && l'[m] == CloseBegin(32)
  }

  lemma {:induction false} CloseOpenCloses32(w: World, mask: Mask, n: nat, c: Option<Value>)
    requires w.tape == []
    ensures w.log <= CloseOpen(w, mask, n, c).0.log
    ensures n > 32 ==> Closes32(w.log, CloseOpen(w, mask, n, c).0.log)
    decreases n
  {
    hide Bit;
    if n > 0 {
      if !BitOpen(mask, n - 1) {
        CloseOpenCloses32(w, mask, n - 1, c);
      } else {
        var (w1, c1) := AskClose(w, n - 1, c);
        assert w1.log[|w.log|] == CloseBegin(n - 1);
        CloseOpenCloses32(w1, mask, n - 1, c1);
        var l' := CloseOpen(w1, mask, n - 1, c1).0.log;
        if n == 33 {
          assert l'[|w.log|] == CloseBegin(32);
        } else if n > 33 {
          var m :| |w1.log| <= m < |l'| && l'[m] == CloseBegin(32);
        }
      }
    }
  }

  /** Longest mode goes on past input 32: no later input can be marked either. */
  lemma {:induction false} RowGoesOn(w: World, i: nat, values: seq<Value>)
    requires w.tape == [] && w.h.mode == Longest && 32 < i <= w.h.count
    ensures
      var r := ZipRow(w, i, values);
      r.1.Some_? && r.0.h == w.h && r.0.tape == [] && w.log <= r.0.log
    decreases w.h.count - i
  {
    hide Bit;
    if i < w.h.count {
      var (w1, s) := AskStep(w, i);
      assert BitClear(w.h.open, i) == w.h.open;
      assert BitOpen(w.h.open, 32);
      assert !AllShut(w.h.open, w.h.count);
      assert SetOpen(w1, w.h.open) == w1;
      RowGoesOn(w1, i + 1, values + [Pad(w.h, i)]);
    }
  }

  /** Input 32 reports done and is closed later in the same run. */
  lemma WideZipBreaks(n: Limit, count: nat, mode: Mode, padding: Option<seq<Value>>)
    requires count > 32
    ensures !QuietAfterDone(
      Run(Start(Fresh(Zip, n, count, mode, padding), seq(32, _ => YIELDING)), [OpNext, OpReturn]).log)
  {
    hide Bit, CloseOpen, ZipRow;
    var w0 := Start(Fresh(Zip, n, count, mode, padding), seq(32, _ => YIELDING));
    forall j: nat
      ensures BitOpen(ALL_OPEN, j)
    {
      FreshBit(j);
    }
    var we := SetState(w0, 1);
    var w', values := RowReaches32(we, 0, []);
    assert !AllShut(we.h.open, count) by {
      assert BitOpen(we.h.open, 32);
    }
    assert StepKind(we) == ZipRow(w', 32, values);
    var w1 := AskStep(w', 32).0;
    var j := |w'.log| + 1;
    assert w1.log[j] == NextEnd(32, Done) && j < |w1.log|;
    var end := Return(Next(w0).0).0;
    RunTwo(w0);
    AfterDone(w', values);
    if mode == Longest {
      var wn := Next(w0).0;
      CloseOpenCloses32(SetState(wn, 1), wn.h.open, count, None);
    }
    var m :| |w1.log| <= m < |end.log| && end.log[m] == CloseBegin(32);
    assert end.log[j] == NextEnd(32, Done);
    assert j < m;
  }

  lemma RunTwo(w: World)
    ensures Run(w, [OpNext, OpReturn]) == Return(Next(w).0).0
  {
    hide Next, Return;
    var w1 := Next(w).0;
    assert [OpNext, OpReturn][1..] == [OpReturn];
    assert Run(w1, [OpReturn]) == Run(Return(w1).0, []);
  }

  /** The row from input 32 on, once that input is exhausted. */
  lemma AfterDone(w: World, values: seq<Value>)
    requires w.tape == [] && w.h.state == 1 && w.h.count > 32
    ensures
      var w1 := AskStep(w, 32).0;
      var r := ZipRow(w, 32, values);
      && r.0.h == w.h && r.0.tape == []
      && (w.h.mode != Longest ==> !r.1.Some_? && Closes32(w1.log, r.0.log))
      && (w.h.mode == Longest ==> r.1.Some_? && w1.log <= r.0.log)
  {
    hide Bit;
    var (w1, s) := AskStep(w, 32);
    assert BitClear(w.h.open, 32) == w.h.open;
    assert BitOpen(w.h.open, 32);
    assert SetOpen(w1, w.h.open) == w1;
    assert !AllShut(w.h.open, w.h.count);
    match w.h.mode
    case Shortest =>
      CloseOpenCloses32(w1, w.h.open, w.h.count, None);
      CloseOpenKeeps(w1, w.h.open, w.h.count, None);
    case Strict =>
      CloseOpenCloses32(w1, w.h.open, w.h.count, Some(TypeErrorObject));
      CloseOpenKeeps(w1, w.h.open, w.h.count, Some(TypeErrorObject));
    case Longest => RowGoesOn(w1, 33, values + [Pad(w.h, 32)]);
  }

  lemma {:induction false} CloseOpenKeeps(w: World, mask: Mask, n: nat, c: Option<Value>)
    requires w.tape == []
    ensures CloseOpen(w, mask, n, c).0.h == w.h && CloseOpen(w, mask, n, c).0.tape == []
    decreases n
  {
    hide BitOpen;
    if n > 0 {
      if !BitOpen(mask, n - 1) {
        CloseOpenKeeps(w, mask, n - 1, c);
      } else {
        var (w1, c1) := AskClose(w, n - 1, c);
        CloseOpenKeeps(w1, mask, n - 1, c1);
      }
    }
  }

  /** zip keeps the protocol in every run exactly when it has at most 32 inputs. */
  lemma ZipIsSafeUpTo32(n: Limit, count: nat, mode: Mode, padding: Option<seq<Value>>)
    ensures
      (forall tape: seq<Reaction>, ops: seq<Op> ::
         ProtocolRespected(Run(Start(Fresh(Zip, n, count, mode, padding), tape), ops).log, false))
      <==> count <= 32
  {
    hide Run, ProtocolRespected, Trace, NoLeak;
    if count <= 32 {
      forall tape: seq<Reaction>, ops: seq<Op>
        ensures ProtocolRespected(Run(Start(Fresh(Zip, n, count, mode, padding), tape), ops).log, false)
      {
        EveryRunIsSafe(Zip, n, count, mode, padding, tape, ops);
      }
    } else {
      WideZipBreaks(n, count, mode, padding);
      var log := Run(Start(Fresh(Zip, n, count, mode, padding), seq(32, _ => YIELDING)), [OpNext, OpReturn]).log;
      BrokenQuiet(log);
    }
  }

  lemma BrokenQuiet(log: Log)
    requires !QuietAfterDone(log)
    ensures !ProtocolRespected(log, false)
  {
  }
}
