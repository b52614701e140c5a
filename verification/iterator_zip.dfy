/** zip: the open mask, closing from last to first, and the three modes. */
module IteratorZip {
  import opened Basics
  import opened IteratorMask
  import opened IteratorLog
  import opened IteratorHelper
  import opened IteratorForeign
  import opened IteratorRuns

  // ---- Closing what is open ----

  ghost predicate ClosedBelow(l: Log, l': Log, mask: Mask, n: nat) {
    && (forall i: nat :: StatusOf(l', i) == if i < n && BitOpen(mask, i) then Closed else StatusOf(l, i))
    && (forall i: nat :: Produced(l', i) == Produced(l, i))
    && SameTrace(l, l')
  }

  /** IteratorCloseAll: every open input below `n` is closed once, nothing else is
      touched, and an exception in flight survives. */
  lemma {:induction false} CloseOpenFacts(w: World, mask: Mask, n: nat, completion: Option<Value>)
    requires Guarded(w) && Legal(w.log, false)
    requires forall i :: 0 <= i < n && BitOpen(mask, i) ==> StatusOf(w.log, i) == Idle
    ensures CloseOpen(w, mask, n, completion).0.h == w.h
    ensures Legal(CloseOpen(w, mask, n, completion).0.log, false)
    ensures ClosedBelow(w.log, CloseOpen(w, mask, n, completion).0.log, mask, n)
    ensures completion.Some? ==> CloseOpen(w, mask, n, completion).1 == completion
    decreases n
  {
    hide StatusOf, Legal, Produced, NextCalls, Outs, Calls, Opens, AskClose, BitOpen;
    if n > 0 {
      if !BitOpen(mask, n - 1) {
        CloseOpenFacts(w, mask, n - 1, completion);
      } else {
        CloseFacts(w, n - 1, completion, false);
        var (w1, c) := AskClose(w, n - 1, completion);
        CloseOpenFacts(w1, mask, n - 1, c);
      }
    }
  }

  /** The iterators whose `return` was called, in order. */
  function Closings(log: Log): seq<nat> {
    if log == [] then []
    else
      var e := log[|log| - 1];
      Closings(log[..|log| - 1]) + (if e.CloseBegin? then [e.it] else [])
  }

  /** The open inputs below `n`, from the last to the first. */
  function OpenDown(mask: Mask, n: nat): (r: seq<nat>)
    ensures forall k :: 0 <= k < |r| ==> r[k] < n && BitOpen(mask, r[k])
    ensures forall j, k :: 0 <= j < k < |r| ==> r[j] > r[k]
    ensures forall i :: 0 <= i < n && BitOpen(mask, i) ==> i in r
  {
    if n == 0 then []
    else (if BitOpen(mask, n - 1) then [n - 1] else []) + OpenDown(mask, n - 1)
  }

  /** Inputs are closed in descending order. */
  lemma {:induction false} CloseOpenOrder(w: World, mask: Mask, n: nat, completion: Option<Value>)
    requires Guarded(w)
    ensures CloseOpen(w, mask, n, completion).0.h == w.h
    ensures Closings(CloseOpen(w, mask, n, completion).0.log) == Closings(w.log) + OpenDown(mask, n)
    decreases n
  {
    hide AskClose, BitOpen;
    if n > 0 {
      if !BitOpen(mask, n - 1) {
        CloseOpenOrder(w, mask, n - 1, completion);
      } else {
        CloseShape(w, n - 1, completion);
        var (w1, c) := AskClose(w, n - 1, completion);
        CloseOpenOrder(w1, mask, n - 1, c);
        var l := w.log + [CloseBegin(n - 1)];
        assert l[..|l| - 1] == w.log && w1.log[..|w1.log| - 1] == l;
      }
    }
  }

  // ---- Rows already delivered stay rows ----

  ghost predicate Rows(h: Helper, log: Log, outs: seq<Value>) {
    forall k :: 0 <= k < |outs| ==> IsRow(h, log, k, outs[k])
  }

  /** Inputs only grow, and only those that kept up with the output. */
  ghost predicate Extends(h: Helper, l: Log, l': Log, r: nat) {
    forall i :: 0 <= i < h.count ==>
      Produced(l', i) == Produced(l, i) ||
      (|Produced(l, i)| >= r && Produced(l, i) <= Produced(l', i))
  }

  lemma RowsStay(h: Helper, h': Helper, l: Log, l': Log, outs: seq<Value>)
    requires Rows(h, l, outs) && Extends(h, l, l', |outs|)
    requires h'.count == h.count && h'.padding == h.padding
    ensures Rows(h', l', outs)
  {
    hide Produced;
    forall k | 0 <= k < |outs|
      ensures IsRow(h', l', k, outs[k])
    {
      assert IsRow(h, l, k, outs[k]);
    }
  }

  // ---- One row ----

  /** Before input `i` of row `r`: the inputs before `i` have delivered theirs. */
  ghost predicate InRow(w: World, i: nat, values: seq<Value>) {
    var r := |Outs(w.log)|;
    && w.h.state == 1 && w.h.kind == Zip && w.h.count <= 32
    && Legal(w.log, false)
    && Rows(w.h, w.log, Outs(w.log))
    && Opens(w.log) == []
    && i <= w.h.count
    && (forall j :: 0 <= j < i ==>
         if BitOpen(w.h.open, j) then StatusOf(w.log, j) == Idle && |Produced(w.log, j)| == r + 1
         else StatusOf(w.log, j) == Exhausted && |Produced(w.log, j)| <= r)
    && (forall j :: i <= j < w.h.count ==> InputAt(w.h, w.log, j, r))
    && (w.h.mode != Longest ==> forall j :: 0 <= j < w.h.count ==> BitOpen(w.h.open, j))
    && !AllShut(w.h.open, w.h.count)
    && |values| == i
    && (forall j :: 0 <= j < i ==> values[j] == Cell(w.h, w.log, j, r))
  }

  lemma RowComplete(w: World, n: Limit, values: seq<Value>)
    requires InRow(w, w.h.count, values)
    ensures StepOk(w, n, (w, Some_(List(values))))
  {
    hide StatusOf, Legal, Produced, NextCalls, Outs, Calls, Opens, BitOpen;
    assert IsRow(w.h, w.log, |Outs(w.log)|, List(values));
  }

  lemma RowSkips(w: World, i: nat, values: seq<Value>)
    requires InRow(w, i, values) && i < w.h.count && !BitOpen(w.h.open, i)
    ensures w.h.mode == Longest
    ensures InRow(w, i + 1, values + [Pad(w.h, i)])
  {
    hide StatusOf, Legal, Produced, NextCalls, Outs, Calls, Opens, BitOpen, Rows, AllShut;
    assert InputAt(w.h, w.log, i, |Outs(w.log)|);
  }

  lemma RowYields(w: World, i: nat, values: seq<Value>)
    requires InRow(w, i, values) && i < w.h.count && BitOpen(w.h.open, i)
    requires AskStep(w, i).1.Yield?
    ensures InRow(AskStep(w, i).0, i + 1, values + [AskStep(w, i).1.v])
    ensures Outs(AskStep(w, i).0.log) == Outs(w.log)
  {
    hide StatusOf, Legal, Produced, NextCalls, Outs, Calls, Opens, BitOpen, Rows, AllShut, AskStep;
    assert InputAt(w.h, w.log, i, |Outs(w.log)|);
    StepFacts(w, i, false);
    var (w1, s) := AskStep(w, i);
    RowsStay(w.h, w1.h, w.log, w1.log, Outs(w.log));
    forall j | i + 1 <= j < w1.h.count
      ensures InputAt(w1.h, w1.log, j, |Outs(w1.log)|)
    {
      assert InputAt(w.h, w.log, j, |Outs(w.log)|);
    }
  }

  /** What is known once input `i` was asked and did not yield: its bit is
      cleared and every other input is where it was. */
  ghost predicate Stopped(w: World, i: nat, w2: World, s: StepResult) {
    && w2.h == w.h.(open := BitClear(w.h.open, i))
    && |w2.tape| <= |w.tape|
    && Legal(w2.log, false)
    && SameTrace(w.log, w2.log)
    && (forall j: nat :: StatusOf(w2.log, j) == if j == i then StatusAfterStep(s) else StatusOf(w.log, j))
    && (forall j: nat :: Produced(w2.log, j) == Produced(w.log, j))
    && (forall j :: 0 <= j < w.h.count ==> (BitOpen(w2.h.open, j) <==> i != j && BitOpen(w.h.open, j)))
  }

  lemma RowStops(w: World, i: nat, values: seq<Value>)
    requires InRow(w, i, values) && i < w.h.count && BitOpen(w.h.open, i)
    requires !AskStep(w, i).1.Yield?
    ensures AskStep(w, i).0.h == w.h
    ensures Stopped(w, i, SetOpen(AskStep(w, i).0, BitClear(w.h.open, i)), AskStep(w, i).1)
  {
    hide StatusOf, Legal, Produced, NextCalls, Outs, Calls, Opens, BitOpen, BitClear, Rows, AllShut, AskStep;
    assert InputAt(w.h, w.log, i, |Outs(w.log)|);
    StepFacts(w, i, false);
    ClearedBits(w.h.open, i, w.h.count);
  }

  /** Input `i` stopped and everything still open is closed: nothing leaks. */
  lemma RowAborts(w: World, i: nat, values: seq<Value>, w2: World, s: StepResult, completion: Option<Value>)
    requires InRow(w, i, values) && i < w.h.count && BitOpen(w.h.open, i)
    requires !s.Yield? && Stopped(w, i, w2, s)
    ensures
      var w3 := CloseOpen(w2, w2.h.open, w.h.count, completion).0;
      && w3.h == w2.h
      && Legal(w3.log, false)
      && SameTrace(w.log, w3.log)
      && Rows(w3.h, w3.log, Outs(w.log))
      && NoLeak(w3.h, w3.log)
      && StatusOf(w3.log, i) == StatusAfterStep(s)
      && (forall j :: 0 <= j < w.h.count && j != i ==>
           StatusOf(w3.log, j) == if BitOpen(w.h.open, j) then Closed else Exhausted)
      && (forall j :: 0 <= j < w.h.count ==> Produced(w3.log, j) == Produced(w.log, j))
  {
    hide StatusOf, Legal, Produced, NextCalls, Outs, Calls, Opens, BitOpen, BitClear, Rows, AllShut, CloseOpen, Cell;
    forall j | 0 <= j < w.h.count
      ensures if BitOpen(w.h.open, j) then StatusOf(w.log, j) == Idle else StatusOf(w.log, j) == Exhausted
    {
      if i <= j {
        assert InputAt(w.h, w.log, j, |Outs(w.log)|);
      }
    }
    CloseOpenFacts(w2, w2.h.open, w.h.count, completion);
    var w3 := CloseOpen(w2, w2.h.open, w.h.count, completion).0;
    RowsStay(w.h, w3.h, w.log, w3.log, Outs(w.log));
  }

  lemma RowThrows(w: World, n: Limit, i: nat, values: seq<Value>)
    requires InRow(w, i, values) && i < w.h.count && BitOpen(w.h.open, i)
    requires AskStep(w, i).1.Threw?
    ensures
      var (w1, s) := AskStep(w, i);
      var w2 := SetOpen(w1, BitClear(w.h.open, i));
      StepOk(w, n, (CloseOpen(w2, BitClear(w.h.open, i), w.h.count, Some(s.e)).0, Fail(s.e)))
  {
    hide StatusOf, Legal, Produced, NextCalls, Outs, Calls, Opens, BitOpen, BitClear, AllShut, CloseOpen, AskStep, InRow, NoLeak, IsRow;
    RowStops(w, i, values);
    var (w1, s) := AskStep(w, i);
    var w2 := SetOpen(w1, BitClear(w.h.open, i));
    RowAborts(w, i, values, w2, s, Some(s.e));
    RowIsZip(w, i, values);
  }

  lemma RowIsZip(w: World, i: nat, values: seq<Value>)
    requires InRow(w, i, values)
    ensures w.h.kind == Zip && w.h.state == 1 && w.h.count <= 32
  {
  }

  lemma RowEndsShortest(w: World, n: Limit, i: nat, values: seq<Value>)
    requires InRow(w, i, values) && i < w.h.count && BitOpen(w.h.open, i)
    requires AskStep(w, i).1.Done? && w.h.mode == Shortest
    ensures
      var w2 := SetOpen(AskStep(w, i).0, BitClear(w.h.open, i));
      var (w3, c) := CloseOpen(w2, BitClear(w.h.open, i), w.h.count, None);
      StepOk(w, n, (w3, if c.Some? then Fail(c.value) else Exhaust))
  {
    hide StatusOf, Legal, Produced, NextCalls, Outs, Calls, Opens, BitOpen, BitClear, AllShut, CloseOpen, AskStep, NoLeak, IsRow;
    RowStops(w, i, values);
    var (w1, s) := AskStep(w, i);
    var w2 := SetOpen(w1, BitClear(w.h.open, i));
    RowAborts(w, i, values, w2, s, None);
    var w3 := CloseOpen(w2, BitClear(w.h.open, i), w.h.count, None).0;
    forall j | i <= j < w.h.count
      ensures |Produced(w3.log, j)| == |Outs(w.log)|
    {
      assert InputAt(w.h, w.log, j, |Outs(w.log)|);
    }
    assert StatusOf(w3.log, i) == Exhausted && |Produced(w3.log, i)| == |Outs(w.log)|;
  }

  lemma RowEndsStrict(w: World, n: Limit, i: nat, values: seq<Value>)
    requires InRow(w, i, values) && 0 < i < w.h.count && BitOpen(w.h.open, i)
    requires AskStep(w, i).1.Done? && w.h.mode == Strict
    ensures
      var w2 := SetOpen(AskStep(w, i).0, BitClear(w.h.open, i));
      StepOk(w, n, (CloseOpen(w2, BitClear(w.h.open, i), w.h.count, Some(TypeErrorObject)).0, Fail(TypeErrorObject)))
  {
    hide StatusOf, Legal, Produced, NextCalls, Outs, Calls, Opens, BitOpen, BitClear, AllShut, CloseOpen, AskStep, NoLeak, IsRow;
    RowStops(w, i, values);
    var (w1, s) := AskStep(w, i);
    var w2 := SetOpen(w1, BitClear(w.h.open, i));
    RowAborts(w, i, values, w2, s, Some(TypeErrorObject));
    var w3 := CloseOpen(w2, BitClear(w.h.open, i), w.h.count, Some(TypeErrorObject)).0;
    assert InputAt(w.h, w.log, i, |Outs(w.log)|);
    assert StatusOf(w3.log, i) == Exhausted && |Produced(w3.log, i)| == |Outs(w.log)|;
    assert |Produced(w3.log, 0)| > |Outs(w.log)|;
  }

  lemma RowEndsLongest(w: World, n: Limit, i: nat, values: seq<Value>)
    requires InRow(w, i, values) && i < w.h.count && BitOpen(w.h.open, i)
    requires AskStep(w, i).1.Done? && w.h.mode == Longest
    ensures
      var w2 := SetOpen(AskStep(w, i).0, BitClear(w.h.open, i));
      if AllShut(w2.h.open, w.h.count) then StepOk(w, n, (w2, Exhaust))
      else InRow(w2, i + 1, values + [Pad(w2.h, i)]) && Outs(w2.log) == Outs(w.log)
  {
    hide StatusOf, Legal, Produced, NextCalls, Outs, Calls, Opens, BitOpen, BitClear, CloseOpen, AskStep, IsRow;
    RowStops(w, i, values);
    var (w1, s) := AskStep(w, i);
    var w2 := SetOpen(w1, BitClear(w.h.open, i));
    RowsStay(w.h, w2.h, w.log, w2.log, Outs(w.log));
    forall j | i <= j < w.h.count
      ensures
        if BitOpen(w.h.open, j) then StatusOf(w.log, j) == Idle && |Produced(w.log, j)| == |Outs(w.log)|
        else StatusOf(w.log, j) == Exhausted && |Produced(w.log, j)| <= |Outs(w.log)|
    {
      assert InputAt(w.h, w.log, j, |Outs(w.log)|);
    }
    if AllShut(w2.h.open, w.h.count) {
      assert forall j :: 0 <= j < w.h.count ==> !BitOpen(w2.h.open, j);
      assert |Produced(w2.log, i)| == |Outs(w.log)|;
    }
  }

  // ---- Strict mode: the first input is exhausted, the rest must be ----

  ghost predicate Scanning(w: World, k: nat) {
    var r := |Outs(w.log)|;
    && w.h.state == 1 && w.h.kind == Zip && w.h.mode == Strict
    && 1 <= k <= w.h.count <= 32
    && Legal(w.log, false)
    && Rows(w.h, w.log, Outs(w.log))
    && Opens(w.log) == []
    && (forall j :: 0 <= j < k ==>
         !BitOpen(w.h.open, j) && StatusOf(w.log, j) == Exhausted && |Produced(w.log, j)| == r)
    && (forall j :: k <= j < w.h.count ==>
         BitOpen(w.h.open, j) && StatusOf(w.log, j) == Idle && |Produced(w.log, j)| == r)
  }

  lemma ScanStarts(w: World, values: seq<Value>)
    requires InRow(w, 0, values) && 0 < w.h.count && BitOpen(w.h.open, 0)
    requires AskStep(w, 0).1.Done? && w.h.mode == Strict
    ensures
      var w2 := SetOpen(AskStep(w, 0).0, BitClear(w.h.open, 0));
      Scanning(w2, 1) && Outs(w2.log) == Outs(w.log)
  {
    hide StatusOf, Legal, Produced, NextCalls, Outs, Calls, Opens, BitOpen, BitClear, CloseOpen, AskStep, IsRow;
    RowStops(w, 0, values);
    var w2 := SetOpen(AskStep(w, 0).0, BitClear(w.h.open, 0));
    RowsStay(w.h, w2.h, w.log, w2.log, Outs(w.log));
    forall j | 0 <= j < w.h.count
      ensures
        if BitOpen(w.h.open, j) then StatusOf(w.log, j) == Idle && |Produced(w.log, j)| == |Outs(w.log)|
        else StatusOf(w.log, j) == Exhausted && |Produced(w.log, j)| <= |Outs(w.log)|
    {
      assert InputAt(w.h, w.log, j, |Outs(w.log)|);
    }
  }

  lemma ScanYields(w: World, n: Limit, k: nat)
    requires Scanning(w, k) && k < w.h.count && AskStep(w, k).1.Yield?
    ensures StepOk(w, n,
      (CloseOpen(AskStep(w, k).0, w.h.open, w.h.count, Some(TypeErrorObject)).0, Fail(TypeErrorObject)))
  {
    hide StatusOf, Legal, Produced, NextCalls, Outs, Calls, Opens, BitOpen, BitClear, CloseOpen, AskStep, IsRow;
    StepFacts(w, k, false);
    var (w1, s) := AskStep(w, k);
    CloseOpenFacts(w1, w.h.open, w.h.count, Some(TypeErrorObject));
    var w2 := CloseOpen(w1, w.h.open, w.h.count, Some(TypeErrorObject)).0;
    RowsStay(w.h, w2.h, w.log, w2.log, Outs(w.log));
    assert StatusOf(w2.log, 0) == Exhausted && |Produced(w2.log, 0)| == |Outs(w.log)|;
    assert |Produced(w2.log, k)| > |Outs(w.log)|;
  }

  lemma ScanThrows(w: World, n: Limit, k: nat)
    requires Scanning(w, k) && k < w.h.count && AskStep(w, k).1.Threw?
    ensures
      var (w1, s) := AskStep(w, k);
      var w2 := SetOpen(w1, BitClear(w.h.open, k));
      StepOk(w, n, (CloseOpen(w2, BitClear(w.h.open, k), w.h.count, Some(s.e)).0, Fail(s.e)))
  {
    hide StatusOf, Legal, Produced, NextCalls, Outs, Calls, Opens, BitOpen, BitClear, CloseOpen, AskStep, IsRow;
    StepFacts(w, k, false);
    var (w1, s) := AskStep(w, k);
    var w2 := SetOpen(w1, BitClear(w.h.open, k));
    ClearedBits(w.h.open, k, w.h.count);
    CloseOpenFacts(w2, w2.h.open, w.h.count, Some(s.e));
    var w3 := CloseOpen(w2, w2.h.open, w.h.count, Some(s.e)).0;
    RowsStay(w.h, w3.h, w.log, w3.log, Outs(w.log));
  }

  lemma ScanGoesOn(w: World, k: nat)
    requires Scanning(w, k) && k < w.h.count && AskStep(w, k).1.Done?
    ensures
      var w2 := SetOpen(AskStep(w, k).0, BitClear(w.h.open, k));
      Scanning(w2, k + 1) && Outs(w2.log) == Outs(w.log)
  {
    hide StatusOf, Legal, Produced, NextCalls, Outs, Calls, Opens, BitOpen, BitClear, CloseOpen, AskStep, IsRow;
    StepFacts(w, k, false);
    var w2 := SetOpen(AskStep(w, k).0, BitClear(w.h.open, k));
    ClearedBits(w.h.open, k, w.h.count);
    RowsStay(w.h, w2.h, w.log, w2.log, Outs(w.log));
  }

  lemma ScanEnds(w: World, n: Limit)
    requires Scanning(w, w.h.count)
    ensures StepOk(w, n, (w, Exhaust))
  {
    hide StatusOf, Legal, Produced, NextCalls, Outs, Calls, Opens, BitOpen, BitClear, CloseOpen, AskStep, IsRow;
  }

  lemma {:induction false} StrictScanOk(w: World, n: Limit, k: nat)
    requires Scanning(w, k)
    ensures StepOk(w, n, StrictScan(w, k))
    decreases |w.tape|, w.h.count - k
  {
    hide StatusOf, Legal, Produced, NextCalls, Outs, Calls, Opens, BitOpen, BitClear, CloseOpen, AskStep, IsRow, StepOk, Rows;
    if k == w.h.count {
      ScanEnds(w, n);
    } else {
      var (w1, s) := AskStep(w, k);
      match s
      case Threw(e) => ScanThrows(w, n, k);
      case Yield(_) => ScanYields(w, n, k);
      case Done =>
        ScanGoesOn(w, k);
        var w2 := SetOpen(w1, BitClear(w.h.open, k));
        StrictScanOk(w2, n, k + 1);
        StepOkFrom(w, w2, n, StrictScan(w2, k + 1));
    }
  }

  // ---- zip as a whole ----

  lemma {:induction false} ZipRowOk(w: World, n: Limit, i: nat, values: seq<Value>)
    requires InRow(w, i, values)
    ensures StepOk(w, n, ZipRow(w, i, values))
    decreases |w.tape|, w.h.count - i
  {
    hide StatusOf, Legal, Produced, NextCalls, Outs, Calls, Opens, BitOpen, BitClear, CloseOpen, AskStep, IsRow, StepOk, Rows, StrictScan;
    if i == w.h.count {
      RowComplete(w, n, values);
    } else if !BitOpen(w.h.open, i) {
      RowSkips(w, i, values);
      ZipRowOk(w, n, i + 1, values + [Pad(w.h, i)]);
    } else {
      var (w1, s) := AskStep(w, i);
      match s
      case Yield(v) =>
        RowYields(w, i, values);
        ZipRowOk(w1, n, i + 1, values + [v]);
        StepOkFrom(w, w1, n, ZipRow(w1, i + 1, values + [v]));
      case Threw(e) => RowThrows(w, n, i, values);
      case Done =>
        var w2 := SetOpen(w1, BitClear(w.h.open, i));
        match w.h.mode
        case Shortest => RowEndsShortest(w, n, i, values);
        case Strict =>
          if i != 0 {
            RowEndsStrict(w, n, i, values);
          } else {
            ScanStarts(w, values);
            StrictScanOk(w2, n, 1);
            StepOkFrom(w, w2, n, StrictScan(w2, 1));
          }
        case Longest =>
          RowEndsLongest(w, n, i, values);
          if !AllShut(w2.h.open, w.h.count) {
            ZipRowOk(w2, n, i + 1, values + [Pad(w2.h, i)]);
            StepOkFrom(w, w2, n, ZipRow(w2, i + 1, values + [Pad(w2.h, i)]));
          }
    }
  }

  lemma StepZipOk(w: World, n: Limit)
    requires Ready(w, n) && w.h.kind == Zip
    ensures StepOk(w, n, StepZip(w))
  {
    hide StatusOf, Legal, Produced, NextCalls, Outs, Calls, Opens, BitOpen, BitClear, ZipRow, IsRow;
    if w.h.count > 0 {
      ZipRowOk(w, n, 0, []);
    }
  }
}
