/** What an iterator helper says to the outside world, as a log of events, and
    what it means for that log to respect the iteration protocol.

    Underlying iterators are named by number: an iterator record keeps its
    number for the whole run.  A `next` interaction covers the call and the
    reads of `done` and `value`; a close interaction covers the lookup of
    `return` and its call. */
module IteratorLog {
  import opened Basics

  datatype Value =
    | Undefined
    | Bool(b: bool)
    | Atom(id: nat)
    | TypeErrorObject
    | List(items: seq<Value>)

  predicate Truthy(v: Value) {
    v != Undefined && v != Bool(false)
  }

  /** The outcome of IteratorStepValue. */
  datatype StepResult = Yield(v: Value) | Done | Threw(e: Value)

  /** The outcome of a user callback. */
  datatype Answer = Returned(v: Value) | Raised(e: Value)

  /** What `return` of an iterator did. */
  datatype CloseAnswer =
    | NoMethod
    | GetterThrew(e: Value)
    | ReturnThrew(e: Value)
    | ReturnedObject
    | ReturnedPrimitive

  datatype Event =
    | NextBegin(it: nat)
    | NextEnd(it: nat, r: StepResult)
    | CloseBegin(it: nat)
    | CloseEnd(it: nat, a: CloseAnswer)
    | Opened(it: nat)
    | NotOpened(it: nat, error: Value)
    | Called(arg: Value, counter: nat, answer: Answer)
    | Out(v: Value)

  type Log = seq<Event>

  // ---- Status of one underlying iterator ----

  datatype Status = Idle | Stepping | Exhausted | Failed | Closing | Closed

  /** The iterator an event is about, if any. */
  function About(e: Event): Option<nat> {
    match e
    case NextBegin(i) => Some(i)
    case NextEnd(i, _) => Some(i)
    case CloseBegin(i) => Some(i)
    case CloseEnd(i, _) => Some(i)
    case Opened(_) => None
    case NotOpened(_, _) => None
    case Called(_, _, _) => None
    case Out(_) => None
  }

  function StatusAfterStep(r: StepResult): Status {
    match r
    case Yield(_) => Idle
    case Done => Exhausted
    case Threw(_) => Failed
  }

  function StatusAfter(e: Event): Status
    requires About(e).Some?
  {
    match e
    case NextBegin(_) => Stepping
    case NextEnd(_, r) => StatusAfterStep(r)
    case CloseBegin(_) => Closing
    case CloseEnd(_, _) => Closed
  }

  /** The status of iterator `i`: what its latest event left it in. */
  function StatusOf(log: Log, i: nat): Status {
    if log == [] then Idle
    else
      var e := log[|log| - 1];
      if About(e) == Some(i) then StatusAfter(e) else StatusOf(log[..|log| - 1], i)
  }

  /** May event `e` happen to an iterator in status `s`?  With `lenient`, an
      iterator whose `next` threw may still be closed. */
  predicate Allowed(s: Status, e: Event, lenient: bool) {
    match e
    case NextBegin(_) => s == Idle
    case NextEnd(_, _) => s == Stepping
    case CloseBegin(_) => s == Idle || (lenient && s == Failed)
    case CloseEnd(_, _) => s == Closing
    case Opened(_) => true
    case NotOpened(_, _) => true
    case Called(_, _, _) => true
    case Out(_) => true
  }

  /** Every event of the log was allowed when it happened. */
  predicate Legal(log: Log, lenient: bool) {
    log == [] ||
    (var e := log[|log| - 1];
     var before := log[..|log| - 1];
     Legal(before, lenient) &&
     (About(e).Some? ==> Allowed(StatusOf(before, About(e).value), e, lenient)))
  }

  // ---- Projections ----

  /** The values iterator `i` has produced. */
  function Produced(log: Log, i: nat): seq<Value> {
    if log == [] then []
    else
      var e := log[|log| - 1];
      Produced(log[..|log| - 1], i) +
      (if e.NextEnd? && e.it == i && e.r.Yield? then [e.r.v] else [])
  }

  /** How often `next` was called on iterator `i`. */
  function NextCalls(log: Log, i: nat): nat {
    if log == [] then 0
    else
      NextCalls(log[..|log| - 1], i) + (if log[|log| - 1] == NextBegin(i) then 1 else 0)
  }

  /** The values the helper has handed to its own consumer. */
  function Outs(log: Log): seq<Value> {
    if log == [] then []
    else
      var e := log[|log| - 1];
      Outs(log[..|log| - 1]) + (if e.Out? then [e.v] else [])
  }

  /** The callback calls, in order. */
  function Calls(log: Log): seq<Event> {
    if log == [] then []
    else
      var e := log[|log| - 1];
      Calls(log[..|log| - 1]) + (if e.Called? then [e] else [])
  }

  /** The iterators that were opened on the way, in order. */
  function Opens(log: Log): seq<nat> {
    if log == [] then []
    else
      var e := log[|log| - 1];
      Opens(log[..|log| - 1]) + (if e.Opened? then [e.it] else [])
  }

  /** The exception an event tells of, if any.  A `return` that gives back something
      that is no object is an exception too. */
  function ErrorIn(e: Event): Option<Value> {
    match e
    case NextEnd(_, Threw(x)) => Some(x)
    case CloseEnd(_, GetterThrew(x)) => Some(x)
    case CloseEnd(_, ReturnThrew(x)) => Some(x)
    case CloseEnd(_, ReturnedPrimitive) => Some(TypeErrorObject)
    case NotOpened(_, x) => Some(x)
    case Called(_, _, Raised(x)) => Some(x)
    case _ => None
  }

  /** All exceptions of foreign code, in order. */
  function Errors(log: Log): seq<Value> {
    if log == [] then []
    else
      var e := ErrorIn(log[|log| - 1]);
      Errors(log[..|log| - 1]) + (if e.Some? then [e.value] else [])
  }

  /** The exceptions of `next`, in order. */
  function Throws(log: Log): seq<Value> {
    if log == [] then []
    else
      var e := log[|log| - 1];
      Throws(log[..|log| - 1]) + (if e.NextEnd? && e.r.Threw? then [e.r.e] else [])
  }

  lemma SnocErrors(log: Log, e: Event)
    ensures Errors(log + [e]) == Errors(log) + (if ErrorIn(e).Some? then [ErrorIn(e).value] else [])
    ensures Throws(log + [e]) == Throws(log) + (if e.NextEnd? && e.r.Threw? then [e.r.e] else [])
    ensures Outs(log + [e]) == Outs(log) + (if e.Out? then [e.v] else [])
  {
    assert (log + [e])[..|log|] == log;
  }

  /** How every projection reacts to one more event. */
  lemma Snoc(log: Log, e: Event, lenient: bool)
    ensures Legal(log + [e], lenient) <==>
            Legal(log, lenient) &&
            (About(e).Some? ==> Allowed(StatusOf(log, About(e).value), e, lenient))
    ensures forall i: nat :: StatusOf(log + [e], i) == if About(e) == Some(i) then StatusAfter(e) else StatusOf(log, i)
    ensures forall i: nat :: Produced(log + [e], i) ==
                        Produced(log, i) + (if e.NextEnd? && e.it == i && e.r.Yield? then [e.r.v] else [])
    ensures forall i: nat :: NextCalls(log + [e], i) == NextCalls(log, i) + (if e == NextBegin(i) then 1 else 0)
    ensures Outs(log + [e]) == Outs(log) + (if e.Out? then [e.v] else [])
    ensures Calls(log + [e]) == Calls(log) + (if e.Called? then [e] else [])
    ensures Opens(log + [e]) == Opens(log) + (if e.Opened? then [e.it] else [])
  {
    assert (log + [e])[..|log|] == log;
  }

  // ---- The protocol, said without the status automaton ----

  /** No iterator is asked for a value, or closed, after it was closed. */
  ghost predicate QuietAfterReturn(log: Log) {
    forall j, k :: 0 <= j < k < |log| && log[j].CloseBegin? ==>
      log[k] != CloseBegin(log[j].it) && log[k] != NextBegin(log[j].it)
  }

  /** No iterator is asked for a value, or closed, after it reported done. */
  ghost predicate QuietAfterDone(log: Log) {
    forall j, k :: 0 <= j < k < |log| && log[j].NextEnd? && log[j].r.Done? ==>
      log[k] != CloseBegin(log[j].it) && log[k] != NextBegin(log[j].it)
  }

  /** No iterator is asked for a value after its `next` threw. */
  ghost predicate NoNextAfterThrow(log: Log) {
    forall j, k :: 0 <= j < k < |log| && log[j].NextEnd? && log[j].r.Threw? ==>
      log[k] != NextBegin(log[j].it)
  }

  /** No iterator is closed after its `next` threw. */
  ghost predicate NoReturnAfterThrow(log: Log) {
    forall j, k :: 0 <= j < k < |log| && log[j].NextEnd? && log[j].r.Threw? ==>
      log[k] != CloseBegin(log[j].it)
  }

  /** While a `next` call on an iterator is running, nothing else is asked of
      that iterator: the next event about it is the end of that call. */
  ghost predicate NoOverlap(log: Log) {
    forall j, k :: 0 <= j < k < |log| && log[j].NextBegin? && About(log[k]) == Some(log[j].it) ==>
      exists m :: j < m <= k && log[m].NextEnd? && log[m].it == log[j].it
  }

  ghost predicate ProtocolRespected(log: Log, lenient: bool) {
    && QuietAfterReturn(log)
    && QuietAfterDone(log)
    && NoNextAfterThrow(log)
    && (!lenient ==> NoReturnAfterThrow(log))
    && NoOverlap(log)
  }

  /** Statuses from which an iterator is never spoken to again. */
  predicate Final(s: Status, lenient: bool) {
    s == Exhausted || s == Closed || (s == Failed && !lenient)
  }

  /** A legal log stays legal when cut short. */
  lemma {:induction false} LegalPrefix(log: Log, lenient: bool, n: nat)
    requires Legal(log, lenient) && n <= |log|
    ensures Legal(log[..n], lenient)
  {
    if n == |log| {
      assert log[..n] == log;
    } else {
      LegalPrefix(log[..|log| - 1], lenient, n);
      assert log[..|log| - 1][..n] == log[..n];
    }
  }

  /** In a legal log every event was allowed by the status just before it. */
  lemma LegalAt(log: Log, lenient: bool, k: nat)
    requires Legal(log, lenient) && k < |log|
    ensures About(log[k]).Some? ==> Allowed(StatusOf(log[..k], About(log[k]).value), log[k], lenient)
  {
    LegalPrefix(log, lenient, k + 1);
    assert log[..k + 1][..k] == log[..k];
  }

  /** After an event that ends the conversation with `i`, `i` hears at most the
      end of its own closing. */
  lemma {:induction false} FinalStays(log: Log, lenient: bool, j: nat, k: nat, i: nat)
    requires Legal(log, lenient) && j <= k <= |log|
    requires Final(StatusOf(log[..j], i), lenient)
    ensures StatusOf(log[..k], i) == StatusOf(log[..j], i)
  {
    if j < k {
      FinalStays(log, lenient, j, k - 1, i);
      LegalAt(log, lenient, k - 1);
      assert log[..k][..k - 1] == log[..k - 1];
    }
  }

  lemma {:induction false} ClosingStays(log: Log, lenient: bool, j: nat, k: nat, i: nat)
    requires Legal(log, lenient) && j <= k <= |log|
    requires StatusOf(log[..j], i) in {Closing, Closed}
    ensures StatusOf(log[..k], i) in {Closing, Closed}
  {
    if j < k {
      ClosingStays(log, lenient, j, k - 1, i);
      LegalAt(log, lenient, k - 1);
      assert log[..k][..k - 1] == log[..k - 1];
    }
  }

  lemma {:induction false} FailedStays(log: Log, lenient: bool, j: nat, k: nat, i: nat)
    requires Legal(log, lenient) && j <= k <= |log|
    requires StatusOf(log[..j], i) in {Failed, Closing, Closed}
    ensures StatusOf(log[..k], i) in {Failed, Closing, Closed}
  {
    if j < k {
      FailedStays(log, lenient, j, k - 1, i);
      LegalAt(log, lenient, k - 1);
      assert log[..k][..k - 1] == log[..k - 1];
    }
  }

  lemma {:induction false} SteppingUntilEnd(log: Log, lenient: bool, j: nat, k: nat, i: nat)
    requires Legal(log, lenient) && j <= k <= |log|
    requires StatusOf(log[..j], i) == Stepping
    requires forall m :: j <= m < k ==> !(log[m].NextEnd? && log[m].it == i)
    ensures StatusOf(log[..k], i) == Stepping
  {
    if j < k {
      SteppingUntilEnd(log, lenient, j, k - 1, i);
      LegalAt(log, lenient, k - 1);
      assert log[..k][..k - 1] == log[..k - 1];
    }
  }

  lemma StatusJustAfter(log: Log, j: nat)
    requires j < |log| && About(log[j]).Some?
    ensures StatusOf(log[..j + 1], About(log[j]).value) == StatusAfter(log[j])
  {
  }

  /** A legal log respects the protocol, said in plain terms. */
  lemma LegalMeansProtocol(log: Log, lenient: bool)
    requires Legal(log, lenient)
    ensures ProtocolRespected(log, lenient)
  {
    forall j, k | 0 <= j < k < |log| && log[j].CloseBegin?
      ensures log[k] != CloseBegin(log[j].it) && log[k] != NextBegin(log[j].it)
    {
      StatusJustAfter(log, j);
      ClosingStays(log, lenient, j + 1, k, log[j].it);
      LegalAt(log, lenient, k);
    }
    forall j, k | 0 <= j < k < |log| && log[j].NextEnd? && log[j].r.Done?
      ensures log[k] != CloseBegin(log[j].it) && log[k] != NextBegin(log[j].it)
    {
      StatusJustAfter(log, j);
      FinalStays(log, lenient, j + 1, k, log[j].it);
      LegalAt(log, lenient, k);
    }
    forall j, k | 0 <= j < k < |log| && log[j].NextEnd? && log[j].r.Threw?
      ensures log[k] != NextBegin(log[j].it)
      ensures !lenient ==> log[k] != CloseBegin(log[j].it)
    {
      StatusJustAfter(log, j);
      FailedStays(log, lenient, j + 1, k, log[j].it);
      if !lenient {
        FinalStays(log, lenient, j + 1, k, log[j].it);
      }
      LegalAt(log, lenient, k);
    }
    forall j, k | 0 <= j < k < |log| && log[j].NextBegin? && About(log[k]) == Some(log[j].it)
      ensures exists m :: j < m <= k && log[m].NextEnd? && log[m].it == log[j].it
    {
      if forall m :: j < m <= k ==> !(log[m].NextEnd? && log[m].it == log[j].it) {
        StatusJustAfter(log, j);
        SteppingUntilEnd(log, lenient, j + 1, k, log[j].it);
        LegalAt(log, lenient, k);
      }
    }
  }
}
