/** What disposable stacks guarantee over every run. */
module DisposeLaws {
  import opened Basics
  import opened DisposeWorld

  // ---- The account of a resource ----

  /** How often a resource is in a list. */
  function CountOf(es: seq<Entry>, x: Id): nat {
    if es == [] then 0 else CountOf(es[..|es| - 1], x) + if es[|es| - 1].id == x then 1 else 0
  }

  /** How often it is waiting in a stack. */
  function WaitingIn(s: Stack, x: Id): nat {
    if s.phase.Pending? then CountOf(s.entries, x) else 0
  }

  function Waiting(ss: seq<Stack>, x: Id): nat {
    if ss == [] then 0 else Waiting(ss[..|ss| - 1], x) + WaitingIn(ss[|ss| - 1], x)
  }

  /** A registered resource is waiting in one stack, released, or held by a disposal
      under way (`held` times), and all that comes to one. */
  ghost predicate Balanced(w: World, x: Id, held: nat) {
    Waiting(w.stacks, x) + CountOf(w.released, x) + held == if x.n < w.next then 1 else 0
  }

  lemma CountSnoc(es: seq<Entry>, e: Entry, x: Id)
    ensures CountOf(es + [e], x) == CountOf(es, x) + if e.id == x then 1 else 0
  {
    assert (es + [e])[..|es|] == es;
  }

  lemma {:induction false} CountConcat(a: seq<Entry>, b: seq<Entry>, x: Id)
    ensures CountOf(a + b, x) == CountOf(a, x) + CountOf(b, x)
    decreases |b|
  {
    if b == [] {
      assert a + b == a;
    } else {
      assert (a + b)[..|a + b| - 1] == a + b[..|b| - 1];
      CountConcat(a, b[..|b| - 1], x);
    }
  }

  lemma {:induction false} WaitingUpdate(ss: seq<Stack>, i: nat, s: Stack, x: Id)
    requires i < |ss|
    ensures Waiting(ss[i := s], x) + WaitingIn(ss[i], x) == Waiting(ss, x) + WaitingIn(s, x)
  {
    hide CountOf;
    var last := |ss| - 1;
    if i == last {
      assert ss[i := s][..last] == ss[..last];
    } else {
      WaitingUpdate(ss[..last], i, s, x);
      assert ss[i := s][..last] == ss[..last][i := s];
    }
  }

  lemma WaitingPush(ss: seq<Stack>, s: Stack, x: Id)
    ensures Waiting(ss + [s], x) == Waiting(ss, x) + WaitingIn(s, x)
  {
    assert (ss + [s])[..|ss|] == ss;
  }

  // ---- Stacks disposed of ----

  /** A stack that was disposed of stays as it is while others run. */
  ghost predicate Frozen(w: World, w': World) {
    && |w.stacks| <= |w'.stacks|
    && forall i :: 0 <= i < |w.stacks| && w.stacks[i].phase.Disposed? ==> w'.stacks[i] == w.stacks[i]
  }

  lemma {:induction false} FrozenCall(w: World, e: Entry)
    ensures Frozen(w, Call(w, e).0)
    decreases |w.tape|, 0, 0
  {
    if w.tape != [] {
      FrozenAll(w.(released := w.released + [e], tape := w.tape[1..]), w.tape[0].ops);
    }
  }

  lemma {:induction false} FrozenRelease(w: World, es: seq<Entry>, completion: Option<Error>)
    ensures Frozen(w, Release(w, es, completion).0)
    decreases |w.tape|, 1, |es|
  {
    if es != [] {
      FrozenCall(w, es[|es| - 1]);
      var (w1, thrown) := Call(w, es[|es| - 1]);
      FrozenRelease(w1, es[..|es| - 1], if thrown.None? then completion else Merge(completion, thrown.value));
    }
  }

  lemma {:induction false} FrozenDispose(w: World, s: nat)
    ensures Frozen(w, DoDispose(w, s).0)
    decreases |w.tape|, 2, 0
  {
    hide Release;
    if s < |w.stacks| && w.stacks[s].phase.Pending? {
      var es := w.stacks[s].entries;
      var w0 := w.(stacks := w.stacks[s := Stack(Disposed, es)]);
      FrozenRelease(w0, es, None);
      assert forall i :: 0 <= i < |w.stacks| && i != s ==> w0.stacks[i] == w.stacks[i];
    }
  }

  lemma {:induction false} FrozenAll(w: World, ops: seq<Op>)
    ensures Frozen(w, PerformAll(w, ops))
    decreases |w.tape|, 4, |ops|
  {
    if ops != [] {
      hide DoDispose;
      if ops[0].Dispose? {
        FrozenDispose(w, ops[0].stack);
      }
      var w1 := Perform(w, ops[0]).0;
      assert Frozen(w, w1);
      FrozenAll(w1, ops[1..]);
    }
  }

  // ---- Every step keeps the account ----

  lemma PushBalanced(w: World, s: nat, argStyle: bool, x: Id, held: nat)
    requires s < |w.stacks| && w.stacks[s].phase.Pending? && Balanced(w, x, held)
    ensures Balanced(Push(w, s, argStyle), x, held)
  {
    hide Waiting, CountOf;
    var st := w.stacks[s];
    var e := Entry(Id(w.next), argStyle);
    WaitingUpdate(w.stacks, s, st.(entries := st.entries + [e]), x);
    CountSnoc(st.entries, e, x);
  }

  lemma MoveBalanced(w: World, s: nat, x: Id, held: nat)
    requires s < |w.stacks| && w.stacks[s].phase.Pending? && Balanced(w, x, held)
    ensures Balanced(DoMove(w, s).0, x, held)
  {
    hide Waiting, CountOf;
    var es := w.stacks[s].entries;
    WaitingUpdate(w.stacks, s, Stack(Disposed, []), x);
    WaitingPush(w.stacks[s := Stack(Disposed, [])], Stack(Pending, es), x);
  }

  lemma NewBalanced(w: World, x: Id, held: nat)
    requires Balanced(w, x, held)
    ensures Balanced(w.(stacks := w.stacks + [Stack(Pending, [])]), x, held)
  {
    WaitingPush(w.stacks, Stack(Pending, []), x);
  }

  lemma {:induction false} CallBalanced(w: World, e: Entry, x: Id, held: nat)
    requires Balanced(w, x, held + if e.id == x then 1 else 0)
    ensures Balanced(Call(w, e).0, x, held)
    decreases |w.tape|, 0, 0
  {
    hide Waiting, CountOf;
    CountSnoc(w.released, e, x);
    if w.tape != [] {
      PerformAllBalanced(w.(released := w.released + [e], tape := w.tape[1..]), w.tape[0].ops, x, held);
    }
  }

  lemma {:induction false} ReleaseBalanced(w: World, entries: seq<Entry>, completion: Option<Error>, x: Id, held: nat)
    requires Balanced(w, x, held + CountOf(entries, x))
    ensures
      var w' := Release(w, entries, completion).0;
      Balanced(w', x, held)
    decreases |w.tape|, 1, |entries|
  {
    hide Balanced;
    if entries != [] {
      var front, e := entries[..|entries| - 1], entries[|entries| - 1];
      CallBalanced(w, e, x, held + CountOf(front, x));
      var (w1, thrown) := Call(w, e);
      ReleaseBalanced(w1, front, if thrown.None? then completion else Merge(completion, thrown.value), x, held);
    }
  }

  lemma {:induction false} DisposeBalanced(w: World, s: nat, x: Id, held: nat)
    requires Balanced(w, x, held)
    ensures Balanced(DoDispose(w, s).0, x, held)
    decreases |w.tape|, 2, 0
  {
    hide Waiting, CountOf, Release;
    if s < |w.stacks| && w.stacks[s].phase.Pending? {
      var es := w.stacks[s].entries;
      var w0 := w.(stacks := w.stacks[s := Stack(Disposed, es)]);
      WaitingUpdate(w.stacks, s, Stack(Disposed, es), x);
      ReleaseBalanced(w0, es, None, x, held);
      FrozenRelease(w0, es, None);
      var w1 := Release(w0, es, None).0;
      assert w0.stacks[s].phase.Disposed?;
      WaitingUpdate(w1.stacks, s, Stack(Disposed, []), x);
    }
  }

  lemma {:induction false} PerformBalanced(w: World, op: Op, x: Id, held: nat)
    requires Balanced(w, x, held)
    ensures Balanced(Perform(w, op).0, x, held)
    decreases |w.tape|, 3, 0
  {
    hide Balanced, DoDispose;
    match op
    case New =>
      NewBalanced(w, x, held);
    case Use(s, a) =>
      if s < |w.stacks| && w.stacks[s].phase.Pending? { PushBalanced(w, s, false, x, held); }
    case Adopt(s, _) =>
      if s < |w.stacks| && w.stacks[s].phase.Pending? { PushBalanced(w, s, true, x, held); }
    case Defer(s, _) =>
      if s < |w.stacks| && w.stacks[s].phase.Pending? { PushBalanced(w, s, false, x, held); }
    case Move(s) =>
      if s < |w.stacks| && w.stacks[s].phase.Pending? { MoveBalanced(w, s, x, held); }
    case Dispose(s) =>
      DisposeBalanced(w, s, x, held);
  }

  lemma {:induction false} PerformAllBalanced(w: World, ops: seq<Op>, x: Id, held: nat)
    requires Balanced(w, x, held)
    ensures Balanced(PerformAll(w, ops), x, held)
    decreases |w.tape|, 4, |ops|
  {
    hide Balanced, Perform;
    if ops != [] {
      PerformBalanced(w, ops[0], x, held);
      PerformAllBalanced(Perform(w, ops[0]).0, ops[1..], x, held);
    }
  }

  // ---- Conservation ----

  /** Over any run, re-entrant calls included, every registered resource is waiting
      in exactly one place of one stack or was released exactly once, and not both. */
  lemma Conservation(tape: seq<Reaction>, ops: seq<Op>, x: Id)
    ensures
      var w := PerformAll(Start(tape), ops);
      Waiting(w.stacks, x) + CountOf(w.released, x) == if x.n < w.next then 1 else 0
  {
    assert Balanced(Start(tape), x, 0);
    PerformAllBalanced(Start(tape), ops, x, 0);
  }

  /** Every resource is accounted for, `outer` being what disposals under way still
      have to release. */
  ghost predicate AllBalanced(w: World, outer: seq<Entry>) {
    forall x :: Balanced(w, x, CountOf(outer, x))
  }

  // ---- The log only grows ----

  lemma {:induction false} LogGrows(w: World, ops: seq<Op>)
    ensures w.released <= PerformAll(w, ops).released
    decreases |w.tape|, 4, |ops|
  {
    if ops != [] {
      if ops[0].Dispose? {
        DisposeGrows(w, ops[0].stack);
      }
      LogGrows(Perform(w, ops[0]).0, ops[1..]);
    }
  }

  lemma {:induction false} DisposeGrows(w: World, s: nat)
    ensures w.released <= DoDispose(w, s).0.released
    decreases |w.tape|, 2, 0
  {
    if s < |w.stacks| && w.stacks[s].phase.Pending? {
      var es := w.stacks[s].entries;
      ReleaseGrows(w.(stacks := w.stacks[s := Stack(Disposed, es)]), es, None);
    }
  }

  lemma {:induction false} ReleaseGrows(w: World, entries: seq<Entry>, completion: Option<Error>)
    ensures w.released <= Release(w, entries, completion).0.released
    decreases |w.tape|, 1, |entries|
  {
    if entries != [] {
      var (w1, thrown) := Call(w, entries[|entries| - 1]);
      CallGrows(w, entries[|entries| - 1]);
      ReleaseGrows(w1, entries[..|entries| - 1], if thrown.None? then completion else Merge(completion, thrown.value));
    }
  }

  lemma {:induction false} CallGrows(w: World, e: Entry)
    ensures w.released + [e] <= Call(w, e).0.released
    decreases |w.tape|, 0, 0
  {
    if w.tape != [] {
      LogGrows(w.(released := w.released + [e], tape := w.tape[1..]), w.tape[0].ops);
    }
  }

  // ---- Last in, first out ----

  /** The releases of certain resources in a log, in order. */
  function Only(log: seq<Entry>, ids: set<Id>): seq<Id> {
    if log == [] then []
    else Only(log[..|log| - 1], ids) + if log[|log| - 1].id in ids then [log[|log| - 1].id] else []
  }

  function Reversed(es: seq<Entry>): seq<Id> {
    if es == [] then [] else [es[|es| - 1].id] + Reversed(es[..|es| - 1])
  }

  function IdSet(es: seq<Entry>): set<Id> {
    set e | e in es :: e.id
  }

  lemma {:induction false} OnlyConcat(a: seq<Entry>, b: seq<Entry>, ids: set<Id>)
    ensures Only(a + b, ids) == Only(a, ids) + Only(b, ids)
    decreases |b|
  {
    if b == [] {
      assert a + b == a;
    } else {
      var t := b[..|b| - 1];
      assert (a + b)[..|a + b| - 1] == a + t;
      OnlyConcat(a, t, ids);
      var x := if b[|b| - 1].id in ids then [b[|b| - 1].id] else [];
      assert (Only(a, ids) + Only(t, ids)) + x == Only(a, ids) + (Only(t, ids) + x);
    }
  }

  lemma {:induction false} OnlyNone(log: seq<Entry>, ids: set<Id>)
    requires forall x :: x in ids ==> CountOf(log, x) == 0
    ensures Only(log, ids) == []
  {
    if log != [] {
      var e := log[|log| - 1];
      assert e.id in ids ==> CountOf(log, e.id) >= 1;
      OnlyNone(log[..|log| - 1], ids);
    }
  }

  lemma {:induction false} CountMember(es: seq<Entry>, x: Id)
    ensures CountOf(es, x) > 0 <==> x in IdSet(es)
  {
    if es != [] {
      var front, e := es[..|es| - 1], es[|es| - 1];
      assert es == front + [e];
      CountMember(front, x);
      assert x in IdSet(es) <==> x in IdSet(front) || x == e.id;
    }
  }

  /** While the entries of a stack are being released, each of them was released
      already or is still to come, and the account is balanced. */
  ghost predicate Underway(w: World, entries: seq<Entry>, ids: set<Id>, outer: seq<Entry>) {
    && (forall x :: Balanced(w, x, CountOf(outer, x) + CountOf(entries, x)))
    && (forall x :: x in ids ==> CountOf(w.released, x) + CountOf(entries, x) == 1)
    && IdSet(entries) <= ids
  }

  /** A call releases its own resource and none of the others of the stack. */
  lemma CallOrder(w: World, front: seq<Entry>, e: Entry, ids: set<Id>, outer: seq<Entry>)
    requires Underway(w, front + [e], ids, outer)
    ensures Underway(Call(w, e).0, front, ids, outer)
    ensures Only(Call(w, e).0.released, ids) == Only(w.released, ids) + [e.id]
  {
    hide Call, IdSet;
    var w1 := Call(w, e).0;
    forall x
      ensures Balanced(w1, x, CountOf(outer, x) + CountOf(front, x))
    {
      CountSnoc(front, e, x);
      CallBalanced(w, e, x, CountOf(outer, x) + CountOf(front, x));
    }
    CallGrows(w, e);
    var before := w.released + [e];
    var tail := w1.released[|before|..];
    assert w1.released == before + tail;
    forall x | x in ids
      ensures CountOf(tail, x) == 0 && CountOf(w1.released, x) + CountOf(front, x) == 1
    {
      CountSnoc(front, e, x);
      CountSnoc(w.released, e, x);
      CountConcat(before, tail, x);
      assert Balanced(w1, x, CountOf(outer, x) + CountOf(front, x));
    }
    OnlyNone(tail, ids);
    OnlyConcat(before, tail, ids);
    OnlyConcat(w.released, [e], ids);
    IdSetSnoc(front, e);
    OnlyOne(e, ids);
  }

  lemma IdSetSnoc(front: seq<Entry>, e: Entry)
    ensures e.id in IdSet(front + [e]) && IdSet(front) <= IdSet(front + [e])
  {
    assert (front + [e])[|front|] == e;
    assert forall f :: f in front ==> f in front + [e];
  }

  lemma OnlyOne(e: Entry, ids: set<Id>)
    requires e.id in ids
    ensures Only([e], ids) == [e.id]
  {
    assert [e][..0] == [];
  }

  lemma {:induction false} ReleaseOrder(w: World, entries: seq<Entry>, completion: Option<Error>, ids: set<Id>, outer: seq<Entry>)
    requires Underway(w, entries, ids, outer)
    ensures Only(Release(w, entries, completion).0.released, ids) == Only(w.released, ids) + Reversed(entries)
    decreases |w.tape|, |entries|
  {
    hide Underway, Call, Only;
    if entries == [] {
      assert Reversed(entries) == [];
    } else {
      var front, e := entries[..|entries| - 1], entries[|entries| - 1];
      assert entries == front + [e];
      CallOrder(w, front, e, ids, outer);
      var (w1, thrown) := Call(w, e);
      ReleaseOrder(w1, front, if thrown.None? then completion else Merge(completion, thrown.value), ids, outer);
      assert Only(w.released, ids) + [e.id] + Reversed(front) == Only(w.released, ids) + ([e.id] + Reversed(front));
    }
  }

  /** The releases of a stack's resources come last in, first out, each once. */
  ghost predicate Lifo(w: World, s: nat)
    requires s < |w.stacks|
  {
    var es := w.stacks[s].entries;
    Only(DoDispose(w, s).0.released, IdSet(es)) == Reversed(es)
  }

  lemma UnderwayAtStart(w: World, s: nat, outer: seq<Entry>)
    requires AllBalanced(w, outer) && s < |w.stacks| && w.stacks[s].phase.Pending?
    ensures
      var es := w.stacks[s].entries;
      Underway(w.(stacks := w.stacks[s := Stack(Disposed, es)]), es, IdSet(es), outer)
    ensures forall x :: x in IdSet(w.stacks[s].entries) ==> CountOf(w.released, x) == 0
  {
    hide Waiting, CountOf, IdSet;
    var es := w.stacks[s].entries;
    var w0 := w.(stacks := w.stacks[s := Stack(Disposed, es)]);
    forall x
      ensures Balanced(w0, x, CountOf(outer, x) + CountOf(es, x))
      ensures x in IdSet(es) ==> CountOf(w.released, x) == 0 && CountOf(es, x) == 1
    {
      assert Balanced(w, x, CountOf(outer, x));
      WaitingUpdate(w.stacks, s, Stack(Disposed, es), x);
      CountMember(es, x);
      WaitingBound(w.stacks, s, x);
    }
  }

  lemma {:induction false} WaitingBound(ss: seq<Stack>, i: nat, x: Id)
    requires i < |ss|
    ensures WaitingIn(ss[i], x) <= Waiting(ss, x)
  {
    hide CountOf;
    if i < |ss| - 1 {
      WaitingBound(ss[..|ss| - 1], i, x);
    }
  }

  /** Disposing of a stack is last in, first out, whatever the callbacks do or throw
      in between, also when it is called from the callback of another disposal. */
  lemma DisposeLifo(w: World, s: nat, outer: seq<Entry>)
    requires AllBalanced(w, outer) && s < |w.stacks| && w.stacks[s].phase.Pending?
    ensures Lifo(w, s)
  {
    hide Waiting, CountOf, Release, Only, Reversed, Underway, IdSet;
    var es := w.stacks[s].entries;
    UnderwayAtStart(w, s, outer);
    ReleaseOrder(w.(stacks := w.stacks[s := Stack(Disposed, es)]), es, None, IdSet(es), outer);
    OnlyNone(w.released, IdSet(es));
  }

  // ---- Every disposal of a run ----

  /** Every disposal that happens while a callback runs is last in, first out. */
  ghost predicate LifoInCall(w: World, e: Entry)
    decreases |w.tape|, 0, 0
  {
    w.tape != [] ==> LifoInRun(w.(released := w.released + [e], tape := w.tape[1..]), w.tape[0].ops)
  }

  ghost predicate LifoInRelease(w: World, entries: seq<Entry>, completion: Option<Error>)
    decreases |w.tape|, 1, |entries|
  {
    entries != [] ==>
      var (w1, thrown) := Call(w, entries[|entries| - 1]);
      && LifoInCall(w, entries[|entries| - 1])
      && LifoInRelease(w1, entries[..|entries| - 1], if thrown.None? then completion else Merge(completion, thrown.value))
  }

  /** A disposal and all that happen within it. */
  ghost predicate LifoInDispose(w: World, s: nat)
    decreases |w.tape|, 2, 0
  {
    s < |w.stacks| && w.stacks[s].phase.Pending? ==>
      && Lifo(w, s)
      && LifoInRelease(w.(stacks := w.stacks[s := Stack(Disposed, w.stacks[s].entries)]), w.stacks[s].entries, None)
  }

  ghost predicate LifoInRun(w: World, ops: seq<Op>)
    decreases |w.tape|, 4, |ops|
  {
    ops != [] ==>
      && (ops[0].Dispose? ==> LifoInDispose(w, ops[0].stack))
      && LifoInRun(Perform(w, ops[0]).0, ops[1..])
  }

  lemma {:induction false} CallIsLifo(w: World, e: Entry, outer: seq<Entry>)
    requires AllBalanced(w, outer + [e])
    ensures LifoInCall(w, e) && AllBalanced(Call(w, e).0, outer)
    decreases |w.tape|, 0, 0
  {
    hide Waiting, CountOf, LifoInRun, Call;
    forall x
      ensures Balanced(Call(w, e).0, x, CountOf(outer, x))
      ensures Balanced(w.(released := w.released + [e]), x, CountOf(outer, x))
    {
      assert Balanced(w, x, CountOf(outer + [e], x));
      CountSnoc(outer, e, x);
      CountSnoc(w.released, e, x);
      CallBalanced(w, e, x, CountOf(outer, x));
    }
    if w.tape != [] {
      var w1 := w.(released := w.released + [e], tape := w.tape[1..]);
      forall x
        ensures Balanced(w1, x, CountOf(outer, x))
      {
        assert Balanced(w.(released := w.released + [e]), x, CountOf(outer, x));
      }
      RunIsLifo(w1, w.tape[0].ops, outer);
    }
  }

  lemma {:induction false} ReleaseIsLifo(w: World, entries: seq<Entry>, completion: Option<Error>, outer: seq<Entry>)
    requires AllBalanced(w, outer + entries)
    ensures LifoInRelease(w, entries, completion)
    decreases |w.tape|, 1, |entries|
  {
    hide AllBalanced, Call, LifoInCall;
    if entries != [] {
      var front, e := entries[..|entries| - 1], entries[|entries| - 1];
      assert outer + entries == (outer + front) + [e];
      CallIsLifo(w, e, outer + front);
      var (w1, thrown) := Call(w, e);
      ReleaseIsLifo(w1, front, if thrown.None? then completion else Merge(completion, thrown.value), outer);
    }
  }

  lemma {:induction false} DisposeIsLifo(w: World, s: nat, outer: seq<Entry>)
    requires AllBalanced(w, outer)
    ensures LifoInDispose(w, s)
    decreases |w.tape|, 2, 0
  {
    hide LifoInRelease, Lifo, Balanced, IdSet;
    if s < |w.stacks| && w.stacks[s].phase.Pending? {
      var es := w.stacks[s].entries;
      var w0 := w.(stacks := w.stacks[s := Stack(Disposed, es)]);
      DisposeLifo(w, s, outer);
      UnderwayAtStart(w, s, outer);
      forall x
        ensures Balanced(w0, x, CountOf(outer + es, x))
      {
        CountConcat(outer, es, x);
        assert Balanced(w0, x, CountOf(outer, x) + CountOf(es, x));
      }
      ReleaseIsLifo(w0, es, None, outer);
    }
  }

  lemma {:induction false} RunIsLifo(w: World, ops: seq<Op>, outer: seq<Entry>)
    requires AllBalanced(w, outer)
    ensures LifoInRun(w, ops)
    decreases |w.tape|, 4, |ops|
  {
    hide Balanced, Perform, LifoInDispose;
    if ops != [] {
      if ops[0].Dispose? {
        DisposeIsLifo(w, ops[0].stack, outer);
      }
      forall x
        ensures Balanced(Perform(w, ops[0]).0, x, CountOf(outer, x))
      {
        PerformBalanced(w, ops[0], x, CountOf(outer, x));
      }
      RunIsLifo(Perform(w, ops[0]).0, ops[1..], outer);
    }
  }

  /** In every run every disposal is last in, first out, those called from callbacks
      included. */
  lemma EveryDisposalIsLifo(tape: seq<Reaction>, ops: seq<Op>)
    ensures LifoInRun(Start(tape), ops)
  {
    forall x
      ensures Balanced(Start(tape), x, CountOf([], x))
    {
      NoneOf(x);
    }
    RunIsLifo(Start(tape), ops, []);
  }

  lemma NoneOf(x: Id)
    ensures CountOf([], x) == 0
  {
  }

  // ---- Errors ----

  /** What the callbacks of some entries throw, in the order they are called. */
  function Thrown(w: World, entries: seq<Entry>): seq<Error>
    decreases |w.tape|, |entries|
  {
    if entries == [] then []
    else
      var (w1, thrown) := Call(w, entries[|entries| - 1]);
      (if thrown.None? then [] else [thrown.value]) + Thrown(w1, entries[..|entries| - 1])
  }

  /** Errors chained, each suppressing those before it. */
  function Chain(before: Option<Error>, es: seq<Error>): Option<Error>
    decreases |es|
  {
    if es == [] then before else Chain(Merge(before, es[0]), es[1..])
  }

  lemma {:induction false} ReleaseErrors(w: World, entries: seq<Entry>, completion: Option<Error>)
    ensures Release(w, entries, completion).1 == Chain(completion, Thrown(w, entries))
    decreases |w.tape|, |entries|
  {
    hide Call;
    if entries != [] {
      var (w1, thrown) := Call(w, entries[|entries| - 1]);
      var front := entries[..|entries| - 1];
      var c1 := if thrown.None? then completion else Merge(completion, thrown.value);
      ReleaseErrors(w1, front, c1);
      var rest := Thrown(w1, front);
      if thrown.None? {
        assert [] + rest == rest;
      } else {
        assert ([thrown.value] + rest)[0] == thrown.value && ([thrown.value] + rest)[1..] == rest;
      }
    }
  }

  /** All errors in a chain, the earliest first, chains within it taken apart. */
  function Flatten(e: Error): seq<Error> {
    match e
    case Plain(_) => [e]
    case Suppressed(error, suppressed) => Flatten(suppressed) + Flatten(error)
  }

  function FlattenAll(es: seq<Error>): seq<Error> {
    if es == [] then [] else Flatten(es[0]) + FlattenAll(es[1..])
  }

  lemma {:induction false} FlattenChain(before: Option<Error>, es: seq<Error>)
    requires before.Some? || es != []
    ensures
      var c := Chain(before, es);
      c.Some? && Flatten(c.value) == (if before.Some? then Flatten(before.value) else []) + FlattenAll(es)
    decreases |es|
  {
    if es != [] {
      FlattenChain(Merge(before, es[0]), es[1..]);
      var sofar, e, rest := if before.Some? then Flatten(before.value) else [], Flatten(es[0]), FlattenAll(es[1..]);
      assert (sofar + e) + rest == sofar + (e + rest);
    }
  }

  /** The errors along the chain of suppressed ones only. */
  function Spine(e: Error): (r: seq<Error>)
    ensures |r| >= 1
  {
    match e
    case Plain(_) => [e]
    case Suppressed(error, suppressed) => Spine(suppressed) + [error]
  }

  lemma {:induction false} SpineChain(before: Option<Error>, es: seq<Error>)
    requires before.Some? || es != []
    ensures
      var c := Chain(before, es);
      c.Some? && Spine(c.value) == if before.Some? then Spine(before.value) + es else Spine(es[0]) + es[1..]
    decreases |es|
  {
    if es != [] {
      SpineChain(Merge(before, es[0]), es[1..]);
      assert es == [es[0]] + es[1..];
    }
  }

  /** Dispose throws exactly when some callback threw.  Taken apart, the error it
      throws is the errors thrown, taken apart, in order; along the chain of suppressed
      errors it lists just the errors thrown exactly if the first of them is not itself
      a chain. */
  lemma DisposeErrors(w: World, s: nat)
    requires s < |w.stacks| && w.stacks[s].phase.Pending?
    ensures
      var es := w.stacks[s].entries;
      var thrown := Thrown(w.(stacks := w.stacks[s := Stack(Disposed, es)]), es);
      var r := DoDispose(w, s).1;
      && (r.Fine? <==> thrown == [])
      && (thrown != [] ==>
            && r.Threw? && Flatten(r.error) == FlattenAll(thrown)
            && (Spine(r.error) == thrown <==> thrown[0].Plain?))
  {
    hide Release, Thrown;
    var es := w.stacks[s].entries;
    var w0 := w.(stacks := w.stacks[s := Stack(Disposed, es)]);
    ReleaseErrors(w0, es, None);
    var thrown := Thrown(w0, es);
    ChainSome(None, thrown);
    if thrown != [] {
      FlattenChain(None, thrown);
      SpineChain(None, thrown);
      SpineOfFirst(thrown);
    }
  }

  lemma SpineOfFirst(es: seq<Error>)
    requires es != []
    ensures Spine(es[0]) + es[1..] == es <==> es[0].Plain?
  {
    assert es == [es[0]] + es[1..];
    if es[0].Suppressed? {
      assert |Spine(es[0])| >= 2;
    }
  }

  /** A callback that throws the chain of two errors, alone in its stack: the chain is
      thrown on, and along it there are two errors where one was thrown. */
  lemma RethrownChain(a: Error, b: Error)
    ensures
      var w := World([Stack(Pending, [Entry(Id(0), false)])], [Reaction([], Some(Suppressed(b, a)))], [], 1);
      DoDispose(w, 0).1 == Threw(Suppressed(b, a)) && Spine(Suppressed(b, a)) != [Suppressed(b, a)]
  {
    var es := [Entry(Id(0), false)];
    var w0 := World([Stack(Disposed, es)], [Reaction([], Some(Suppressed(b, a)))], [], 1);
    var w := w0.(stacks := [Stack(Pending, es)]);
    assert w.stacks[0 := Stack(Disposed, es)] == w0.stacks;
    assert es[..|es| - 1] == [];
    var (w1, thrown) := Call(w0, es[|es| - 1]);
    assert thrown == Some(Suppressed(b, a));
    assert Release(w0, es, None) == Release(w1, [], thrown);
    assert Release(w1, [], thrown).1 == thrown;
    assert |Spine(Suppressed(b, a))| >= 2;
  }

  lemma {:induction false} ChainSome(before: Option<Error>, es: seq<Error>)
    ensures Chain(before, es).None? <==> before.None? && es == []
    decreases |es|
  {
    if es != [] {
      ChainSome(Merge(before, es[0]), es[1..]);
    }
  }
}
