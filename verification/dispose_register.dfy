/** What registering means: which operations do it, what they answer, and that the
    resource is released in its own way. */
module DisposeRegister {
  import opened Basics
  import opened DisposeWorld
  import opened DisposeLaws

  // ---- Answers ----

  /** Operations that are to register a resource. */
  predicate Registers(op: Op) {
    match op
    case Use(_, a) => a.Resource?
    case Adopt(_, callable) => callable
    case Defer(_, callable) => callable
    case _ => false
  }

  /** Operations that no stack accepts: `use` of something else than an object with a
      callable method, nothing at all aside, and callbacks that cannot be called. */
  predicate Refused(op: Op) {
    match op
    case Use(_, a) => a.Primitive? || a.NoMethod?
    case Adopt(_, callable) => !callable
    case Defer(_, callable) => !callable
    case _ => false
  }

  /** What each operation but `dispose` answers.  Whatever is refused changes nothing. */
  lemma Answers(w: World, op: Op)
    requires !op.New? && !op.Dispose?
    ensures
      var there := op.stack < |w.stacks|;
      var (w', r) := Perform(w, op);
      && (r == ReferenceError <==> there && w.stacks[op.stack].phase.Disposed?)
      && (r == TypeError <==> !there || (w.stacks[op.stack].phase.Pending? && Refused(op)))
      && !r.Threw?
      && (r != Fine || (!Registers(op) && !op.Move?) ==> w' == w)
      && (w'.next == w.next + if Registers(op) && r.Fine? then 1 else 0)
  {
  }

  /** Disposing of a stack a second time does nothing. */
  lemma DisposedAlready(w: World, s: nat)
    requires s < |w.stacks| && w.stacks[s].phase.Disposed?
    ensures Perform(w, Dispose(s)) == (w, Fine)
  {
  }

  // ---- Registered, then released ----

  /** Only `adopt` passes the resource as an argument. */
  function EntryOf(w: World, op: Op): Entry {
    Entry(Id(w.next), op.Adopt?)
  }

  /** A resource just registered is the next to be released when its stack is disposed
      of, in the way of the operation, once, and those before it follow last in, first
      out. */
  lemma RegisteredIsReleased(w: World, op: Op, outer: seq<Entry>)
    requires AllBalanced(w, outer)
    requires Registers(op) && op.stack < |w.stacks| && w.stacks[op.stack].phase.Pending?
    ensures
      var w1 := Perform(w, op).0;
      var w2 := Perform(w1, Dispose(op.stack)).0;
      && Perform(w, op).1 == Fine
      && w.released + [EntryOf(w, op)] <= w2.released
      && CountOf(w2.released, Id(w.next)) == 1
      && Only(w2.released, IdSet(w.stacks[op.stack].entries) + {Id(w.next)})
         == [Id(w.next)] + Reversed(w.stacks[op.stack].entries)
  {
    hide DoDispose, AllBalanced, CountOf, Only, IdSet, Reversed;
    var s, e := op.stack, EntryOf(w, op);
    assert Perform(w, op) == (Push(w, s, op.Adopt?), Fine);
    var w2 := DoDispose(Push(w, s, op.Adopt?), s).0;
    PushedFirst(w, s, op.Adopt?);
    ReleasedAtMostOnce(w, op, outer);
    CountGrows(w.released, e, w2.released);
    PushedLifo(w, s, op.Adopt?, outer);
  }

  lemma PushedFirst(w: World, s: nat, argStyle: bool)
    requires s < |w.stacks| && w.stacks[s].phase.Pending?
    ensures w.released + [Entry(Id(w.next), argStyle)] <= DoDispose(Push(w, s, argStyle), s).0.released
  {
    hide Release;
    var es, e := w.stacks[s].entries, Entry(Id(w.next), argStyle);
    var w1 := Push(w, s, argStyle);
    assert w1.stacks[s] == Stack(Pending, es + [e]);
    ReleaseFirst(w1.(stacks := w1.stacks[s := Stack(Disposed, es + [e])]), es, e);
  }

  lemma PushedLifo(w: World, s: nat, argStyle: bool, outer: seq<Entry>)
    requires AllBalanced(w, outer) && s < |w.stacks| && w.stacks[s].phase.Pending?
    ensures
      var es, x := w.stacks[s].entries, Id(w.next);
      Only(DoDispose(Push(w, s, argStyle), s).0.released, IdSet(es) + {x}) == [x] + Reversed(es)
  {
    hide DoDispose, Balanced, CountOf, Only, IdSet, Reversed;
    var es, e := w.stacks[s].entries, Entry(Id(w.next), argStyle);
    var w1 := Push(w, s, argStyle);
    forall x
      ensures Balanced(w1, x, CountOf(outer, x))
    {
      PushBalanced(w, s, argStyle, x, CountOf(outer, x));
    }
    assert w1.stacks[s] == Stack(Pending, es + [e]);
    DisposeLifo(w1, s, outer);
    IdSetPush(es, e);
    ReversedPush(es, e);
  }

  lemma IdSetPush(es: seq<Entry>, e: Entry)
    ensures IdSet(es + [e]) == IdSet(es) + {e.id}
  {
    assert forall f :: f in es + [e] <==> f in es || f == e;
  }

  lemma ReversedPush(es: seq<Entry>, e: Entry)
    ensures Reversed(es + [e]) == [e.id] + Reversed(es)
  {
    assert (es + [e])[..|es|] == es;
  }

  /** What a moved stack held is released in the same order by the new stack; the old
      one is disposed of and empty. */
  lemma MovedIsReleased(w: World, s: nat, outer: seq<Entry>)
    requires AllBalanced(w, outer) && s < |w.stacks| && w.stacks[s].phase.Pending?
    ensures
      var es := w.stacks[s].entries;
      var (w1, r) := Perform(w, Move(s));
      && r == Fine && w1.stacks[s] == Stack(Disposed, [])
      && Only(Perform(w1, Dispose(|w.stacks|)).0.released, IdSet(es)) == Reversed(es)
  {
    hide DoDispose, Balanced;
    var w1 := DoMove(w, s).0;
    forall x
      ensures Balanced(w1, x, CountOf(outer, x))
    {
      MoveBalanced(w, s, x, CountOf(outer, x));
    }
    DisposeLifo(w1, |w.stacks|, outer);
  }

  /** A new stack takes resources; one that was disposed of is empty and takes none. */
  lemma NewThenDisposed(w: World, s: nat, op: Op)
    requires Registers(op)
    ensures op.stack == |w.stacks| ==> Perform(Perform(w, New).0, op).1 == Fine
    ensures s < |w.stacks| && w.stacks[s].phase.Pending? ==>
              s < |DoDispose(w, s).0.stacks| && DoDispose(w, s).0.stacks[s] == Stack(Disposed, [])
    ensures s < |w.stacks| && op.stack == s ==> Perform(DoDispose(w, s).0, op).1 == ReferenceError
  {
    hide Release;
    if s < |w.stacks| && w.stacks[s].phase.Pending? {
      var es := w.stacks[s].entries;
      FrozenRelease(w.(stacks := w.stacks[s := Stack(Disposed, es)]), es, None);
    }
  }

  lemma ReleaseFirst(w: World, es: seq<Entry>, e: Entry)
    ensures w.released + [e] <= Release(w, es + [e], None).0.released
  {
    hide Call;
    var all := es + [e];
    assert all[..|all| - 1] == es && all[|all| - 1] == e;
    var (w1, thrown) := Call(w, e);
    CallGrows(w, e);
    ReleaseGrows(w1, es, if thrown.None? then None else Merge(None, thrown.value));
  }

  lemma CountGrows(a: seq<Entry>, e: Entry, b: seq<Entry>)
    requires a + [e] <= b
    ensures CountOf(b, e.id) >= 1
  {
    hide CountOf;
    CountSnoc(a, e, e.id);
    CountConcat(a + [e], b[|a| + 1..], e.id);
    assert b == (a + [e]) + b[|a| + 1..];
  }

  lemma ReleasedAtMostOnce(w: World, op: Op, outer: seq<Entry>)
    requires AllBalanced(w, outer) && !op.New?
    ensures CountOf(Perform(Perform(w, op).0, Dispose(op.stack)).0.released, Id(w.next)) <= 1
  {
    hide Perform, CountOf;
    var x := Id(w.next);
    assert Balanced(w, x, CountOf(outer, x));
    PerformBalanced(w, op, x, CountOf(outer, x));
    PerformBalanced(Perform(w, op).0, Dispose(op.stack), x, CountOf(outer, x));
  }

  // ---- Over whole runs ----

  /** The styles of the resources registered by an operation and by the callbacks it
      runs, in the order they are registered. */
  function StylesOf(w: World, op: Op): seq<bool>
    decreases |w.tape|, 3, 0
  {
    if op.Dispose? then DisposeStyles(w, op.stack)
    else if Registers(op) && Perform(w, op).1.Fine? then [op.Adopt?]
    else []
  }

  function RunStyles(w: World, ops: seq<Op>): seq<bool>
    decreases |w.tape|, 4, |ops|
  {
    if ops == [] then [] else StylesOf(w, ops[0]) + RunStyles(Perform(w, ops[0]).0, ops[1..])
  }

  function CallStyles(w: World, e: Entry): seq<bool>
    decreases |w.tape|, 0, 0
  {
    if w.tape == [] then []
    else RunStyles(w.(released := w.released + [e], tape := w.tape[1..]), w.tape[0].ops)
  }

  function ReleaseStyles(w: World, entries: seq<Entry>): seq<bool>
    decreases |w.tape|, 1, |entries|
  {
    if entries == [] then []
    else
      var e := entries[|entries| - 1];
      CallStyles(w, e) + ReleaseStyles(Call(w, e).0, entries[..|entries| - 1])
  }

  function DisposeStyles(w: World, s: nat): seq<bool>
    decreases |w.tape|, 2, 0
  {
    if s >= |w.stacks| || !w.stacks[s].phase.Pending? then []
    else
      var es := w.stacks[s].entries;
      ReleaseStyles(w.(stacks := w.stacks[s := Stack(Disposed, es)]), es)
  }

  /** The n-th resource ever registered has the n-th style, wherever it is. */
  predicate Styled(es: seq<Entry>, styles: seq<bool>) {
    forall i :: 0 <= i < |es| ==> es[i].id.n < |styles| && es[i].argStyle == styles[es[i].id.n]
  }

  predicate AllStyled(w: World, styles: seq<bool>) {
    && w.next == |styles|
    && Styled(w.released, styles)
    && forall s :: 0 <= s < |w.stacks| ==> Styled(w.stacks[s].entries, styles)
  }

  lemma StyledMore(es: seq<Entry>, styles: seq<bool>, more: seq<bool>)
    requires Styled(es, styles)
    ensures Styled(es, styles + more)
  {
  }

  lemma {:induction false} CallStyled(w: World, e: Entry, held: seq<Entry>, styles: seq<bool>)
    requires AllStyled(w, styles) && Styled(held, styles) && Styled([e], styles)
    ensures
      var after := styles + CallStyles(w, e);
      AllStyled(Call(w, e).0, after) && Styled(held, after)
    decreases |w.tape|, 0, 0
  {
    assert e == [e][0];
    var w1 := w.(released := w.released + [e]);
    assert AllStyled(w1, styles);
    if w.tape == [] {
      assert styles + [] == styles;
    } else {
      RunStyled(w1.(tape := w.tape[1..]), w.tape[0].ops, held, styles);
    }
  }

  lemma {:induction false} ReleaseStyled(w: World, es: seq<Entry>, completion: Option<Error>, held: seq<Entry>, styles: seq<bool>)
    requires AllStyled(w, styles) && Styled(held, styles) && Styled(es, styles)
    ensures
      var after := styles + ReleaseStyles(w, es);
      AllStyled(Release(w, es, completion).0, after) && Styled(held, after)
    decreases |w.tape|, 1, |es|
  {
    hide AllStyled, Call, CallStyles;
    if es == [] {
      assert styles + [] == styles;
    } else {
      var front, e := es[..|es| - 1], es[|es| - 1];
      assert [e][0] == e;
      assert forall i :: 0 <= i < |front| ==> front[i] == es[i];
      CallStyled(w, e, held + front, styles);
      var after := styles + CallStyles(w, e);
      assert forall i :: 0 <= i < |held| ==> (held + front)[i] == held[i];
      assert forall i :: 0 <= i < |front| ==> (held + front)[|held| + i] == front[i];
      var (w1, thrown) := Call(w, e);
      ReleaseStyled(w1, front, if thrown.None? then completion else Merge(completion, thrown.value), held, after);
      assert after + ReleaseStyles(w1, front) == styles + (CallStyles(w, e) + ReleaseStyles(w1, front));
    }
  }

  lemma {:induction false} DisposeStyled(w: World, s: nat, held: seq<Entry>, styles: seq<bool>)
    requires AllStyled(w, styles) && Styled(held, styles)
    ensures
      var after := styles + DisposeStyles(w, s);
      AllStyled(DoDispose(w, s).0, after) && Styled(held, after)
    decreases |w.tape|, 2, 0
  {
    hide Release, ReleaseStyles;
    if s >= |w.stacks| || !w.stacks[s].phase.Pending? {
      assert styles + [] == styles;
    } else {
      var es := w.stacks[s].entries;
      ReleaseStyled(w.(stacks := w.stacks[s := Stack(Disposed, es)]), es, None, held, styles);
    }
  }

  lemma {:induction false} PerformStyled(w: World, op: Op, held: seq<Entry>, styles: seq<bool>)
    requires AllStyled(w, styles) && Styled(held, styles)
    ensures
      var after := styles + StylesOf(w, op);
      AllStyled(Perform(w, op).0, after) && Styled(held, after)
    decreases |w.tape|, 3, 0
  {
    if op.Dispose? {
      hide AllStyled, Styled, DoDispose, DisposeStyles;
      DisposeStyled(w, op.stack, held, styles);
    } else if op.Move? || op.New? {
      assert styles + [] == styles;
    } else if Registers(op) && Perform(w, op).1.Fine? {
      var after := styles + [op.Adopt?];
      assert Styled(held, after) && Styled(w.released, after);
      forall i | 0 <= i < |w.stacks|
        ensures Styled(w.stacks[i].entries, after)
      {
        StyledMore(w.stacks[i].entries, styles, [op.Adopt?]);
      }
      assert Perform(w, op).0 == Push(w, op.stack, op.Adopt?);
    } else {
      assert styles + [] == styles;
    }
  }

  lemma {:induction false} RunStyled(w: World, ops: seq<Op>, held: seq<Entry>, styles: seq<bool>)
    requires AllStyled(w, styles) && Styled(held, styles)
    ensures
      var after := styles + RunStyles(w, ops);
      AllStyled(PerformAll(w, ops), after) && Styled(held, after)
    decreases |w.tape|, 4, |ops|
  {
    hide AllStyled, Styled, Perform, StylesOf;
    if ops == [] {
      assert styles + [] == styles;
    } else {
      PerformStyled(w, ops[0], held, styles);
      var w1 := Perform(w, ops[0]).0;
      var after := styles + StylesOf(w, ops[0]);
      RunStyled(w1, ops[1..], held, after);
      assert after + RunStyles(w1, ops[1..]) == styles + (StylesOf(w, ops[0]) + RunStyles(w1, ops[1..]));
    }
  }

  /** Over any run, callbacks included, as many resources are registered as operations
      that register answered that all is fine, and wherever the n-th of them is, in a
      stack or released, it is there with the style of the n-th operation. */
  lemma EveryRegistration(tape: seq<Reaction>, ops: seq<Op>)
    ensures
      var w, styles := PerformAll(Start(tape), ops), RunStyles(Start(tape), ops);
      w.next == |styles| && AllStyled(w, styles)
  {
    hide RunStyles, PerformAll;
    RunStyled(Start(tape), ops, [], []);
    assert [] + RunStyles(Start(tape), ops) == RunStyles(Start(tape), ops);
  }
}
