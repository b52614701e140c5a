/** The stacks of a realm, changed in place. */
module DisposeObject {
  import opened Basics
  import opened DisposeWorld
  import opened DisposeLaws

  class Realm {
    var stacks: seq<Stack>
    var tape: seq<Reaction>
    var released: seq<Entry>
    var next: nat

    function Now(): World
      reads this
    {
      World(stacks, tape, released, next)
    }

    constructor (t: seq<Reaction>)
      ensures Now() == Start(t)
    {
      stacks, tape, released, next := [], t, [], 0;
    }

    method Use(s: nat, a: Argument) returns (r: Outcome)
      modifies this
      ensures (Now(), r) == DoUse(old(Now()), s, a)
    {
      if s >= |stacks| {
        return TypeError;
      }
      if !stacks[s].phase.Pending? {
        return ReferenceError;
      }
      if a.Nullish? {
        return Fine;
      }
      if a.Primitive? || a.NoMethod? {
        return TypeError;
      }
      stacks := stacks[s := stacks[s].(entries := stacks[s].entries + [Entry(Id(next), false)])];
      next := next + 1;
      return Fine;
    }

    /** Adopt and defer, which differ in how the callback will be called. */
    method Add(s: nat, callable: bool, argStyle: bool) returns (r: Outcome)
      modifies this
      ensures (Now(), r) == DoCallback(old(Now()), s, callable, argStyle)
    {
      if s >= |stacks| {
        return TypeError;
      }
      if !stacks[s].phase.Pending? {
        return ReferenceError;
      }
      if !callable {
        return TypeError;
      }
      stacks := stacks[s := stacks[s].(entries := stacks[s].entries + [Entry(Id(next), argStyle)])];
      next := next + 1;
      return Fine;
    }

    method Move(s: nat) returns (r: Outcome)
      modifies this
      ensures (Now(), r) == DoMove(old(Now()), s)
    {
      if s >= |stacks| {
        return TypeError;
      }
      if !stacks[s].phase.Pending? {
        return ReferenceError;
      }
      var taken := stacks[s].entries;
      stacks := stacks[s := stacks[s].(entries := [])];
      stacks := stacks + [Stack(Pending, taken)];
      stacks := stacks[s := stacks[s].(phase := Disposed)];
      assert stacks == old(stacks)[s := Stack(Disposed, [])] + [Stack(Pending, taken)];
      return Fine;
    }

    /** The callback runs, and with it whatever it does to stacks. */
    method CallEntry(e: Entry) returns (thrown: Option<Error>)
      modifies this
      ensures (Now(), thrown) == Call(old(Now()), e)
      decreases |tape|, 0, 0
    {
      released := released + [e];
      if tape == [] {
        return None;
      }
      var reaction := tape[0];
      tape := tape[1..];
      Perform(reaction.ops);
      return reaction.throws;
    }

    /** The stack is marked disposed before the first callback, so that nothing can be
        added while they run from the last to the first. */
    method Dispose(s: nat) returns (r: Outcome)
      modifies this
      ensures (Now(), r) == DoDispose(old(Now()), s)
      decreases |tape|, 2, 0
    {
      hide DisposeWorld.Call, DisposeWorld.Release;
      if s >= |stacks| {
        return TypeError;
      }
      if !stacks[s].phase.Pending? {
        return Fine;
      }
      stacks := stacks[s := stacks[s].(phase := Disposed)];
      ghost var w0 := Now();
      ghost var es := stacks[s].entries;
      var completion: Option<Error> := None;
      var k := |stacks[s].entries|;
      assert es[..k] == es;
      while k > 0
        invariant 0 <= k <= |es| && s < |stacks| && stacks[s] == Stack(Disposed, es)
        invariant |tape| <= |w0.tape|
        invariant Release(w0, es, None) == Release(Now(), es[..k], completion)
        decreases k
      {
        ghost var w := Now();
        var e := stacks[s].entries[k - 1];
        ReleaseStep(w, es[..k], completion);
        assert es[..k][..k - 1] == es[..k - 1];
        FrozenCall(w, e);
        var thrown := CallEntry(e);
        if thrown.Some? {
          completion := Merge(completion, thrown.value);
        }
        k := k - 1;
      }
      ReleaseNothing(Now(), es[..k], completion);
      stacks := stacks[s := stacks[s].(entries := [])];
      return if completion.None? then Fine else Threw(completion.value);
    }

    method Perform(ops: seq<Op>)
      modifies this
      ensures Now() == PerformAll(old(Now()), ops)
      decreases |tape|, 4, |ops|
    {
      hide DoDispose;
      var i := 0;
      assert ops[0..] == ops;
      while i < |ops|
        invariant i <= |ops| && |tape| <= |old(tape)|
        invariant PerformAll(old(Now()), ops) == PerformAll(Now(), ops[i..])
      {
        assert ops[i..][0] == ops[i] && ops[i..][1..] == ops[i + 1..];
        ghost var w := Now();
        match ops[i] {
          case New => stacks := stacks + [Stack(Pending, [])];
          case Use(s, a) => var _ := Use(s, a);
          case Adopt(s, callable) => var _ := Add(s, callable, true);
          case Defer(s, callable) => var _ := Add(s, callable, false);
          case Move(s) => var _ := Move(s);
          case Dispose(s) => var _ := Dispose(s);
        }
        assert Now() == DisposeWorld.Perform(w, ops[i]).0;
        i := i + 1;
      }
    }
  }

  lemma ReleaseStep(w: World, es: seq<Entry>, completion: Option<Error>)
    requires es != []
    ensures
      var (w1, thrown) := DisposeWorld.Call(w, es[|es| - 1]);
      Release(w, es, completion)
      == Release(w1, es[..|es| - 1], if thrown.None? then completion else Merge(completion, thrown.value))
  {
  }

  lemma ReleaseNothing(w: World, es: seq<Entry>, completion: Option<Error>)
    requires es == []
    ensures Release(w, es, completion) == (w, completion)
  {
  }
}
