/** Disposable stacks and the callbacks they run. */
module DisposeWorld {
  import opened Basics

  /** A registered resource. */
  datatype Id = Id(n: nat)

  /** How its callback is called: with the resource as receiver, or as argument. */
  datatype Entry = Entry(id: Id, argStyle: bool)

  datatype Phase = Pending | Disposed

  /** A stack and the resources it will release, in the order they came. */
  datatype Stack = Stack(phase: Phase, entries: seq<Entry>)

  datatype Error = Plain(n: nat) | Suppressed(error: Error, suppressed: Error)

  /** What `use` is given: nothing to dispose, no object, an object without a
      callable method, or a resource. */
  datatype Argument = Nullish | Primitive | NoMethod | Resource

  datatype Op =
    | New
    | Use(stack: nat, argument: Argument)
    | Adopt(stack: nat, callable: bool)
    | Defer(stack: nat, callable: bool)
    | Move(stack: nat)
    | Dispose(stack: nat)

  /** What a callback does when called: some operations, and perhaps it throws. */
  datatype Reaction = Reaction(ops: seq<Op>, throws: Option<Error>)

  /** All stacks, the reactions still to come, the resources released so far in
      order, and how many were ever registered. */
  datatype World = World(stacks: seq<Stack>, tape: seq<Reaction>, released: seq<Entry>, next: nat)

  datatype Outcome = Fine | TypeError | ReferenceError | Threw(error: Error)

  // ---- Registering and moving ----

  function Push(w: World, s: nat, argStyle: bool): World
    requires s < |w.stacks|
  {
    var st := w.stacks[s];
    w.(stacks := w.stacks[s := st.(entries := st.entries + [Entry(Id(w.next), argStyle)])], next := w.next + 1)
  }

  function DoUse(w: World, s: nat, a: Argument): (World, Outcome) {
    if s >= |w.stacks| then (w, TypeError)
    else if !w.stacks[s].phase.Pending? then (w, ReferenceError)
    else match a
      case Nullish => (w, Fine)
      case Primitive => (w, TypeError)
      case NoMethod => (w, TypeError)
      case Resource => (Push(w, s, false), Fine)
  }

  /** Adopting takes the resource as argument of the callback, deferring has none. */
  function DoCallback(w: World, s: nat, callable: bool, argStyle: bool): (World, Outcome) {
    if s >= |w.stacks| then (w, TypeError)
    else if !w.stacks[s].phase.Pending? then (w, ReferenceError)
    else if !callable then (w, TypeError)
    else (Push(w, s, argStyle), Fine)
  }

  /** Everything goes to a new stack, and the old one counts as disposed. */
  function DoMove(w: World, s: nat): (World, Outcome) {
    if s >= |w.stacks| then (w, TypeError)
    else if !w.stacks[s].phase.Pending? then (w, ReferenceError)
    else (w.(stacks := w.stacks[s := Stack(Disposed, [])] + [Stack(Pending, w.stacks[s].entries)]), Fine)
  }

  // ---- Disposing ----

  /** The error of a callback joined to those before it. */
  function Merge(before: Option<Error>, e: Error): Option<Error> {
    Some(if before.None? then e else Suppressed(e, before.value))
  }

  /** A callback is called: its resource counts as released, it does what it does,
      and perhaps throws. */
  function Call(w: World, e: Entry): (r: (World, Option<Error>))
    ensures |r.0.tape| <= |w.tape|
    decreases |w.tape|, 0, 0
  {
    var w1 := w.(released := w.released + [e]);
    if w.tape == [] then (w1, None)
    else (PerformAll(w1.(tape := w.tape[1..]), w.tape[0].ops), w.tape[0].throws)
  }

  /** The callbacks from the last to the first, whatever they throw. */
  function Release(w: World, entries: seq<Entry>, completion: Option<Error>): (r: (World, Option<Error>))
    ensures |r.0.tape| <= |w.tape|
    decreases |w.tape|, 1, |entries|
  {
    if entries == [] then (w, completion)
    else
      var (w1, thrown) := Call(w, entries[|entries| - 1]);
      Release(w1, entries[..|entries| - 1], if thrown.None? then completion else Merge(completion, thrown.value))
  }

  function DoDispose(w: World, s: nat): (r: (World, Outcome))
    ensures |r.0.tape| <= |w.tape|
    decreases |w.tape|, 2, 0
  {
    if s >= |w.stacks| then (w, TypeError)
    else if !w.stacks[s].phase.Pending? then (w, Fine)
    else
      var es := w.stacks[s].entries;
      var (w1, completion) := Release(w.(stacks := w.stacks[s := Stack(Disposed, es)]), es, None);
      var w2 := if s < |w1.stacks| then w1.(stacks := w1.stacks[s := w1.stacks[s].(entries := [])]) else w1;
      (w2, if completion.None? then Fine else Threw(completion.value))
  }

  function Perform(w: World, op: Op): (r: (World, Outcome))
    ensures |r.0.tape| <= |w.tape|
    decreases |w.tape|, 3, 0
  {
    match op
    case New => (w.(stacks := w.stacks + [Stack(Pending, [])]), Fine)
    case Use(s, a) => DoUse(w, s, a)
    case Adopt(s, callable) => DoCallback(w, s, callable, true)
    case Defer(s, callable) => DoCallback(w, s, callable, false)
    case Move(s) => DoMove(w, s)
    case Dispose(s) => DoDispose(w, s)
  }

  function PerformAll(w: World, ops: seq<Op>): (r: World)
    ensures |r.tape| <= |w.tape|
    decreases |w.tape|, 4, |ops|
  {
    if ops == [] then w else PerformAll(Perform(w, ops[0]).0, ops[1..])
  }

  function Start(tape: seq<Reaction>): World {
    World([], tape, [], 0)
  }
}
