/** `detach_message`: a heap graph becomes a message. */
module MessageDetach {
  import opened Basics
  import opened MessageGraph

  datatype Result<+T> = Ok(value: T) | Err

  // ---- How often a buffer is met ----

  /** How often the depth-first search from v meets buffer b, with the objects of
      `stack` above it. */
  ghost function Meets(h: Heap, stack: set<Ref>, v: Value, b: Ref): nat
    decreases h.Keys - stack, 0, 0
  {
    if v.P? || v.ref !in h || v.ref in stack then 0 else MeetsIn(h, stack + {v.ref}, v.ref, b)
  }

  ghost function MeetsIn(h: Heap, stack: set<Ref>, r: Ref, b: Ref): nat
    requires r in h
    decreases h.Keys - stack, 2, 0
  {
    if h[r].Buffer? then (if r == b then 1 else 0) else MeetsAll(h, stack, KidsOf(h[r]), b)
  }

  ghost function MeetsAll(h: Heap, stack: set<Ref>, vals: seq<Value>, b: Ref): nat
    decreases h.Keys - stack, 1, |vals|
  {
    if vals == [] then 0
    else MeetsAll(h, stack, vals[..|vals| - 1], b) + Meets(h, stack, vals[|vals| - 1], b)
  }

  lemma {:induction false} MeetsGrow(h: Heap, stack: set<Ref>, vals: seq<Value>, n: nat, b: Ref)
    requires n <= |vals|
    ensures MeetsAll(h, stack, vals[..n], b) <= MeetsAll(h, stack, vals, b)
  {
    hide Meets;
    if n == |vals| {
      assert vals[..n] == vals;
    } else {
      var front := vals[..|vals| - 1];
      assert vals[..n] == front[..n];
      MeetsGrow(h, stack, front, n, b);
    }
  }

  lemma MeetsNext(h: Heap, stack: set<Ref>, vals: seq<Value>, i: nat, b: Ref)
    requires i < |vals|
    ensures MeetsAll(h, stack, vals[..i + 1], b) == MeetsAll(h, stack, vals[..i], b) + Meets(h, stack, vals[i], b)
  {
    hide Meets;
    assert vals[..i + 1][..i] == vals[..i];
  }

  // ---- Ways to a buffer ----

  /** Where the path of child positions leads from v. */
  ghost function Follow(h: Heap, v: Value, path: seq<nat>): Option<Value>
    decreases |path|
  {
    if path == [] then Some(v)
    else if v.Obj? && v.ref in h && path[0] < |KidsOf(h[v.ref])| then
      Follow(h, KidsOf(h[v.ref])[path[0]], path[1..])
    else None
  }

  ghost predicate Leads(h: Heap, v: Value, path: seq<nat>, b: Ref) {
    Follow(h, v, path) == Some(Obj(b))
  }

  ghost predicate Reaches(h: Heap, v: Value, b: Ref) {
    exists p :: Leads(h, v, p, b)
  }

  ghost predicate TwoWays(h: Heap, v: Value, b: Ref) {
    exists p, q :: p != q && Leads(h, v, p, b) && Leads(h, v, q, b)
  }

  /** Two of the children, or one twice. */
  lemma {:induction false} MeetsTwo(h: Heap, stack: set<Ref>, vals: seq<Value>, i: nat, j: nat, b: Ref)
    requires i <= j < |vals|
    ensures Meets(h, stack, vals[j], b) <= MeetsAll(h, stack, vals, b)
    ensures i < j ==> Meets(h, stack, vals[i], b) + Meets(h, stack, vals[j], b) <= MeetsAll(h, stack, vals, b)
  {
    hide Meets, MeetsAll;
    MeetsNext(h, stack, vals, j, b);
    MeetsGrow(h, stack, vals, j + 1, b);
    if i < j {
      MeetsNext(h, stack, vals, i, b);
      assert vals[..j][..i + 1] == vals[..i + 1];
      MeetsGrow(h, stack, vals[..j], i + 1, b);
    }
  }

  lemma {:induction false} MeetsFrom(h: Heap, stack: set<Ref>, vals: seq<Value>, b: Ref) returns (i: nat, j: nat)
    requires MeetsAll(h, stack, vals, b) > 0
    ensures i <= j < |vals| && Meets(h, stack, vals[i], b) > 0 && Meets(h, stack, vals[j], b) > 0
    ensures MeetsAll(h, stack, vals, b) >= 2 && i == j ==> Meets(h, stack, vals[i], b) >= 2
    decreases |vals|
  {
    hide Meets;
    var k := |vals| - 1;
    if MeetsAll(h, stack, vals[..k], b) > 0 {
      i, j := MeetsFrom(h, stack, vals[..k], b);
      if Meets(h, stack, vals[k], b) > 0 {
        j := k;
      }
    } else {
      i, j := k, k;
    }
  }

  /** A buffer that is met can be reached. */
  lemma {:induction false} MetIsReached(h: Heap, stack: set<Ref>, v: Value, b: Ref) returns (p: seq<nat>)
    requires Meets(h, stack, v, b) > 0
    ensures Leads(h, v, p, b)
    decreases h.Keys - stack
  {
    hide MeetsAll;
    if h[v.ref].Buffer? {
      p := [];
    } else {
      var kids := KidsOf(h[v.ref]);
      var i, j := MeetsFrom(h, stack + {v.ref}, kids, b);
      var q := MetIsReached(h, stack + {v.ref}, kids[i], b);
      p := [i] + q;
      assert p[1..] == q;
    }
  }

  lemma {:induction false} MetTwiceIsReachedTwice(h: Heap, stack: set<Ref>, v: Value, b: Ref)
    returns (p: seq<nat>, q: seq<nat>)
    requires Meets(h, stack, v, b) >= 2
    ensures p != q && Leads(h, v, p, b) && Leads(h, v, q, b)
    decreases h.Keys - stack
  {
    hide MeetsAll;
    var kids := KidsOf(h[v.ref]);
    var i, j := MeetsFrom(h, stack + {v.ref}, kids, b);
    if i == j {
      p, q := MetTwiceIsReachedTwice(h, stack + {v.ref}, kids[i], b);
    } else {
      p := MetIsReached(h, stack + {v.ref}, kids[i], b);
      q := MetIsReached(h, stack + {v.ref}, kids[j], b);
    }
    p, q := [i] + p, [j] + q;
    assert p[1..] != q[1..] || p[0] != q[0];
    assert Leads(h, kids[i], p[1..], b) && Leads(h, kids[j], q[1..], b);
  }

  lemma {:induction false} ReachedIsMet(h: Heap, stack: set<Ref>, v: Value, p: seq<nat>, b: Ref)
    requires !Fails(h, stack, v) && b in h && h[b].Buffer? && Leads(h, v, p, b)
    ensures Meets(h, stack, v, b) > 0
    decreases |p|
  {
    hide MeetsAll;
    if p != [] {
      var kids := KidsOf(h[v.ref]);
      ReachedIsMet(h, stack + {v.ref}, kids[p[0]], p[1..], b);
      MeetsTwo(h, stack + {v.ref}, kids, p[0], p[0], b);
    }
  }

  lemma {:induction false} ReachedTwiceIsMetTwice(h: Heap, stack: set<Ref>, v: Value, p: seq<nat>, q: seq<nat>, b: Ref)
    requires !Fails(h, stack, v) && b in h && h[b].Buffer?
    requires p != q && Leads(h, v, p, b) && Leads(h, v, q, b)
    ensures Meets(h, stack, v, b) >= 2
    decreases |p|
  {
    hide MeetsAll;
    assert p != [] && q != [];
    var kids := KidsOf(h[v.ref]);
    var stack' := stack + {v.ref};
    var i, j := p[0], q[0];
    assert p == [i] + p[1..] && q == [j] + q[1..];
    if i == j {
      ReachedTwiceIsMetTwice(h, stack', kids[i], p[1..], q[1..], b);
      MeetsTwo(h, stack', kids, i, i, b);
    } else {
      ReachedIsMet(h, stack', kids[i], p[1..], b);
      ReachedIsMet(h, stack', kids[j], q[1..], b);
      MeetsTwo(h, stack', kids, if i < j then i else j, if i < j then j else i, b);
    }
  }

  /** Where nothing is circular, a buffer is met when there is a way to it, and met
      twice when there are two. */
  lemma MetIffReached(h: Heap, v: Value, b: Ref)
    requires !Fails(h, {}, v) && b in h && h[b].Buffer?
    ensures Meets(h, {}, v, b) > 0 <==> Reaches(h, v, b)
    ensures Meets(h, {}, v, b) >= 2 <==> TwoWays(h, v, b)
  {
    hide Meets, Fails, Leads;
    if Meets(h, {}, v, b) > 0 {
      var p := MetIsReached(h, {}, v, b);
    }
    if Meets(h, {}, v, b) >= 2 {
      var p, q := MetTwiceIsReachedTwice(h, {}, v, b);
    }
    forall p | Leads(h, v, p, b)
      ensures Meets(h, {}, v, b) > 0
    {
      ReachedIsMet(h, {}, v, p, b);
    }
    forall p, q | p != q && Leads(h, v, p, b) && Leads(h, v, q, b)
      ensures Meets(h, {}, v, b) >= 2
    {
      ReachedTwiceIsMetTwice(h, {}, v, p, q, b);
    }
  }

  // ---- The walk, step by step ----

  /** A buffer with bytes is met, or the walk cannot go on: the object is above itself
      or cannot be cloned. */
  datatype Step = Meet(b: Ref) | Stuck

  /** All steps of the depth-first search from v, as if none of them ended it. */
  ghost function Walk(h: Heap, stack: set<Ref>, v: Value): seq<Step>
    decreases h.Keys - stack, 0, 0
  {
    if v.P? || v.ref !in h then []
    else if v.ref in stack then [Stuck]
    else WalkIn(h, stack + {v.ref}, v.ref)
  }

  ghost function WalkIn(h: Heap, stack: set<Ref>, r: Ref): seq<Step>
    requires r in h
    decreases h.Keys - stack, 2, 0
  {
    if Uncloneable(h[r]) then [Stuck]
    else if h[r].Buffer? then [Meet(r)]
    else WalkAll(h, stack, KidsOf(h[r]))
  }

  ghost function WalkAll(h: Heap, stack: set<Ref>, vals: seq<Value>): seq<Step>
    decreases h.Keys - stack, 1, |vals|
  {
    if vals == [] then []
    else WalkAll(h, stack, vals[..|vals| - 1]) + Walk(h, stack, vals[|vals| - 1])
  }

  lemma WalkNext(h: Heap, stack: set<Ref>, vals: seq<Value>, i: nat)
    requires i < |vals|
    ensures WalkAll(h, stack, vals[..i + 1]) == WalkAll(h, stack, vals[..i]) + Walk(h, stack, vals[i])
  {
    hide Walk;
    assert vals[..i + 1][..i] == vals[..i];
  }

  /** The buffers gone after the steps, or up to the one that ended the walk, and
      whether none did. */
  function Taken(gone: set<Ref>, transfer: set<Ref>, steps: seq<Step>): (set<Ref>, bool) {
    if steps == [] then (gone, true)
    else
      var (g, ok) := Taken(gone, transfer, steps[..|steps| - 1]);
      var step := steps[|steps| - 1];
      if !ok || step.Stuck? || step.b in g then (g, false)
      else (if step.b in transfer then g + {step.b} else g, true)
  }

  lemma {:induction false} TakenOn(gone: set<Ref>, transfer: set<Ref>, a: seq<Step>, b: seq<Step>)
    ensures
      var (g, ok) := Taken(gone, transfer, a);
      Taken(gone, transfer, a + b) == if ok then Taken(g, transfer, b) else (g, false)
    decreases |b|
  {
    if b == [] {
      assert a + b == a;
    } else {
      var front := b[..|b| - 1];
      TakenOn(gone, transfer, a, front);
      assert (a + b)[..|a + b| - 1] == a + front;
    }
  }

  /** Children after one that failed make no difference. */
  lemma {:induction false} TakenStops(gone: set<Ref>, transfer: set<Ref>, h: Heap, stack: set<Ref>, vals: seq<Value>, n: nat)
    requires n <= |vals| && !Taken(gone, transfer, WalkAll(h, stack, vals[..n])).1
    ensures Taken(gone, transfer, WalkAll(h, stack, vals)) == Taken(gone, transfer, WalkAll(h, stack, vals[..n]))
    decreases |vals| - n
  {
    hide Walk, WalkAll, Taken;
    if n == |vals| {
      assert vals[..n] == vals;
    } else {
      WalkNext(h, stack, vals, n);
      TakenOn(gone, transfer, WalkAll(h, stack, vals[..n]), Walk(h, stack, vals[n]));
      TakenStops(gone, transfer, h, stack, vals, n + 1);
    }
  }

  /** A step that ends the walk: one that cannot go on, or a second meeting of a buffer
      to be transferred. */
  predicate Fatal(steps: seq<Step>, transfer: set<Ref>, k: nat)
    requires k < |steps|
  {
    steps[k].Stuck? || (steps[k].b in transfer && steps[k] in steps[..k])
  }

  /** The first step that ends the walk; the number of steps if none does. */
  function FirstFatal(steps: seq<Step>, transfer: set<Ref>): (k: nat)
    ensures k <= |steps| && (k < |steps| ==> Fatal(steps, transfer, k))
    ensures forall j :: 0 <= j < k ==> !Fatal(steps, transfer, j)
  {
    if steps == [] then 0
    else
      var n := |steps| - 1;
      var k := FirstFatal(steps[..n], transfer);
      assert forall j :: 0 <= j < n ==> (Fatal(steps, transfer, j) <==> Fatal(steps[..n], transfer, j)) by {
        assert forall j :: 0 <= j < n ==> steps[..n][..j] == steps[..j];
      }
      if k < n then k else if Fatal(steps, transfer, n) then n else n + 1
  }

  /** What is gone in the end are the transferred buffers met before that step. */
  lemma {:induction false} TakenIsMet(transfer: set<Ref>, steps: seq<Step>)
    ensures
      var k := FirstFatal(steps, transfer);
      && (Taken({}, transfer, steps).1 <==> k == |steps|)
      && forall b :: b in Taken({}, transfer, steps).0 <==> b in transfer && Meet(b) in steps[..k]
  {
    if steps != [] {
      var n := |steps| - 1;
      TakenIsMet(transfer, steps[..n]);
      var k := FirstFatal(steps[..n], transfer);
      assert steps[..n][..k] == steps[..k];
      if k == n {
        assert steps[..n + 1] == steps[..n] + [steps[n]];
      }
    }
  }

  class Detacher {
    var heap: Heap
    var onStack: set<Ref>
    const transfer: set<Ref>

    constructor (h: Heap, t: set<Ref>)
      ensures heap == h && onStack == {} && transfer == t
    {
      heap, onStack, transfer := h, {}, t;
    }

    /** Nothing has changed since h0 but that buffers to be transferred are gone. */
    ghost predicate Since(h0: Heap)
      reads this
    {
      && heap.Keys == h0.Keys && onStack <= h0.Keys && Closed(h0)
      && forall r :: r in h0 ==>
           || heap[r] == h0[r]
           || (r in transfer && h0[r].Buffer? && h0[r].contents.Attached? && heap[r] == Buffer(Detached))
    }

    /** 1 for a buffer that has been transferred since h0. */
    ghost function Spent(h0: Heap, b: Ref): nat
      reads this
    {
      if b in heap && b in h0 && heap[b] != h0[b] then 1 else 0
    }

    /** The buffers transferred since h0. */
    ghost function Gone(h0: Heap): set<Ref>
      reads this`heap
    {
      set b | b in h0 && b in heap && heap[b] != h0[b]
    }

    /** Depth first, with the objects on the way remembered.  It succeeds exactly when
        nothing on the way is circular or cannot be cloned and no buffer is
        transferred twice; the transferred buffers it met, up to the step that
        failed if one did, are then gone. */
    method DetachValue(v: Value, ghost h0: Heap) returns (r: Result<Message>)
      requires Since(h0) && (v.Obj? ==> v.ref in h0)
      modifies this
      ensures Since(h0) && onStack == old(onStack)
      ensures r.Ok? ==> Shows(h0, v, r.value, 0)
      ensures r.Ok? <==>
                && !Fails(h0, onStack, v)
                && forall b :: b in transfer ==> old(Spent(h0, b)) + Meets(h0, onStack, v, b) <= 1
      ensures r.Ok? ==> forall b :: b in transfer ==> Spent(h0, b) == old(Spent(h0, b)) + Meets(h0, onStack, v, b)
      ensures (Gone(h0), r.Ok?) == Taken(old(Gone(h0)), transfer, Walk(h0, onStack, v))
      decreases h0.Keys - onStack, 0
    {
      hide Closed, MeetsIn, WalkIn, Gone;
      TakenFew(Gone(h0), transfer);
      if v.P? {
        return Ok(MLeaf(PrimMessage(v.prim)));
      }
      if v.ref in onStack {
        return Err;
      }
      onStack := onStack + {v.ref};
      r := DetachObject(v.ref, h0);
      onStack := onStack - {v.ref};
      assert onStack == old(onStack);
    }

    method DetachObject(ref: Ref, ghost h0: Heap) returns (r: Result<Message>)
      requires Since(h0) && ref in onStack
      modifies this
      ensures Since(h0) && onStack == old(onStack)
      ensures r.Ok? ==> Shows(h0, Obj(ref), r.value, 0)
      ensures r.Ok? <==>
                && !Uncloneable(h0[ref])
                && (forall i :: 0 <= i < |KidsOf(h0[ref])| ==> !Fails(h0, onStack, KidsOf(h0[ref])[i]))
                && forall b :: b in transfer ==> old(Spent(h0, b)) + MeetsIn(h0, onStack, ref, b) <= 1
      ensures r.Ok? ==> forall b :: b in transfer ==> Spent(h0, b) == old(Spent(h0, b)) + MeetsIn(h0, onStack, ref, b)
      ensures (Gone(h0), r.Ok?) == Taken(old(Gone(h0)), transfer, WalkIn(h0, onStack, ref))
      decreases h0.Keys - onStack, 2
    {
      hide Fails, MeetsAll, WalkAll, Taken, Gone;
      var src := heap[ref];
      TakenFew(Gone(h0), transfer);
      match src
      case Boxed(p) =>
        NoKids(h0, ref);
        return Ok(MLeaf(PrimMessage(p)));
      case Buffer(_) =>
        r := DetachBuffer(ref, h0);
      case Opaque => return Err;
      case Blank => return Err;
      case _ =>
        var kids := KidsOf(src);
        assert forall i :: 0 <= i < |kids| && kids[i].Obj? ==> kids[i].ref in h0;
        var ms := DetachAll(kids, h0);
        if ms.Err? {
          return Err;
        }
        r := Ok(MNode(TagOf(src), ms.value));
    }

    /** A buffer to be transferred gives up its bytes, any other is copied. */
    method DetachBuffer(ref: Ref, ghost h0: Heap) returns (r: Result<Message>)
      requires Since(h0) && ref in h0 && h0[ref].Buffer?
      modifies this`heap
      ensures Since(h0)
      ensures r.Ok? <==> old(heap)[ref] == h0[ref] && h0[ref].contents.Attached?
      ensures r.Ok? ==> r.value == MNode(BufferTag(h0[ref].contents.bytes), [])
      ensures heap == if r.Ok? && ref in transfer then old(heap)[ref := Buffer(Detached)] else old(heap)
      ensures (Gone(h0), r.Ok?) == Taken(old(Gone(h0)), transfer, WalkIn(h0, onStack, ref))
    {
      hide Taken;
      TakenFew(Gone(h0), transfer);
      TakenMeet(Gone(h0), transfer, ref);
      hide Closed;
      var contents := heap[ref].contents;
      if contents.Detached? {
        return Err;
      }
      if ref in transfer {
        heap := heap[ref := Buffer(Detached)];
        assert Gone(h0) == old(Gone(h0)) + {ref};
      }
      return Ok(MNode(BufferTag(contents.bytes), []));
    }

    method DetachAll(vals: seq<Value>, ghost h0: Heap) returns (r: Result<seq<Message>>)
      requires Since(h0) && forall i :: 0 <= i < |vals| && vals[i].Obj? ==> vals[i].ref in h0
      modifies this
      ensures Since(h0) && onStack == old(onStack)
      ensures r.Ok? ==> |r.value| == |vals|
      ensures r.Ok? ==> forall i :: 0 <= i < |vals| ==> Shows(h0, vals[i], r.value[i], 0)
      ensures r.Ok? <==>
                && (forall i :: 0 <= i < |vals| ==> !Fails(h0, onStack, vals[i]))
                && forall b :: b in transfer ==> old(Spent(h0, b)) + MeetsAll(h0, onStack, vals, b) <= 1
      ensures r.Ok? ==> forall b :: b in transfer ==> Spent(h0, b) == old(Spent(h0, b)) + MeetsAll(h0, onStack, vals, b)
      ensures (Gone(h0), r.Ok?) == Taken(old(Gone(h0)), transfer, WalkAll(h0, onStack, vals))
      decreases h0.Keys - onStack, 1
    {
      hide Fails, Shows, Closed, Meets, MeetsAll, Spent, Walk, WalkAll, Taken, Gone;
      TakenFew(Gone(h0), transfer);
      ghost var gone := Gone(h0);
      var ms: seq<Message> := [];
      var i := 0;
      MeetsNone(h0, onStack, vals);
      SpentOnce(h0);
      while i < |vals|
        invariant i == |ms| <= |vals| && Since(h0) && onStack == old(onStack)
        invariant forall j :: 0 <= j < i ==> Shows(h0, vals[j], ms[j], 0)
        invariant forall j :: 0 <= j < i ==> !Fails(h0, onStack, vals[j])
        invariant forall b :: b in transfer ==> Spent(h0, b) == old(Spent(h0, b)) + MeetsAll(h0, onStack, vals[..i], b)
        invariant (Gone(h0), true) == Taken(gone, transfer, WalkAll(h0, onStack, vals[..i]))
      {
        forall b
          ensures MeetsAll(h0, onStack, vals[..i + 1], b) == MeetsAll(h0, onStack, vals[..i], b) + Meets(h0, onStack, vals[i], b)
          ensures MeetsAll(h0, onStack, vals[..i + 1], b) <= MeetsAll(h0, onStack, vals, b)
        {
          MeetsNext(h0, onStack, vals, i, b);
          MeetsGrow(h0, onStack, vals, i + 1, b);
        }
        WalkNext(h0, onStack, vals, i);
        TakenOn(gone, transfer, WalkAll(h0, onStack, vals[..i]), Walk(h0, onStack, vals[i]));
        var m := DetachValue(vals[i], h0);
        if m.Err? {
          TakenStops(gone, transfer, h0, onStack, vals, i + 1);
          return Err;
        }
        ms := ms + [m.value];
        i := i + 1;
      }
      assert vals[..i] == vals;
      SpentOnce(h0);
      return Ok(ms);
    }

    lemma GoneIs(h0: Heap)
      requires Since(h0)
      ensures forall b :: b in Gone(h0) <==> b in h0 && heap[b] != h0[b]
    {
    }

    lemma SpentOnce(h0: Heap)
      ensures forall b :: Spent(h0, b) <= 1
    {
    }
  }

  lemma NoKids(h: Heap, r: Ref)
    requires r in h && h[r].Boxed?
    ensures KidsOf(h[r]) == [] && forall stack, b :: MeetsIn(h, stack, r, b) == 0
    ensures forall stack :: WalkIn(h, stack, r) == []
  {
  }

  lemma TakenFew(gone: set<Ref>, transfer: set<Ref>)
    ensures Taken(gone, transfer, []) == (gone, true)
    ensures Taken(gone, transfer, [Stuck]) == (gone, false)
  {
    assert [Stuck][..0] == [];
  }

  lemma TakenMeet(gone: set<Ref>, transfer: set<Ref>, b: Ref)
    ensures Taken(gone, transfer, [Meet(b)])
         == if b in gone then (gone, false) else (if b in transfer then gone + {b} else gone, true)
  {
    assert [Meet(b)][..0] == [];
  }

  lemma MeetsNone(h: Heap, stack: set<Ref>, vals: seq<Value>)
    ensures forall b :: MeetsAll(h, stack, vals[..0], b) == 0
    ensures WalkAll(h, stack, vals[..0]) == []
  {
  }

  lemma {:induction false} OnlyBuffersMet(h: Heap, stack: set<Ref>, v: Value, b: Ref)
    requires Meets(h, stack, v, b) > 0
    ensures b in h && h[b].Buffer?
    decreases h.Keys - stack
  {
    hide MeetsAll;
    if !h[v.ref].Buffer? {
      var i, j := MeetsFrom(h, stack + {v.ref}, KidsOf(h[v.ref]), b);
      OnlyBuffersMet(h, stack + {v.ref}, KidsOf(h[v.ref])[i], b);
    }
  }

  /** detach_message fails exactly when a cycle or something that cannot be cloned
      can be reached or there are two ways to a buffer to be transferred.  Otherwise
      it gives the unfolding, and exactly the transferred buffers that can be reached
      are detached.  In either case the buffers detached are those to be transferred
      that were met before the first step that ended the walk. */
  method DetachMessage(h: Heap, v: Value, transfer: set<Ref>) returns (r: Result<Message>, h': Heap)
    requires Closed(h) && (v.Obj? ==> v.ref in h)
    ensures r.Ok? ==> Shows(h, v, r.value, 0)
    ensures r.Err? <==>
              || (v.Obj? && exists p :: BadPath(h, {}, p) && p[0] == v.ref)
              || exists b :: b in transfer && b in h && h[b].Buffer? && TwoWays(h, v, b)
    ensures h'.Keys == h.Keys
    ensures
      var steps := Walk(h, {}, v);
      var k := FirstFatal(steps, transfer);
      && (r.Ok? <==> k == |steps|)
      && forall b :: b in h ==>
           h'[b] == if b in transfer && Meet(b) in steps[..k] then Buffer(Detached) else h[b]
    ensures r.Ok? ==> forall b :: b in h ==>
              h'[b] == if b in transfer && h[b].Buffer? && Reaches(h, v, b) then Buffer(Detached) else h[b]
  {
    hide Closed, Meets, Fails, BadPath, TwoWays, Reaches, Walk, Taken, FirstFatal;
    var d := new Detacher(h, transfer);
    assert d.Gone(h) == {};
    r := d.DetachValue(v, h);
    h' := d.heap;
    TakenIsMet(transfer, Walk(h, {}, v));
    d.GoneIs(h);
    assert d.Gone(h) == Taken({}, transfer, Walk(h, {}, v)).0;
    if v.Obj? {
      FailsIffPath(h, v.ref);
    } else {
      NeverFails(h, v);
    }
    if !Fails(h, {}, v) {
      forall b: Ref
        ensures Meets(h, {}, v, b) > 0 <==> b in h && h[b].Buffer? && Reaches(h, v, b)
        ensures Meets(h, {}, v, b) >= 2 <==> b in h && h[b].Buffer? && TwoWays(h, v, b)
      {
        if Meets(h, {}, v, b) > 0 {
          OnlyBuffersMet(h, {}, v, b);
        }
        if b in h && h[b].Buffer? {
          MetIffReached(h, v, b);
        }
      }
    }
  }

  lemma NeverFails(h: Heap, v: Value)
    requires v.P?
    ensures !Fails(h, {}, v)
  {
  }
}
