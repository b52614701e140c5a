/** Heap graphs and the trees that messages are. */
module MessageGraph {
  import opened Basics

  datatype Ref = Ref(id: nat)

  /** Doubles: -0, whole numbers, and all others. */
  datatype Double = MinusZero | Whole(n: int) | Other(bits: nat)

  /** Primitives as the engine represents them: a number is an integer of 32 bits or
      a double. */
  datatype Prim = Undefined | Null | Boolean(b: bool) | Int(i: int) | Float(d: Double) | String(units: seq<nat>) | BigInt(big: int)

  datatype Value = P(prim: Prim) | Obj(ref: Ref)

  datatype Contents = Attached(bytes: seq<nat>) | Detached

  datatype Prop = Prop(key: string, enumerable: bool, value: Value)

  /** What kind of container a node is, with whatever it holds besides values.  The
      values of a Map are its keys and values in turn. */
  datatype Tag =
    | ArrayTag
    | ObjectTag(keys: seq<string>)
    | MapTag
    | SetTag
    | DateTag(time: Double)
    | RegExpTag(source: string, flags: string)
    | ErrorTag(name: string, message: Option<string>, hasCause: bool)
    | BufferTag(bytes: seq<nat>)

  /** `Opaque` stands for everything that cannot be cloned, `Blank` for an object
      that is being filled. */
  datatype Object =
    | Node(tag: Tag, kids: seq<Value>)
    | Plain(props: seq<Prop>)
    | Boxed(prim: Prim)
    | Buffer(contents: Contents)
    | Opaque
    | Blank

  type Heap = map<Ref, Object>

  /** Only enumerable properties travel. */
  function Visible(props: seq<Prop>): seq<Prop> {
    if props == [] then [] else (if props[0].enumerable then [props[0]] else []) + Visible(props[1..])
  }

  /** The positions of the enumerable properties among the first n. */
  function Enumerable(props: seq<Prop>, n: nat): (r: seq<nat>)
    requires n <= |props|
    ensures forall k :: 0 <= k < |r| ==> r[k] < n
  {
    if n == 0 then [] else Enumerable(props, n - 1) + if props[n - 1].enumerable then [n - 1] else []
  }

  /** In order, all of them, and no others. */
  lemma {:induction false} EnumerableFacts(props: seq<Prop>, n: nat)
    requires n <= |props|
    ensures forall j, k :: 0 <= j < k < |Enumerable(props, n)| ==> Enumerable(props, n)[j] < Enumerable(props, n)[k]
    ensures forall i :: 0 <= i < n ==> (i in Enumerable(props, n) <==> props[i].enumerable)
  {
    if n > 0 {
      EnumerableFacts(props, n - 1);
    }
  }

  function Picked(props: seq<Prop>, at: seq<nat>): seq<Prop>
    requires forall k :: 0 <= k < |at| ==> at[k] < |props|
  {
    seq(|at|, k requires 0 <= k < |at| => props[at[k]])
  }

  lemma {:induction false} VisibleSnoc(props: seq<Prop>, p: Prop)
    ensures Visible(props + [p]) == Visible(props) + if p.enumerable then [p] else []
  {
    if props == [] {
      assert props + [p] == [p] && [p][1..] == [];
    } else {
      assert (props + [p])[1..] == props[1..] + [p];
      VisibleSnoc(props[1..], p);
    }
  }

  lemma {:induction false} VisibleIsPicked(props: seq<Prop>, n: nat)
    requires n <= |props|
    ensures Visible(props[..n]) == Picked(props, Enumerable(props, n))
  {
    if n > 0 {
      VisibleIsPicked(props, n - 1);
      hide Visible;
      assert props[..n] == props[..n - 1] + [props[n - 1]];
      VisibleSnoc(props[..n - 1], props[n - 1]);
    }
  }

  /** A plain object unfolds to its enumerable properties and no others, in order, each
      key with its own value. */
  lemma PlainUnfolds(props: seq<Prop>)
    ensures
      var o, at := Plain(props), Enumerable(props, |props|);
      && |TagOf(o).keys| == |KidsOf(o)| == |at|
      && (forall k :: 0 <= k < |at| ==> TagOf(o).keys[k] == props[at[k]].key && KidsOf(o)[k] == props[at[k]].value)
      && (forall j, k :: 0 <= j < k < |at| ==> at[j] < at[k])
      && forall i :: 0 <= i < |props| ==> (i in at <==> props[i].enumerable)
  {
    hide Visible, Enumerable;
    VisibleIsPicked(props, |props|);
    EnumerableFacts(props, |props|);
    assert props[..|props|] == props;
  }

  function KidsOf(o: Object): seq<Value> {
    match o
    case Node(_, kids) => kids
    case Plain(props) => var vs := Visible(props); seq(|vs|, i requires 0 <= i < |vs| => vs[i].value)
    case _ => []
  }

  function TagOf(o: Object): Tag
    requires o.Node? || o.Plain?
  {
    match o
    case Node(tag, _) => tag
    case Plain(props) => var vs := Visible(props); ObjectTag(seq(|vs|, i requires 0 <= i < |vs| => vs[i].key))
  }

  /** Every reference leads somewhere. */
  ghost predicate Closed(h: Heap) {
    forall r, i :: r in h && 0 <= i < |KidsOf(h[r])| && KidsOf(h[r])[i].Obj? ==> KidsOf(h[r])[i].ref in h
  }

  // ---- Messages ----

  datatype MPrim = MUndefined | MNull | MBoolean(b: bool) | MNumber(d: Double) | MString(units: seq<nat>) | MBigInt(big: int)

  datatype Message = MLeaf(prim: MPrim) | MNode(tag: Tag, kids: seq<Message>)

  function PrimMessage(p: Prim): MPrim {
    match p
    case Undefined => MUndefined
    case Null => MNull
    case Boolean(b) => MBoolean(b)
    case Int(i) => MNumber(Whole(i))
    case Float(d) => MNumber(d)
    case String(u) => MString(u)
    case BigInt(b) => MBigInt(b)
  }

  /** The message is the unfolding of the value into a tree; boxes count as what they
      hold.  All references met are numbered from `lo` on. */
  ghost predicate Shows(h: Heap, v: Value, m: Message, lo: nat)
    decreases m
  {
    match v
    case P(p) => m == MLeaf(PrimMessage(p))
    case Obj(r) =>
      && r in h && lo <= r.id
      && match h[r]
         case Boxed(p) => m == MLeaf(PrimMessage(p))
         case Buffer(c) => c.Attached? && m == MNode(BufferTag(c.bytes), [])
         case Opaque => false
         case Blank => false
         case _ =>
           && m.MNode? && m.tag == TagOf(h[r]) && |m.kids| == |KidsOf(h[r])|
           && forall i :: 0 <= i < |m.kids| ==> Shows(h, KidsOf(h[r])[i], m.kids[i], lo)
  }

  /** A value has at most one unfolding. */
  lemma {:induction false} UnfoldingUnique(h: Heap, v: Value, m1: Message, m2: Message, lo1: nat, lo2: nat)
    requires Shows(h, v, m1, lo1) && Shows(h, v, m2, lo2)
    ensures m1 == m2
    decreases m1
  {
    if v.Obj? && (h[v.ref].Node? || h[v.ref].Plain?) {
      var kids := KidsOf(h[v.ref]);
      forall i | 0 <= i < |kids|
        ensures m1.kids[i] == m2.kids[i]
      {
        UnfoldingUnique(h, kids[i], m1.kids[i], m2.kids[i], lo1, lo2);
      }
      assert m1.kids == m2.kids;
    }
  }

  /** A later heap keeps every finished object of an earlier one. */
  ghost predicate Extends(h: Heap, h': Heap) {
    forall r :: r in h ==> r in h' && (h[r].Blank? || h'[r] == h[r])
  }

  lemma {:induction false} ShowsLater(h: Heap, h': Heap, v: Value, m: Message, lo: nat)
    requires Shows(h, v, m, lo) && Extends(h, h')
    ensures Shows(h', v, m, lo)
    decreases m
  {
    if v.Obj? && (h[v.ref].Node? || h[v.ref].Plain?) {
      var kids := KidsOf(h[v.ref]);
      assert h'[v.ref] == h[v.ref];
      forall i | 0 <= i < |kids|
        ensures Shows(h', kids[i], m.kids[i], lo)
      {
        ShowsLater(h, h', kids[i], m.kids[i], lo);
      }
    }
  }

  lemma {:induction false} ShowsLower(h: Heap, v: Value, m: Message, lo: nat, lo': nat)
    requires Shows(h, v, m, lo) && lo' <= lo
    ensures Shows(h, v, m, lo')
    decreases m
  {
    if v.Obj? && (h[v.ref].Node? || h[v.ref].Plain?) {
      var kids := KidsOf(h[v.ref]);
      forall i | 0 <= i < |kids|
        ensures Shows(h, kids[i], m.kids[i], lo')
      {
        ShowsLower(h, kids[i], m.kids[i], lo, lo');
      }
    }
  }

  // ---- What cannot be unfolded ----

  predicate Uncloneable(o: Object) {
    o.Opaque? || o.Blank? || (o.Buffer? && o.contents.Detached?)
  }

  /** The depth-first search from v, with the objects of `stack` above it, meets one
      of them again or something that cannot be cloned. */
  ghost predicate Fails(h: Heap, stack: set<Ref>, v: Value)
    decreases h.Keys - stack
  {
    && v.Obj? && v.ref in h
    && (|| v.ref in stack
        || Uncloneable(h[v.ref])
        || exists i :: 0 <= i < |KidsOf(h[v.ref])| && Fails(h, stack + {v.ref}, KidsOf(h[v.ref])[i]))
  }

  predicate Edge(h: Heap, a: Ref, b: Ref) {
    a in h && Obj(b) in KidsOf(h[a])
  }

  /** A path along references that ends at an object of `stack`, at one it has been at
      before, or at one that cannot be cloned. */
  ghost predicate BadPath(h: Heap, stack: set<Ref>, p: seq<Ref>) {
    && p != []
    && (forall i :: 0 <= i < |p| ==> p[i] in h)
    && (forall i :: 0 <= i < |p| - 1 ==> Edge(h, p[i], p[i + 1]))
    && (p[|p| - 1] in stack || p[|p| - 1] in p[..|p| - 1] || Uncloneable(h[p[|p| - 1]]))
  }

  lemma {:induction false} FailsToPath(h: Heap, stack: set<Ref>, r: Ref) returns (p: seq<Ref>)
    requires Fails(h, stack, Obj(r))
    ensures BadPath(h, stack, p) && p[0] == r
    decreases h.Keys - stack
  {
    if r in stack || Uncloneable(h[r]) {
      p := [r];
    } else {
      var kids := KidsOf(h[r]);
      var i :| 0 <= i < |kids| && Fails(h, stack + {r}, kids[i]);
      var q := FailsToPath(h, stack + {r}, kids[i].ref);
      p := [r] + q;
      assert Edge(h, r, q[0]);
      forall j | 0 <= j < |p| - 1
        ensures Edge(h, p[j], p[j + 1])
      {
        if j > 0 {
          assert Edge(h, q[j - 1], q[j]);
        }
      }
      assert p[..|p| - 1] == [r] + q[..|q| - 1];
    }
  }

  lemma {:induction false} PathToFails(h: Heap, stack: set<Ref>, p: seq<Ref>)
    requires BadPath(h, stack, p)
    ensures Fails(h, stack, Obj(p[0]))
    decreases h.Keys - stack
  {
    var r := p[0];
    if r !in stack && !Uncloneable(h[r]) {
      var q := p[1..];
      assert Edge(h, p[0], p[1]);
      var kids := KidsOf(h[r]);
      var i :| 0 <= i < |kids| && kids[i] == Obj(q[0]);
      forall j | 0 <= j < |q| - 1
        ensures Edge(h, q[j], q[j + 1])
      {
        assert Edge(h, p[j + 1], p[j + 2]);
      }
      assert p[..|p| - 1] == [r] + q[..|q| - 1];
      PathToFails(h, stack + {r}, q);
    }
  }

  /** The search fails exactly when a cycle or something that cannot be cloned can be
      reached. */
  lemma FailsIffPath(h: Heap, r: Ref)
    requires r in h
    ensures Fails(h, {}, Obj(r)) <==> exists p :: BadPath(h, {}, p) && p[0] == r
  {
    if Fails(h, {}, Obj(r)) {
      var p := FailsToPath(h, {}, r);
    }
    forall p | BadPath(h, {}, p) && p[0] == r
      ensures Fails(h, {}, Obj(r))
    {
      PathToFails(h, {}, p);
    }
  }

  // ---- What can be unfolded ----

  function Size(m: Message): (n: nat)
    ensures n > 0
  {
    match m
    case MLeaf(_) => 1
    case MNode(_, kids) => 1 + Sizes(kids)
  }

  function Sizes(ms: seq<Message>): nat {
    if ms == [] then 0 else Size(ms[0]) + Sizes(ms[1..])
  }

  lemma {:induction false} SizeOfKid(ms: seq<Message>, i: nat)
    requires i < |ms|
    ensures Size(ms[i]) <= Sizes(ms)
  {
    if i > 0 {
      SizeOfKid(ms[1..], i - 1);
    }
  }

  ghost predicate Linked(h: Heap, p: seq<Ref>) {
    forall i :: 0 <= i < |p| - 1 ==> Edge(h, p[i], p[i + 1])
  }

  lemma LinkedPart(h: Heap, p: seq<Ref>, a: nat, b: nat)
    requires Linked(h, p) && a <= b <= |p|
    ensures Linked(h, p[a..b])
  {
    var q := p[a..b];
    forall i | 0 <= i < |q| - 1
      ensures Edge(h, q[i], q[i + 1])
    {
      assert Edge(h, p[a + i], p[a + i + 1]);
    }
  }

  /** Following references from a value that unfolds leads to smaller unfoldings. */
  lemma {:induction false} AlongPath(h: Heap, p: seq<Ref>, m: Message) returns (m': Message)
    requires p != [] && Linked(h, p) && Shows(h, Obj(p[0]), m, 0)
    ensures Shows(h, Obj(p[|p| - 1]), m', 0)
    ensures Size(m') <= Size(m) && (|p| > 1 ==> Size(m') < Size(m))
  {
    if |p| == 1 {
      m' := m;
    } else {
      assert Edge(h, p[0], p[1]);
      var kids := KidsOf(h[p[0]]);
      var i :| 0 <= i < |kids| && kids[i] == Obj(p[1]);
      SizeOfKid(m.kids, i);
      LinkedPart(h, p, 1, |p|);
      m' := AlongPath(h, p[1..], m.kids[i]);
    }
  }

  /** So a value that unfolds reaches no cycle and nothing that cannot be cloned. */
  lemma UnfoldsWithoutFailing(h: Heap, r: Ref, m: Message)
    requires Shows(h, Obj(r), m, 0)
    ensures !Fails(h, {}, Obj(r))
  {
    if Fails(h, {}, Obj(r)) {
      var p := FailsToPath(h, {}, r);
      NoBadPath(h, p, m);
    }
  }

  lemma NoBadPath(h: Heap, p: seq<Ref>, m: Message)
    requires p != [] && (forall i :: 0 <= i < |p| ==> p[i] in h) && Shows(h, Obj(p[0]), m, 0)
    ensures !BadPath(h, {}, p)
  {
    if Linked(h, p) {
      var end := AlongPath(h, p, m);
      if p[|p| - 1] in p[..|p| - 1] {
        var j :| 0 <= j < |p| - 1 && p[j] == p[|p| - 1];
        NoLoop(h, p, j, m);
      }
    }
  }

  lemma NoLoop(h: Heap, p: seq<Ref>, j: nat, m: Message)
    requires j < |p| - 1 && Linked(h, p) && Shows(h, Obj(p[0]), m, 0)
    ensures p[j] != p[|p| - 1]
  {
    hide Shows, Linked, Size;
    LinkedPart(h, p, 0, j + 1);
    LinkedPart(h, p, j, |p|);
    var m1 := AlongPath(h, p[0..j + 1], m);
    var m2 := AlongPath(h, p[j..|p|], m1);
    if p[j] == p[|p| - 1] {
      UnfoldingUnique(h, Obj(p[j]), m1, m2, 0, 0);
    }
  }
}
