/** `rehydrate_message`: a message becomes new objects. */
module MessageRehydrate {
  import opened Basics
  import opened MessageGraph
  import opened MessageDetach

  // ---- Numbers ----

  const I32_MIN: int := -0x8000_0000
  const I32_MAX: int := 0x7FFF_FFFF

  /** Whole numbers within 32 bits become integers, and so does -0. */
  function NumberToJs(d: Double): Prim {
    match d
    case MinusZero => Int(0)
    case Whole(n) => if I32_MIN <= n <= I32_MAX then Int(n) else Float(d)
    case Other(_) => Float(d)
  }

  function PrimOf(p: MPrim): Prim {
    match p
    case MUndefined => Undefined
    case MNull => Null
    case MBoolean(b) => Boolean(b)
    case MNumber(d) => NumberToJs(d)
    case MString(u) => String(u)
    case MBigInt(b) => BigInt(b)
  }

  /** A primitive with -0 taken as 0, which is also how keys are compared. */
  function Unsigned(p: MPrim): MPrim {
    if p == MNumber(MinusZero) then MNumber(Whole(0)) else p
  }

  lemma PrimBack(p: MPrim)
    ensures PrimMessage(PrimOf(p)) == Unsigned(p)
  {
  }

  ghost predicate HasMinusZero(m: Message) {
    match m
    case MLeaf(p) => p == MNumber(MinusZero)
    case MNode(_, kids) => exists i :: 0 <= i < |kids| && HasMinusZero(kids[i])
  }

  // ---- Errors ----

  const ERROR_NAMES: set<string> :=
    {"EvalError", "RangeError", "ReferenceError", "SyntaxError", "TypeError", "URIError", "Error"}

  /** The prototype of a new error is chosen by name, Error's for all other names; the
      name itself is not stored. */
  function ErrorName(name: string): string {
    if name == "EvalError" then "EvalError"
    else if name == "RangeError" then "RangeError"
    else if name == "ReferenceError" then "ReferenceError"
    else if name == "SyntaxError" then "SyntaxError"
    else if name == "TypeError" then "TypeError"
    else if name == "URIError" then "URIError"
    else "Error"
  }

  /** The tag of the object made for a node. */
  function NewTag(tag: Tag): Tag {
    if tag.ErrorTag? then tag.(name := ErrorName(tag.name)) else tag
  }

  /** An error in the message has a name of its own. */
  ghost predicate HasOtherErrorName(m: Message) {
    && m.MNode?
    && (|| (m.tag.ErrorTag? && m.tag.name !in ERROR_NAMES)
        || exists i :: 0 <= i < |m.kids| && HasOtherErrorName(m.kids[i]))
  }

  lemma NewTagIff(tag: Tag)
    ensures NewTag(tag) == tag <==> !(tag.ErrorTag? && tag.name !in ERROR_NAMES)
  {
  }

  // ---- Keys ----

  predicate SameKey(a: Value, b: Value) {
    if a.P? && b.P? then Unsigned(PrimMessage(a.prim)) == Unsigned(PrimMessage(b.prim)) else a == b
  }

  predicate SameMessageKey(a: Message, b: Message) {
    a.MLeaf? && b.MLeaf? && Unsigned(a.prim) == Unsigned(b.prim)
  }

  /** How far apart the keys are among the values of a container. */
  function Stride(tag: Tag): nat {
    if tag.MapTag? then 2 else if tag.SetTag? then 1 else 0
  }

  predicate IsKey(tag: Tag, i: nat) {
    Stride(tag) > 0 && i % Stride(tag) == 0
  }

  /** No Map or Set in the message has the same key twice. */
  ghost predicate KeysDistinct(m: Message) {
    m.MNode? ==>
      && |m.kids| % (if m.tag.MapTag? then 2 else 1) == 0
      && (forall i, j :: 0 <= i < j < |m.kids| && IsKey(m.tag, i) && IsKey(m.tag, j) ==>
            !SameMessageKey(m.kids[i], m.kids[j]))
      && forall i :: 0 <= i < |m.kids| ==> KeysDistinct(m.kids[i])
  }

  /** Inserting a key and its values: an equal key keeps its place and takes the new
      value. */
  function Put<T>(kids: seq<T>, entry: seq<T>, same: (T, T) -> bool): seq<T>
    requires entry != []
    decreases |kids|
  {
    if |kids| < |entry| then kids + entry
    else if same(kids[0], entry[0]) then [kids[0]] + entry[1..] + kids[|entry|..]
    else kids[..|entry|] + Put(kids[|entry|..], entry, same)
  }

  /** Inserting the entries of a list one after the other, n values an entry. */
  function PutAll<T>(kids: seq<T>, vals: seq<T>, n: nat, same: (T, T) -> bool): seq<T>
    requires n > 0
    decreases |vals|
  {
    if |vals| < n then kids else PutAll(Put(kids, vals[..n], same), vals[n..], n, same)
  }

  /** The values of a new container. */
  function Filled<T>(tag: Tag, vals: seq<T>, same: (T, T) -> bool): seq<T> {
    if Stride(tag) == 0 then vals else PutAll([], vals, Stride(tag), same)
  }

  /** What a message becomes: -0 is 0, errors have standard names, and of equal keys
      the first keeps its place with the value of the last. */
  function Normal(m: Message): Message {
    match m
    case MLeaf(p) => MLeaf(Unsigned(p))
    case MNode(tag, kids) => MNode(NewTag(tag), Filled(tag, Normals(kids), SameMessageKey))
  }

  function Normals(ms: seq<Message>): (r: seq<Message>)
    ensures |r| == |ms| && forall i :: 0 <= i < |ms| ==> r[i] == Normal(ms[i])
  {
    if ms == [] then [] else [Normal(ms[0])] + Normals(ms[1..])
  }

  // ---- Distinct keys stay ----

  /** The key of the entry is among the keys of the container. */
  ghost predicate HasKey<T(!new)>(kids: seq<T>, key: T, n: nat, same: (T, T) -> bool)
    requires n > 0
  {
    exists i :: 0 <= i < |kids| && i % n == 0 && same(kids[i], key)
  }

  ghost predicate NoSameKey<T(!new)>(vals: seq<T>, n: nat, same: (T, T) -> bool)
    requires n > 0
  {
    |vals| % n == 0 &&
    forall i, j :: 0 <= i < j < |vals| && i % n == 0 && j % n == 0 ==> !same(vals[i], vals[j])
  }

  lemma HasKeyRest<T(!new)>(kids: seq<T>, key: T, n: nat, same: (T, T) -> bool)
    requires 1 <= n <= 2 && |kids| >= n && |kids| % n == 0
    ensures |kids[n..]| % n == 0
    ensures HasKey(kids, key, n, same) <==> same(kids[0], key) || HasKey(kids[n..], key, n, same)
  {
    var rest := kids[n..];
    if HasKey(rest, key, n, same) {
      var i :| 0 <= i < |rest| && i % n == 0 && same(rest[i], key);
      assert kids[i + n] == rest[i] && (i + n) % n == 0;
    }
    if HasKey(kids, key, n, same) && !same(kids[0], key) {
      var i :| 0 <= i < |kids| && i % n == 0 && same(kids[i], key);
      assert i >= n && kids[i] == rest[i - n] && (i - n) % n == 0;
    }
    assert 0 % n == 0;
  }

  /** A new key is added at the end; an old one adds nothing. */
  lemma {:induction false} PutGrows<T(!new)>(kids: seq<T>, entry: seq<T>, same: (T, T) -> bool)
    requires 1 <= |entry| <= 2 && |kids| % |entry| == 0
    ensures HasKey(kids, entry[0], |entry|, same) ==> |Put(kids, entry, same)| == |kids|
    ensures !HasKey(kids, entry[0], |entry|, same) ==> Put(kids, entry, same) == kids + entry
    decreases |kids|
  {
    hide HasKey;
    var n := |entry|;
    if |kids| < n {
      assert kids == [];
      EmptyHasNoKey(entry[0], n, same);
    } else {
      HasKeyRest(kids, entry[0], n, same);
      PutGrows(kids[n..], entry, same);
      assert kids == kids[..n] + kids[n..];
    }
  }

  lemma EmptyHasNoKey<T(!new)>(key: T, n: nat, same: (T, T) -> bool)
    requires n > 0
    ensures !HasKey([], key, n, same)
  {
  }

  lemma {:induction false} PutAllBound<T(!new)>(kids: seq<T>, vals: seq<T>, n: nat, same: (T, T) -> bool)
    requires 1 <= n <= 2 && |kids| % n == 0
    ensures |PutAll(kids, vals, n, same)| <= |kids| + |vals| - |vals| % n
    ensures |PutAll(kids, vals, n, same)| >= |kids|
    decreases |vals|
  {
    hide HasKey, Put;
    if |vals| >= n {
      PutGrows(kids, vals[..n], same);
      PutAllBound(Put(kids, vals[..n], same), vals[n..], n, same);
    }
  }

  lemma NoSameKeySnoc<T(!new)>(kids: seq<T>, entry: seq<T>, same: (T, T) -> bool)
    requires 1 <= |entry| <= 2 && |kids| % |entry| == 0
    ensures NoSameKey(kids + entry, |entry|, same) <==>
            NoSameKey(kids, |entry|, same) && !HasKey(kids, entry[0], |entry|, same)
  {
    var n, all := |entry|, kids + entry;
    assert all[|kids|] == entry[0];
    if NoSameKey(all, n, same) {
      forall i, j | 0 <= i < j < |kids| && i % n == 0 && j % n == 0
        ensures !same(kids[i], kids[j])
      {
        assert all[i] == kids[i] && all[j] == kids[j];
      }
      forall i | 0 <= i < |kids| && i % n == 0
        ensures !same(kids[i], entry[0])
      {
        assert all[i] == kids[i];
      }
    }
    if NoSameKey(kids, n, same) && !HasKey(kids, entry[0], n, same) {
      forall i, j | 0 <= i < j < |all| && i % n == 0 && j % n == 0
        ensures !same(all[i], all[j])
      {
        assert j <= |kids|;
        assert all[i] == kids[i];
      }
    }
  }

  lemma NoSameKeyPrefix<T(!new)>(kids: seq<T>, more: seq<T>, n: nat, same: (T, T) -> bool)
    requires 1 <= n <= 2 && |kids| % n == 0 && NoSameKey(kids + more, n, same)
    ensures NoSameKey(kids, n, same)
  {
    forall i, j | 0 <= i < j < |kids| && i % n == 0 && j % n == 0
      ensures !same(kids[i], kids[j])
    {
      assert (kids + more)[i] == kids[i] && (kids + more)[j] == kids[j];
    }
  }

  /** Everything stays exactly when no key is the same as an earlier one. */
  lemma {:induction false} PutAllKeeps<T(!new)>(kids: seq<T>, vals: seq<T>, n: nat, same: (T, T) -> bool)
    requires 1 <= n <= 2 && NoSameKey(kids, n, same)
    ensures NoSameKey(kids + vals, n, same) ==> PutAll(kids, vals, n, same) == kids + vals
    ensures !NoSameKey(kids + vals, n, same) ==> |PutAll(kids, vals, n, same)| < |kids| + |vals|
    decreases |vals|
  {
    hide HasKey, Put, NoSameKey;
    assert |kids| % n == 0 by { Divides(kids, n, same); }
    if |vals| < n {
      if vals == [] {
        assert kids + vals == kids;
      } else {
        assert !NoSameKey(kids + vals, n, same) by { NotDivides(kids + vals, n, same); }
      }
    } else {
      var entry, rest := vals[..n], vals[n..];
      assert kids + vals == (kids + entry) + rest;
      PutGrows(kids, entry, same);
      NoSameKeySnoc(kids, entry, same);
      if HasKey(kids, entry[0], n, same) {
        PutAllBound(Put(kids, entry, same), rest, n, same);
        if NoSameKey(kids + vals, n, same) {
          NoSameKeyPrefix(kids + entry, rest, n, same);
        }
      } else {
        PutAllKeeps(kids + entry, rest, n, same);
      }
    }
  }

  lemma Divides<T(!new)>(vals: seq<T>, n: nat, same: (T, T) -> bool)
    requires n > 0 && NoSameKey(vals, n, same)
    ensures |vals| % n == 0
  {
  }

  lemma NotDivides<T(!new)>(vals: seq<T>, n: nat, same: (T, T) -> bool)
    requires n > 0 && |vals| % n != 0
    ensures !NoSameKey(vals, n, same)
  {
  }

  ghost predicate TagDistinct<T(!new)>(tag: Tag, vals: seq<T>, same: (T, T) -> bool) {
    Stride(tag) > 0 ==> NoSameKey(vals, Stride(tag), same)
  }

  lemma FilledIff<T(!new)>(tag: Tag, vals: seq<T>, same: (T, T) -> bool)
    ensures TagDistinct(tag, vals, same) ==> Filled(tag, vals, same) == vals
    ensures !TagDistinct(tag, vals, same) ==> |Filled(tag, vals, same)| < |vals|
  {
    hide PutAll;
    if Stride(tag) > 0 {
      assert [] + vals == vals;
      PutAllKeeps([], vals, Stride(tag), same);
    }
  }

  lemma NormalKeys(ms: seq<Message>, i: nat, j: nat)
    requires i < |ms| && j < |ms|
    ensures SameMessageKey(Normals(ms)[i], Normals(ms)[j]) <==> SameMessageKey(ms[i], ms[j])
  {
  }

  /** Keys are distinct in a node exactly when they are after its children have been
      made normal. */
  lemma DistinctNode(m: Message)
    requires m.MNode?
    ensures KeysDistinct(m) <==>
            && TagDistinct(m.tag, Normals(m.kids), SameMessageKey)
            && forall i :: 0 <= i < |m.kids| ==> KeysDistinct(m.kids[i])
  {
    hide SameMessageKey, Normals;
    var n, ns := Stride(m.tag), Normals(m.kids);
    forall i, j | 0 <= i < |m.kids| && 0 <= j < |m.kids|
      ensures SameMessageKey(ns[i], ns[j]) <==> SameMessageKey(m.kids[i], m.kids[j])
    {
      NormalKeys(m.kids, i, j);
    }
    if KeysDistinct(m) && n > 0 {
      forall i, j | 0 <= i < j < |ns| && i % n == 0 && j % n == 0
        ensures !SameMessageKey(ns[i], ns[j])
      {
        assert IsKey(m.tag, i) && IsKey(m.tag, j);
      }
    }
  }

  /** Nothing in the message changes on the way. */
  ghost predicate Survives(m: Message) {
    !HasMinusZero(m) && KeysDistinct(m) && !HasOtherErrorName(m)
  }

  lemma SurvivingNode(m: Message)
    requires m.MNode?
    ensures Survives(m) <==>
            && NewTag(m.tag) == m.tag
            && TagDistinct(m.tag, Normals(m.kids), SameMessageKey)
            && forall i :: 0 <= i < |m.kids| ==> Survives(m.kids[i])
  {
    hide KeysDistinct, TagDistinct, Normals, NewTag;
    DistinctNode(m);
    NewTagIff(m.tag);
  }

  /** A message is what it becomes exactly when it has no -0, no key twice and no error
      with a name of its own. */
  lemma {:induction false} NormalIff(m: Message)
    ensures Normal(m) == m <==> !HasMinusZero(m) && KeysDistinct(m) && !HasOtherErrorName(m)
  {
    if m.MNode? {
      hide Filled, Survives, TagDistinct, NewTag;
      var ns := Normals(m.kids);
      forall i | 0 <= i < |m.kids|
        ensures Normal(m.kids[i]) == m.kids[i] <==> Survives(m.kids[i])
      {
        NormalIff(m.kids[i]);
        SurvivesIff(m.kids[i]);
      }
      SurvivingNode(m);
      SurvivesIff(m);
      FilledIff(m.tag, ns, SameMessageKey);
      if Survives(m) {
        assert ns == m.kids;
      } else if NewTag(m.tag) == m.tag && TagDistinct(m.tag, ns, SameMessageKey) {
        var i :| 0 <= i < |m.kids| && !Survives(m.kids[i]);
        assert ns[i] != m.kids[i];
      }
    }
  }

  lemma SurvivesIff(m: Message)
    ensures Survives(m) <==> !HasMinusZero(m) && KeysDistinct(m) && !HasOtherErrorName(m)
  {
  }

  // ---- Values and messages side by side ----

  function Firsts(zs: seq<(Value, Message)>): seq<Value> {
    seq(|zs|, i requires 0 <= i < |zs| => zs[i].0)
  }

  function Seconds(zs: seq<(Value, Message)>): seq<Message> {
    seq(|zs|, i requires 0 <= i < |zs| => zs[i].1)
  }

  predicate SamePair(a: (Value, Message), b: (Value, Message)) {
    SameMessageKey(a.1, b.1)
  }

  /** The two ways to compare keys agree on these pairs. */
  predicate Agree(a: (Value, Message), b: (Value, Message)) {
    SameKey(a.0, b.0) <==> SameMessageKey(a.1, b.1)
  }

  lemma Lengths(zs: seq<(Value, Message)>)
    ensures |Firsts(zs)| == |Seconds(zs)| == |zs|
    ensures zs != [] ==> Firsts(zs)[0] == zs[0].0 && Seconds(zs)[0] == zs[0].1
  {
  }

  lemma Single(z: (Value, Message))
    ensures Firsts([z]) == [z.0] && Seconds([z]) == [z.1]
  {
  }

  lemma Split(zs: seq<(Value, Message)>, n: nat)
    requires n <= |zs|
    ensures Firsts(zs[n..]) == Firsts(zs)[n..] && Seconds(zs[n..]) == Seconds(zs)[n..]
    ensures Firsts(zs[..n]) == Firsts(zs)[..n] && Seconds(zs[..n]) == Seconds(zs)[..n]
  {
  }

  lemma Join(xs: seq<(Value, Message)>, ys: seq<(Value, Message)>)
    ensures Firsts(xs + ys) == Firsts(xs) + Firsts(ys) && Seconds(xs + ys) == Seconds(xs) + Seconds(ys)
  {
  }

  lemma {:induction false} PutSideBySide(zs: seq<(Value, Message)>, entry: seq<(Value, Message)>)
    requires entry != [] && forall z :: z in zs ==> Agree(z, entry[0])
    ensures Firsts(Put(zs, entry, SamePair)) == Put(Firsts(zs), Firsts(entry), SameKey)
    ensures Seconds(Put(zs, entry, SamePair)) == Put(Seconds(zs), Seconds(entry), SameMessageKey)
    ensures forall z :: z in Put(zs, entry, SamePair) ==> z in zs || z in entry
    decreases |zs|
  {
    hide SameKey, SameMessageKey, Firsts, Seconds;
    var n := |entry|;
    Lengths(zs);
    Lengths(entry);
    if |zs| < n {
      Join(zs, entry);
    } else {
      assert Agree(zs[0], entry[0]);
      Split(zs, n);
      if SamePair(zs[0], entry[0]) {
        Split(entry, 1);
        Split(zs, 1);
        Single(zs[0]);
        Join([zs[0]], entry[1..]);
        Join([zs[0]] + entry[1..], zs[n..]);
      } else {
        PutSideBySide(zs[n..], entry);
        Join(zs[..n], Put(zs[n..], entry, SamePair));
        assert zs == zs[..n] + zs[n..];
      }
    }
  }

  lemma {:induction false} PutAllSideBySide(kept: seq<(Value, Message)>, zs: seq<(Value, Message)>, n: nat)
    requires n > 0
    requires forall i, z :: 0 <= i < |zs| && z in kept ==> Agree(z, zs[i])
    requires forall i, j :: 0 <= i < j < |zs| ==> Agree(zs[i], zs[j])
    ensures Firsts(PutAll(kept, zs, n, SamePair)) == PutAll(Firsts(kept), Firsts(zs), n, SameKey)
    ensures Seconds(PutAll(kept, zs, n, SamePair)) == PutAll(Seconds(kept), Seconds(zs), n, SameMessageKey)
    ensures forall z :: z in PutAll(kept, zs, n, SamePair) ==> z in kept || z in zs
    decreases |zs|
  {
    hide Put, Agree, SamePair, SameKey, SameMessageKey;
    if |zs| >= n {
      var entry, rest := zs[..n], zs[n..];
      PutSideBySide(kept, entry);
      var kept' := Put(kept, entry, SamePair);
      forall i, z | 0 <= i < |rest| && z in kept'
        ensures Agree(z, rest[i])
      {
        assert rest[i] == zs[i + n];
        if z !in kept {
          var j :| 0 <= j < n && entry[j] == z;
          assert zs[j] == z;
        }
      }
      PutAllSideBySide(kept', rest, n);
      assert Firsts(entry) == Firsts(zs)[..n] && Firsts(rest) == Firsts(zs)[n..];
      assert Seconds(entry) == Seconds(zs)[..n] && Seconds(rest) == Seconds(zs)[n..];
      assert zs == entry + rest;
    }
  }

  lemma FilledSideBySide(tag: Tag, zs: seq<(Value, Message)>)
    requires forall i, j :: 0 <= i < j < |zs| ==> Agree(zs[i], zs[j])
    ensures Firsts(Filled(tag, zs, SamePair)) == Filled(tag, Firsts(zs), SameKey)
    ensures Seconds(Filled(tag, zs, SamePair)) == Filled(tag, Seconds(zs), SameMessageKey)
    ensures forall z :: z in Filled(tag, zs, SamePair) ==> z in zs
  {
    hide PutAll, Agree;
    if Stride(tag) > 0 {
      PutAllSideBySide([], zs, Stride(tag));
      assert Firsts([]) == [] && Seconds([]) == [];
    }
  }

  // ---- The realm ----

  /** Objects that were there are left alone. */
  ghost predicate Keeps(h: Heap, h': Heap) {
    forall r :: r in h ==> r in h' && h'[r] == h[r]
  }

  class Realm {
    var heap: Heap
    var next: nat

    constructor ()
      ensures heap == map[] && next == 0 && Numbered()
    {
      heap, next := map[], 0;
    }

    ghost predicate Numbered()
      reads this
    {
      forall r :: r in heap ==> r.id < next
    }

    /** A place for a new object. */
    method Allocate() returns (r: Ref)
      requires Numbered()
      modifies this
      ensures Numbered() && next == old(next) + 1 && r == Ref(old(next))
      ensures heap == old(heap)[r := Blank] && Keeps(old(heap), heap)
    {
      r := Ref(next);
      next := next + 1;
      heap := heap[r := Blank];
    }

    /** New objects for a message, filled after they are allocated.  What they unfold
        to is the message made normal. */
    method Rehydrate(m: Message) returns (v: Value)
      requires Numbered()
      modifies this
      ensures Numbered() && Keeps(old(heap), heap) && old(next) <= next
      ensures Shows(heap, v, Normal(m), old(next))
      ensures v.P? <==> m.MLeaf?
      ensures v.P? ==> PrimMessage(v.prim) == Unsigned(m.prim)
      ensures v.Obj? ==> old(next) <= v.ref.id < next
      decreases m, 1
    {
      if m.MLeaf? {
        PrimBack(m.prim);
        return P(PrimOf(m.prim));
      }
      hide Shows, Normal, Filled;
      var r := Allocate();
      ghost var lo := next;
      if m.tag.BufferTag? && m.kids == [] {
        heap := heap[r := Buffer(Attached(m.tag.bytes))];
        ShowsBuffer(heap, r, m, old(next));
        return Obj(r);
      }
      var vals := RehydrateAll(m.kids);
      ghost var before := heap;
      heap := heap[r := Node(NewTag(m.tag), Filled(m.tag, vals, SameKey))];
      ShowsNode(before, heap, r, m, vals, old(next), lo);
      return Obj(r);
    }

    method RehydrateAll(ms: seq<Message>) returns (vals: seq<Value>)
      requires Numbered()
      modifies this
      ensures Numbered() && Keeps(old(heap), heap) && old(next) <= next
      ensures |vals| == |ms|
      ensures forall i :: 0 <= i < |ms| ==> Shows(heap, vals[i], Normal(ms[i]), old(next))
      ensures forall i :: 0 <= i < |ms| ==> (vals[i].P? <==> ms[i].MLeaf?)
      ensures forall i :: 0 <= i < |ms| && vals[i].P? ==> PrimMessage(vals[i].prim) == Unsigned(ms[i].prim)
      ensures forall i, j :: 0 <= i < j < |vals| && vals[i].Obj? && vals[j].Obj? ==> vals[i] != vals[j]
      decreases ms, 0
    {
      hide Shows, Normal;
      vals := [];
      var i := 0;
      while i < |ms|
        invariant i == |vals| <= |ms|
        invariant Numbered() && Keeps(old(heap), heap) && old(next) <= next
        invariant forall j :: 0 <= j < i ==> Shows(heap, vals[j], Normal(ms[j]), old(next))
        invariant forall j :: 0 <= j < i ==> (vals[j].P? <==> ms[j].MLeaf?)
        invariant forall j :: 0 <= j < i && vals[j].P? ==> PrimMessage(vals[j].prim) == Unsigned(ms[j].prim)
        invariant forall j :: 0 <= j < i && vals[j].Obj? ==> vals[j].ref.id < next
        invariant forall j, k :: 0 <= j < k < i && vals[j].Obj? && vals[k].Obj? ==> vals[j] != vals[k]
      {
        ghost var before := heap;
        ghost var lo := next;
        var v := Rehydrate(ms[i]);
        forall j | 0 <= j < i
          ensures Shows(heap, vals[j], Normal(ms[j]), old(next))
        {
          ShowsLater(before, heap, vals[j], Normal(ms[j]), old(next));
        }
        ShowsLower(heap, v, Normal(ms[i]), lo, old(next));
        vals := vals + [v];
        i := i + 1;
      }
    }
  }

  lemma ShowsBuffer(h: Heap, r: Ref, m: Message, lo: nat)
    requires r in h && lo <= r.id && m.MNode? && m.tag.BufferTag? && m.kids == []
    requires h[r] == Buffer(Attached(m.tag.bytes))
    ensures Shows(h, Obj(r), Normal(m), lo)
  {
    assert Normal(m).kids == [];
  }

  /** New values stand to each other as the messages they come from. */
  lemma NewValuesAgree(ms: seq<Message>, vals: seq<Value>, i: nat, j: nat)
    requires |vals| == |ms| && i < j < |vals|
    requires forall k :: 0 <= k < |vals| ==> (vals[k].P? <==> ms[k].MLeaf?)
    requires forall k :: 0 <= k < |vals| && vals[k].P? ==> PrimMessage(vals[k].prim) == Unsigned(ms[k].prim)
    requires vals[i].Obj? && vals[j].Obj? ==> vals[i] != vals[j]
    ensures Agree((vals[i], Normal(ms[i])), (vals[j], Normal(ms[j])))
  {
  }

  /** Filling an object that stands for a node. */
  lemma ShowsNode(h: Heap, h': Heap, r: Ref, m: Message, vals: seq<Value>, lo: nat, lo': nat)
    requires m.MNode? && r in h && h[r].Blank? && h' == h[r := Node(NewTag(m.tag), Filled(m.tag, vals, SameKey))]
    requires lo <= r.id && lo <= lo' && |vals| == |m.kids|
    requires forall i :: 0 <= i < |vals| ==> Shows(h, vals[i], Normal(m.kids[i]), lo')
    requires forall i :: 0 <= i < |vals| ==> (vals[i].P? <==> m.kids[i].MLeaf?)
    requires forall i :: 0 <= i < |vals| && vals[i].P? ==> PrimMessage(vals[i].prim) == Unsigned(m.kids[i].prim)
    requires forall i, j :: 0 <= i < j < |vals| && vals[i].Obj? && vals[j].Obj? ==> vals[i] != vals[j]
    ensures Extends(h, h') && Shows(h', Obj(r), Normal(m), lo)
  {
    hide Filled, Agree, Shows, SameKey, SameMessageKey;
    assert Extends(h, h');
    var zs := seq(|vals|, i requires 0 <= i < |vals| => (vals[i], Normal(m.kids[i])));
    forall i, j | 0 <= i < j < |zs|
      ensures Agree(zs[i], zs[j])
    {
      NewValuesAgree(m.kids, vals, i, j);
    }
    FilledSideBySide(m.tag, zs);
    assert Firsts(zs) == vals && Seconds(zs) == Normals(m.kids);
    var all := Filled(m.tag, zs, SamePair);
    forall i | 0 <= i < |all|
      ensures Shows(h', all[i].0, all[i].1, lo)
    {
      assert all[i] in zs;
      var j :| 0 <= j < |zs| && zs[j] == all[i];
      ShowsLater(h, h', vals[j], Normal(m.kids[j]), lo');
      ShowsLower(h', vals[j], Normal(m.kids[j]), lo', lo);
    }
    NodeShows(h', r, NewTag(m.tag), all, lo);
  }

  lemma NodeShows(h: Heap, r: Ref, tag: Tag, zs: seq<(Value, Message)>, lo: nat)
    requires r in h && lo <= r.id && h[r] == Node(tag, Firsts(zs))
    requires forall i :: 0 <= i < |zs| ==> Shows(h, zs[i].0, zs[i].1, lo)
    ensures Shows(h, Obj(r), MNode(tag, Seconds(zs)), lo)
  {
  }

  // ---- From realm to realm ----

  /** A heap whose Maps and Sets have no key twice, and no boxed key. */
  ghost predicate GoodKeys(h: Heap) {
    forall r :: r in h && h[r].Node? ==>
      && |h[r].kids| % (if h[r].tag.MapTag? then 2 else 1) == 0
      && forall i :: 0 <= i < |h[r].kids| && IsKey(h[r].tag, i) ==>
           && !(h[r].kids[i].Obj? && h[r].kids[i].ref in h && h[h[r].kids[i].ref].Boxed?)
           && forall j :: i < j < |h[r].kids| && IsKey(h[r].tag, j) ==> !SameKey(h[r].kids[i], h[r].kids[j])
  }

  lemma {:induction false} KeysStayDistinct(h: Heap, v: Value, m: Message)
    requires GoodKeys(h) && Shows(h, v, m, 0)
    ensures KeysDistinct(m)
    decreases m
  {
    if m.MNode? && m.kids != [] {
      var o := h[v.ref];
      var kids := KidsOf(o);
      forall i | 0 <= i < |kids|
        ensures KeysDistinct(m.kids[i])
      {
        KeysStayDistinct(h, kids[i], m.kids[i]);
      }
      forall i, j | 0 <= i < j < |kids| && IsKey(m.tag, i) && IsKey(m.tag, j)
        ensures !SameMessageKey(m.kids[i], m.kids[j])
      {
        LeafKey(h, kids[i], m.kids[i]);
        LeafKey(h, kids[j], m.kids[j]);
      }
    }
  }

  lemma LeafKey(h: Heap, v: Value, m: Message)
    requires Shows(h, v, m, 0) && !(v.Obj? && v.ref in h && h[v.ref].Boxed?)
    ensures m.MLeaf? ==> v.P? && m.prim == PrimMessage(v.prim)
  {
  }

  /** Detached in one realm and rehydrated in another, a value becomes new objects
      that unfold to the message made normal: the same unfolding exactly if there is
      no -0 in it, no error with a name of its own, and no key twice, as in heaps with
      good keys. */
  method Transport(h: Heap, v: Value, transfer: set<Ref>, target: Realm) returns (r: Result<Value>)
    requires Closed(h) && (v.Obj? ==> v.ref in h) && target.Numbered()
    modifies target
    ensures r.Err? <==>
              || (v.Obj? && exists p :: BadPath(h, {}, p) && p[0] == v.ref)
              || exists b :: b in transfer && b in h && h[b].Buffer? && TwoWays(h, v, b)
    ensures r.Ok? ==> exists m ::
              && Shows(h, v, m, 0)
              && Shows(target.heap, r.value, Normal(m), old(target.next))
              && (Shows(target.heap, r.value, m, old(target.next)) <==>
                    !HasMinusZero(m) && KeysDistinct(m) && !HasOtherErrorName(m))
              && (GoodKeys(h) ==> KeysDistinct(m))
    ensures Keeps(old(target.heap), target.heap)
  {
    hide Shows, Normal, HasMinusZero, HasOtherErrorName, GoodKeys, KeysDistinct, BadPath, TwoWays;
    var d, h' := DetachMessage(h, v, transfer);
    if d.Err? {
      return Err;
    }
    var m := d.value;
    if GoodKeys(h) {
      KeysStayDistinct(h, v, m);
    }
    var w := target.Rehydrate(m);
    NormalIff(m);
    if Shows(target.heap, w, m, old(target.next)) {
      UnfoldingUnique(target.heap, w, m, Normal(m), old(target.next), old(target.next));
    }
    return Ok(w);
  }

  // ---- What does not survive ----

  /** -0 arrives as 0. */
  lemma MinusZeroLost()
    ensures Normal(MLeaf(MNumber(MinusZero))) == MLeaf(MNumber(Whole(0)))
    ensures !Survives(MLeaf(MNumber(MinusZero)))
  {
    NormalIff(MLeaf(MNumber(MinusZero)));
  }

  /** An error with a name of its own, as SuppressedError and AggregateError are,
      arrives as an Error. */
  lemma ErrorNameLost(name: string, message: Option<string>)
    requires name !in ERROR_NAMES
    ensures "SuppressedError" !in ERROR_NAMES && "AggregateError" !in ERROR_NAMES
    ensures
      var m := MNode(ErrorTag(name, message, false), []);
      Normal(m) == MNode(ErrorTag("Error", message, false), []) && Normal(m) != m
  {
  }


  /** A Map with two keys, both boxes of the number 1. */
  function TwoBoxes(a: Prim, b: Prim): Heap {
    map[Ref(0) := Node(MapTag, [Obj(Ref(1)), P(a), Obj(Ref(2)), P(b)]),
        Ref(1) := Boxed(Int(1)),
        Ref(2) := Boxed(Int(1))]
  }

  const ONE := MLeaf(MNumber(Whole(1)))

  lemma TwoBoxesShow(a: Prim, b: Prim)
    ensures Shows(TwoBoxes(a, b), Obj(Ref(0)),
                  MNode(MapTag, [ONE, MLeaf(PrimMessage(a)), ONE, MLeaf(PrimMessage(b))]), 0)
  {
    hide PrimMessage;
    var h := TwoBoxes(a, b);
    var m := MNode(MapTag, [ONE, MLeaf(PrimMessage(a)), ONE, MLeaf(PrimMessage(b))]);
    assert PrimMessage(Int(1)) == MNumber(Whole(1)) by { BoxedOne(); }
    var kids := KidsOf(h[Ref(0)]);
    assert Shows(h, kids[0], m.kids[0], 0) && Shows(h, kids[1], m.kids[1], 0);
    assert Shows(h, kids[2], m.kids[2], 0) && Shows(h, kids[3], m.kids[3], 0);
  }

  lemma BoxedOne()
    ensures PrimMessage(Int(1)) == MNumber(Whole(1))
  {
  }

  /** Inserting two entries with one key leaves the second value. */
  lemma MergeTwo(key: Message, x: Message, y: Message)
    requires SameMessageKey(key, key)
    ensures PutAll([], [key, x, key, y], 2, SameMessageKey) == [key, y]
  {
    hide SameMessageKey;
    var all := [key, x, key, y];
    assert all[..2] == [key, x] && all[2..] == [key, y];
    assert [key, y][..2] == [key, y] && [key, y][2..] == [];
    assert Put([], [key, x], SameMessageKey) == [key, x];
    assert Put([key, x], [key, y], SameMessageKey) == [key, y];
    assert PutAll([key, x], [key, y], 2, SameMessageKey) == [key, y];
  }

  /** The keys are different objects, but equal in the message: one entry is lost. */
  lemma BoxedKeysMerge(a: Prim, b: Prim)
    ensures
      var m := MNode(MapTag, [ONE, MLeaf(PrimMessage(a)), ONE, MLeaf(PrimMessage(b))]);
      && !SameKey(Obj(Ref(1)), Obj(Ref(2)))
      && Shows(TwoBoxes(a, b), Obj(Ref(0)), m, 0)
      && Normal(m) == MNode(MapTag, [ONE, Normal(MLeaf(PrimMessage(b)))])
  {
    hide PutAll, PrimMessage, Shows;
    TwoBoxesShow(a, b);
    var x, y := MLeaf(PrimMessage(a)), MLeaf(PrimMessage(b));
    assert Normal(ONE) == ONE;
    assert Normals([ONE, x, ONE, y]) == [ONE, Normal(x), ONE, Normal(y)];
    MergeTwo(ONE, Normal(x), Normal(y));
  }
}
