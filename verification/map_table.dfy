/** The table of a Map: slots in insertion order, holes where entries were deleted,
    and an index from keys to slots. */
module MapTable {
  import opened Basics

  /** A key: `norm` is the same for keys that count as equal (0 and -0, NaN and
      NaN), `raw` is the value itself. */
  datatype Norm = Norm(id: int)

  datatype Key = Key(norm: Norm, raw: int)

  datatype Value = Value(id: int)

  datatype Slot = Hole | Live(key: Key, value: Value)

  datatype Table = Table(slots: seq<Slot>, index: map<Norm, nat>)

  type Entry = (Key, Value)

  /** The index points to precisely the live slots. */
  ghost predicate Valid(t: Table) {
    && (forall n :: n in t.index ==>
          t.index[n] < |t.slots| && t.slots[t.index[n]].Live? && t.slots[t.index[n]].key.norm == n)
    && (forall i :: 0 <= i < |t.slots| && t.slots[i].Live? ==>
          t.slots[i].key.norm in t.index && t.index[t.slots[i].key.norm] == i)
  }

  const EMPTY: Table := Table([], map[])

  /** An entry in place keeps its slot and its key; a new one goes to the end. */
  function Insert(t: Table, k: Key, v: Value): (r: Table)
    requires Valid(t)
    ensures Valid(r)
  {
    if k.norm in t.index then
      var i := t.index[k.norm];
      t.(slots := t.slots[i := Live(t.slots[i].key, v)])
    else
      Table(t.slots + [Live(k, v)], t.index[k.norm := |t.slots|])
  }

  /** A deleted entry leaves a hole. */
  function Remove(t: Table, n: Norm): (r: Table)
    requires Valid(t)
    ensures Valid(r)
  {
    if n in t.index then Table(t.slots[t.index[n] := Hole], map m | m in t.index && m != n :: t.index[m]) else t
  }

  function Get(t: Table, n: Norm): Option<Value>
    requires Valid(t)
  {
    if n in t.index then Some(t.slots[t.index[n]].value) else None
  }

  // ---- The insertion-ordered map ----

  /** The live entries in the order of their slots. */
  function Entries(slots: seq<Slot>): seq<Entry> {
    if slots == [] then []
    else (if slots[0].Live? then [(slots[0].key, slots[0].value)] else []) + Entries(slots[1..])
  }

  predicate Has(es: seq<Entry>, n: Norm) {
    exists i :: 0 <= i < |es| && es[i].0.norm == n
  }

  function Put(es: seq<Entry>, k: Key, v: Value): seq<Entry> {
    if es == [] then [(k, v)]
    else if es[0].0.norm == k.norm then [(es[0].0, v)] + es[1..]
    else [es[0]] + Put(es[1..], k, v)
  }

  function Drop(es: seq<Entry>, n: Norm): seq<Entry> {
    if es == [] then []
    else (if es[0].0.norm == n then [] else [es[0]]) + Drop(es[1..], n)
  }

  function Lookup(es: seq<Entry>, n: Norm): Option<Value> {
    if es == [] then None else if es[0].0.norm == n then Some(es[0].1) else Lookup(es[1..], n)
  }

  // ---- Refinement ----

  lemma {:induction false} EntriesConcat(a: seq<Slot>, b: seq<Slot>)
    ensures Entries(a + b) == Entries(a) + Entries(b)
  {
    if a == [] {
      assert a + b == b;
    } else {
      var head := if a[0].Live? then [(a[0].key, a[0].value)] else [];
      assert (a + b)[0] == a[0] && (a + b)[1..] == a[1..] + b;
      EntriesConcat(a[1..], b);
      assert head + (Entries(a[1..]) + Entries(b)) == (head + Entries(a[1..])) + Entries(b);
    }
  }

  lemma Around(slots: seq<Slot>, i: nat)
    requires i < |slots|
    ensures slots == slots[..i] + [slots[i]] + slots[i + 1..]
  {
  }

  /** The entries before, at and after a slot. */
  lemma EntriesAround(slots: seq<Slot>, i: nat)
    requires i < |slots|
    ensures Entries(slots) == Entries(slots[..i]) + Entries([slots[i]]) + Entries(slots[i + 1..])
  {
    hide Entries;
    Around(slots, i);
    var a, x, b := slots[..i], [slots[i]], slots[i + 1..];
    EntriesConcat(a + x, b);
    EntriesConcat(a, x);
  }

  lemma {:induction false} EntriesHas(slots: seq<Slot>, n: Norm)
    ensures Has(Entries(slots), n) <==> exists i :: 0 <= i < |slots| && slots[i].Live? && slots[i].key.norm == n
  {
    if slots != [] {
      var t := slots[1..];
      EntriesHas(t, n);
      HasConcat(if slots[0].Live? then [(slots[0].key, slots[0].value)] else [], Entries(t), n);
      assert forall i :: 0 <= i < |t| ==> t[i] == slots[i + 1];
      if i :| 0 <= i < |slots| && slots[i].Live? && slots[i].key.norm == n {
        assert i == 0 || (t[i - 1].Live? && t[i - 1].key.norm == n);
      }
    }
  }

  lemma HasConcat(a: seq<Entry>, b: seq<Entry>, n: Norm)
    ensures Has(a + b, n) <==> Has(a, n) || Has(b, n)
  {
    if i :| 0 <= i < |a| && a[i].0.norm == n {
      assert (a + b)[i].0.norm == n;
    }
    if i :| 0 <= i < |b| && b[i].0.norm == n {
      assert (a + b)[|a| + i].0.norm == n;
    }
  }

  lemma {:induction false} PutAt(a: seq<Entry>, e: Entry, b: seq<Entry>, v: Value, k: Key)
    requires !Has(a, k.norm) && e.0.norm == k.norm
    ensures Put(a + [e] + b, k, v) == a + [(e.0, v)] + b
    ensures Lookup(a + [e] + b, k.norm) == Some(e.1)
  {
    var s := a + [e] + b;
    if a == [] {
      assert s == [e] + b && s[1..] == b;
    } else {
      assert a[0].0.norm != k.norm;
      TailHasNot(a, k.norm);
      assert s[1..] == a[1..] + [e] + b;
      PutAt(a[1..], e, b, v, k);
    }
  }

  lemma TailHasNot(a: seq<Entry>, n: Norm)
    requires a != [] && !Has(a, n)
    ensures !Has(a[1..], n)
  {
    assert forall i :: 0 <= i < |a| - 1 ==> a[1..][i] == a[i + 1];
  }

  lemma {:induction false} PutAbsent(a: seq<Entry>, k: Key, v: Value)
    requires !Has(a, k.norm)
    ensures Put(a, k, v) == a + [(k, v)] && Lookup(a, k.norm) == None && Drop(a, k.norm) == a
  {
    if a != [] {
      assert a[0].0.norm != k.norm;
      TailHasNot(a, k.norm);
      PutAbsent(a[1..], k, v);
    }
  }

  lemma {:induction false} DropConcat(a: seq<Entry>, b: seq<Entry>, n: Norm)
    ensures Drop(a + b, n) == Drop(a, n) + Drop(b, n)
  {
    if a == [] {
      assert a + b == b;
    } else {
      assert (a + b)[1..] == a[1..] + b;
      DropConcat(a[1..], b, n);
    }
  }

  /** No other slot holds the key of a live slot. */
  lemma OnlyHere(t: Table, n: Norm)
    requires Valid(t) && n in t.index
    ensures !Has(Entries(t.slots[..t.index[n]]), n) && !Has(Entries(t.slots[t.index[n] + 1..]), n)
  {
    var i := t.index[n];
    EntriesHas(t.slots[..i], n);
    EntriesHas(t.slots[i + 1..], n);
    assert forall j :: 0 <= j < i ==> t.slots[..i][j] == t.slots[j];
    var rest := t.slots[i + 1..];
    assert forall j :: 0 <= j < |rest| ==> rest[j] == t.slots[i + 1 + j];
  }

  lemma NotAnywhere(t: Table, n: Norm)
    requires Valid(t) && n !in t.index
    ensures !Has(Entries(t.slots), n)
  {
    EntriesHas(t.slots, n);
  }

  lemma OneSlot(s: Slot)
    ensures Entries([s]) == if s.Live? then [(s.key, s.value)] else []
  {
    assert [s][1..] == [];
  }

  /** Inserting in the table is putting in the ordered map: a key present keeps its
      place and its original form, a new one is last. */
  lemma InsertRefines(t: Table, k: Key, v: Value)
    requires Valid(t)
    ensures Entries(Insert(t, k, v).slots) == Put(Entries(t.slots), k, v)
  {
    hide Entries, Put, Valid;
    OneSlot(Live(k, v));
    if k.norm in t.index {
      IndexedSlot(t, k.norm);
      var i := t.index[k.norm];
      var e := (t.slots[i].key, t.slots[i].value);
      var s' := Insert(t, k, v).slots;
      OnlyHere(t, k.norm);
      EntriesAround(t.slots, i);
      EntriesAround(s', i);
      OneSlot(t.slots[i]);
      OneSlot(s'[i]);
      assert s'[..i] == t.slots[..i] && s'[i + 1..] == t.slots[i + 1..];
      PutAt(Entries(t.slots[..i]), e, Entries(t.slots[i + 1..]), v, k);
    } else {
      NotAnywhere(t, k.norm);
      EntriesConcat(t.slots, [Live(k, v)]);
      PutAbsent(Entries(t.slots), k, v);
    }
  }

  lemma IndexedSlot(t: Table, n: Norm)
    requires Valid(t) && n in t.index
    ensures t.index[n] < |t.slots| && t.slots[t.index[n]].Live? && t.slots[t.index[n]].key.norm == n
  {
  }

  lemma RemoveRefines(t: Table, n: Norm)
    requires Valid(t)
    ensures Entries(Remove(t, n).slots) == Drop(Entries(t.slots), n)
  {
    hide Entries, Drop, Valid;
    var k, v := Key(n, 0), Value(0);
    if n in t.index {
      IndexedSlot(t, n);
      var i := t.index[n];
      var s' := Remove(t, n).slots;
      OnlyHere(t, n);
      EntriesAround(t.slots, i);
      EntriesAround(s', i);
      OneSlot(t.slots[i]);
      OneSlot(Hole);
      assert s'[..i] == t.slots[..i] && s'[i + 1..] == t.slots[i + 1..];
      var a, b := Entries(t.slots[..i]), Entries(t.slots[i + 1..]);
      PutAbsent(a, k, v);
      PutAbsent(b, k, v);
      DropConcat(a + Entries([t.slots[i]]), b, n);
      DropConcat(a, Entries([t.slots[i]]), n);
      DropOne((t.slots[i].key, t.slots[i].value));
    } else {
      NotAnywhere(t, n);
      PutAbsent(Entries(t.slots), k, v);
    }
  }

  lemma DropOne(e: Entry)
    ensures Drop([e], e.0.norm) == []
  {
    assert [e][1..] == [];
  }

  lemma GetRefines(t: Table, n: Norm)
    requires Valid(t)
    ensures Get(t, n) == Lookup(Entries(t.slots), n)
  {
    hide Entries, Lookup, Valid;
    var k := Key(n, 0);
    if n in t.index {
      IndexedSlot(t, n);
      var i := t.index[n];
      OnlyHere(t, n);
      EntriesAround(t.slots, i);
      OneSlot(t.slots[i]);
      PutAt(Entries(t.slots[..i]), (t.slots[i].key, t.slots[i].value), Entries(t.slots[i + 1..]), Value(0), k);
    } else {
      NotAnywhere(t, n);
      PutAbsent(Entries(t.slots), k, Value(0));
    }
  }

  /** Deleting a key and adding it again moves it to the end. */
  lemma DeleteThenAdd(t: Table, k: Key, v: Value)
    requires Valid(t)
    ensures Entries(Insert(Remove(t, k.norm), k, v).slots) == Drop(Entries(t.slots), k.norm) + [(k, v)]
  {
    hide Entries, Drop, Valid, Insert, Remove, Put;
    var r := Remove(t, k.norm);
    RemoveRefines(t, k.norm);
    InsertRefines(r, k, v);
    Gone(t, k.norm);
    NotAnywhere(r, k.norm);
    PutAbsent(Entries(r.slots), k, v);
  }

  lemma Gone(t: Table, n: Norm)
    requires Valid(t)
    ensures n !in Remove(t, n).index
  {
  }

  /** The index has as many keys as there are live entries. */
  lemma {:induction false} SizeIsEntries(t: Table)
    requires Valid(t)
    ensures |t.index| == |Entries(t.slots)|
    decreases |t.index|
  {
    if n :| n in t.index {
      var r := Remove(t, n);
      assert r.index.Keys == t.index.Keys - {n};
      assert |r.index| == |t.index| - 1;
      SizeIsEntries(r);
      var i := t.index[n];
      EntriesAround(t.slots, i);
      EntriesAround(r.slots, i);
      OneSlot(t.slots[i]);
      OneSlot(Hole);
      assert r.slots[..i] == t.slots[..i] && r.slots[i + 1..] == t.slots[i + 1..];
    } else {
      NoneLive(t.slots);
      NoKeys(t.index);
    }
  }

  lemma NoKeys(m: map<Norm, nat>)
    requires forall n :: n !in m
    ensures |m| == 0
  {
    assert m == map[];
  }

  lemma {:induction false} NoneLive(slots: seq<Slot>)
    requires forall i :: 0 <= i < |slots| ==> slots[i].Hole?
    ensures Entries(slots) == []
  {
    if slots != [] {
      NoneLive(slots[1..]);
    }
  }
}
