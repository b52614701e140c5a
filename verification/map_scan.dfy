/** A Map scanned while it is being changed. */
module MapScan {
  import opened MapTable

  datatype Op = Set(key: Key, value: Value) | Delete(norm: Norm) | Clear

  function Apply(t: Table, op: Op): (r: Table)
    requires Valid(t)
    ensures Valid(r)
  {
    match op
    case Set(k, v) => Insert(t, k, v)
    case Delete(n) => Remove(t, n)
    case Clear => EMPTY
  }

  /** A slot visited, the serial number of the entry in it, and the entry. */
  datatype Visit = Visit(slot: nat, serial: nat, entry: Entry)

  /** A scan at a moment: the table, the next slot to look at, what was visited, and
      for each slot the serial number of its entry and where the scan was when the
      entry was added. */
  datatype Scan = Scan(table: Table, cursor: nat, visits: seq<Visit>, serials: seq<nat>, born: seq<nat>, next: nat)

  /** Either the scan looks at one slot or somebody changes the Map. */
  datatype Act = Look | Do(op: Op)

  ghost predicate Shape(s: Scan) {
    Valid(s.table) && |s.serials| == |s.born| == |s.table.slots|
  }

  /** Whether an operation adds an entry at the end. */
  predicate Adds(t: Table, op: Op) {
    op.Set? && op.key.norm !in t.index
  }

  function Step(s: Scan, act: Act): (r: Scan)
    requires Shape(s)
    ensures Shape(r)
  {
    match act
    case Look =>
      if s.cursor >= |s.table.slots| then s
      else
        var x := s.table.slots[s.cursor];
        s.(cursor := s.cursor + 1,
           visits := if x.Live? then s.visits + [Visit(s.cursor, s.serials[s.cursor], (x.key, x.value))] else s.visits)
    case Do(op) =>
      var t := Apply(s.table, op);
      if op.Clear? then s.(table := t, serials := [], born := [])
      else if Adds(s.table, op) then
        s.(table := t, serials := s.serials + [s.next], born := s.born + [s.cursor], next := s.next + 1)
      else s.(table := t)
  }

  function Run(s: Scan, acts: seq<Act>): (r: Scan)
    requires Shape(s)
    ensures Shape(r)
  {
    if acts == [] then s else Step(Run(s, acts[..|acts| - 1]), acts[|acts| - 1])
  }

  /** The scan of a table from its start. */
  function Start(t: Table): (s: Scan)
    requires Valid(t)
    ensures Shape(s)
  {
    Scan(t, 0, [], seq(|t.slots|, i => i), seq(|t.slots|, _ => 0), |t.slots|)
  }

  // ---- What every run keeps ----

  /** The slots are visited in increasing order. */
  ghost predicate InOrder(s: Scan) {
    && (forall v :: v in s.visits ==> v.slot < s.cursor && v.serial < s.next)
    && (forall i, j :: 0 <= i < j < |s.visits| ==> s.visits[i].slot < s.visits[j].slot)
    && (forall i, j :: 0 <= i < j < |s.visits| ==> s.visits[i].serial != s.visits[j].serial)
  }

  predicate Visited(s: Scan, serial: nat) {
    exists i :: 0 <= i < |s.visits| && s.visits[i].serial == serial
  }

  ghost predicate Numbered(s: Scan)
    requires Shape(s)
  {
    && (forall i :: 0 <= i < |s.serials| ==> s.serials[i] < s.next && s.born[i] <= s.cursor)
    && (forall i, j :: 0 <= i < j < |s.serials| ==> s.serials[i] < s.serials[j])
  }

  /** An entry the scan has passed was visited, unless it was added behind the scan;
      an entry still ahead was not. */
  ghost predicate Accounted(s: Scan)
    requires Shape(s)
  {
    && (forall i :: 0 <= i < s.cursor && i < |s.table.slots| && s.table.slots[i].Live? ==>
          (Visited(s, s.serials[i]) <==> s.born[i] <= i))
    && (forall i :: s.cursor <= i < |s.table.slots| ==> !Visited(s, s.serials[i]))
  }

  ghost predicate Inv(s: Scan) {
    Shape(s) && InOrder(s) && Numbered(s) && Accounted(s)
  }

  lemma StartInv(t: Table)
    requires Valid(t)
    ensures Inv(Start(t))
  {
  }

  lemma VisitedMore(s: Scan, v: Visit, serial: nat)
    ensures Visited(s.(visits := s.visits + [v]), serial) <==> Visited(s, serial) || v.serial == serial
  {
    var r := s.(visits := s.visits + [v]);
    if i :| 0 <= i < |s.visits| && s.visits[i].serial == serial {
      assert r.visits[i].serial == serial;
    }
    assert r.visits[|s.visits|] == v;
  }

  lemma LookInv(s: Scan)
    requires Inv(s)
    ensures Inv(Step(s, Look))
  {
    var c := s.cursor;
    if c < |s.table.slots| && s.table.slots[c].Live? {
      hide Visited, Valid;
      var r := Step(s, Look);
      var v := r.visits[|s.visits|];
      forall serial: nat
        ensures Visited(r, serial) <==> Visited(s, serial) || v.serial == serial
      {
        VisitedMore(s, v, serial);
        SameVisits(r, s.(visits := s.visits + [v]), serial);
      }
      VisitedMeans(s, s.serials[c]);
    } else if c < |s.table.slots| {
      SameVisitsAll(Step(s, Look), s);
    }
  }

  lemma SameVisits(a: Scan, b: Scan, serial: nat)
    requires a.visits == b.visits
    ensures Visited(a, serial) == Visited(b, serial)
  {
  }

  lemma SameVisitsAll(a: Scan, b: Scan)
    requires a.visits == b.visits
    ensures forall serial: nat :: Visited(a, serial) == Visited(b, serial)
  {
  }

  lemma VisitedMeans(s: Scan, serial: nat)
    requires !Visited(s, serial)
    ensures forall i :: 0 <= i < |s.visits| ==> s.visits[i].serial != serial
  {
  }

  lemma DoInv(s: Scan, op: Op)
    requires Inv(s)
    ensures Inv(Step(s, Do(op)))
  {
    hide Visited;
    var r := Step(s, Do(op));
    SameVisitsAll(r, s);
    if Adds(s.table, op) {
      FreshSerial(s);
    } else if !op.Clear? {
      LiveBefore(s.table, op);
    }
  }

  lemma FreshSerial(s: Scan)
    requires InOrder(s)
    ensures !Visited(s, s.next)
  {
  }

  /** Changes other than adding bring no slot to life. */
  lemma LiveBefore(t: Table, op: Op)
    requires Valid(t) && !op.Clear? && !Adds(t, op)
    ensures
      var r := Apply(t, op);
      |r.slots| == |t.slots| && forall i :: 0 <= i < |t.slots| && r.slots[i].Live? ==> t.slots[i].Live?
  {
  }

  lemma {:induction false} RunInv(s: Scan, acts: seq<Act>)
    requires Inv(s)
    ensures Inv(Run(s, acts))
  {
    if acts != [] {
      hide Inv, Step;
      var t, act := acts[..|acts| - 1], acts[|acts| - 1];
      RunInv(s, t);
      if act == Look {
        LookInv(Run(s, t));
      } else {
        DoInv(Run(s, t), act.op);
      }
    }
  }

  // ---- What a scan visits ----

  /** How often an entry was visited. */
  function Count(vs: seq<Visit>, serial: nat): nat {
    if vs == [] then 0 else (if vs[0].serial == serial then 1 else 0) + Count(vs[1..], serial)
  }

  lemma {:induction false} CountDistinct(vs: seq<Visit>, serial: nat)
    requires forall i, j :: 0 <= i < j < |vs| ==> vs[i].serial != vs[j].serial
    ensures Count(vs, serial) == if exists i :: 0 <= i < |vs| && vs[i].serial == serial then 1 else 0
  {
    if vs != [] {
      var t := vs[1..];
      CountDistinct(t, serial);
      assert forall i :: 0 <= i < |t| ==> t[i] == vs[i + 1];
      if i :| 0 <= i < |vs| && vs[i].serial == serial {
        assert i == 0 || t[i - 1].serial == serial;
      }
    }
  }

  /** Every run, with clears or without: slots are visited in strictly increasing
      order, no entry twice, and when the scan is complete an entry that is live was
      visited exactly when it was not added behind the scan. */
  lemma EveryRun(t: Table, acts: seq<Act>)
    requires Valid(t)
    ensures
      var s := Run(Start(t), acts);
      && (forall i, j :: 0 <= i < j < |s.visits| ==> s.visits[i].slot < s.visits[j].slot)
      && (forall serial: nat :: Count(s.visits, serial) <= 1)
      && (s.cursor >= |s.table.slots| ==>
            forall i :: 0 <= i < |s.table.slots| && s.table.slots[i].Live? ==>
              (Count(s.visits, s.serials[i]) == 1 <==> s.born[i] <= i))
  {
    hide Run, Valid;
    StartInv(t);
    RunInv(Start(t), acts);
    var s := Run(Start(t), acts);
    forall serial: nat
      ensures Count(s.visits, serial) == if Visited(s, serial) then 1 else 0
    {
      CountDistinct(s.visits, serial);
    }
  }

  /** At act i the scan looks at a live slot and sees this. */
  ghost predicate SeenAt(t: Table, acts: seq<Act>, i: nat, v: Visit)
    requires Valid(t)
  {
    && i < |acts| && acts[i] == Look
    && var s := Run(Start(t), acts[..i]);
       && v.slot == s.cursor < |s.table.slots|
       && s.table.slots[v.slot] == Live(v.entry.0, v.entry.1)
       && v.serial == s.serials[v.slot]
  }

  /** Whatever a scan visits was there, key and value, when it looked. */
  lemma {:induction false} VisitsAreSeen(t: Table, acts: seq<Act>, v: Visit)
    requires Valid(t) && v in Run(Start(t), acts).visits
    ensures exists i: nat :: SeenAt(t, acts, i, v)
    decreases |acts|
  {
    hide Valid;
    if acts != [] {
      var n := |acts| - 1;
      var s := Run(Start(t), acts[..n]);
      if v in s.visits {
        VisitsAreSeen(t, acts[..n], v);
        var i: nat :| SeenAt(t, acts[..n], i, v);
        assert acts[..n][..i] == acts[..i];
        assert SeenAt(t, acts, i, v);
      } else {
        assert SeenAt(t, acts, n, v);
      }
    }
  }

  predicate NoClear(acts: seq<Act>) {
    forall i :: 0 <= i < |acts| ==> acts[i] != Do(Clear)
  }

  lemma {:induction false} NeverBehind(s: Scan, acts: seq<Act>)
    requires Inv(s) && NoClear(acts) && s.cursor <= |s.table.slots|
    requires forall i :: 0 <= i < |s.born| ==> s.born[i] <= i
    ensures
      var r := Run(s, acts);
      r.cursor <= |r.table.slots| && forall i :: 0 <= i < |r.born| ==> r.born[i] <= i
  {
    if acts != [] {
      hide Valid;
      var t, act := acts[..|acts| - 1], acts[|acts| - 1];
      assert forall i :: 0 <= i < |t| ==> t[i] == acts[i];
      NeverBehind(s, t);
      var m := Run(s, t);
      if act.Do? && !Adds(m.table, act.op) {
        LiveBefore(m.table, act.op);
      }
    }
  }

  /** Without clear, a completed scan has visited every live entry exactly once. */
  lemma LiveEntriesVisitedOnce(t: Table, acts: seq<Act>)
    requires Valid(t) && NoClear(acts)
    ensures
      var s := Run(Start(t), acts);
      s.cursor >= |s.table.slots| ==>
        forall i :: 0 <= i < |s.table.slots| && s.table.slots[i].Live? ==> Count(s.visits, s.serials[i]) == 1
  {
    hide Run, Valid, Count;
    EveryRun(t, acts);
    StartInv(t);
    NeverBehind(Start(t), acts);
  }

  /** The entry with this number was added and is no longer in the Map. */
  ghost predicate Dead(s: Scan, serial: nat)
    requires Shape(s)
  {
    serial < s.next && forall i :: 0 <= i < |s.serials| && s.serials[i] == serial ==> s.table.slots[i].Hole?
  }

  lemma DeadStep(s: Scan, act: Act, serial: nat)
    requires Inv(s) && Dead(s, serial)
    ensures Dead(Step(s, act), serial)
    ensures Visited(Step(s, act), serial) == Visited(s, serial)
  {
    if act == Look {
      if s.cursor < |s.table.slots| && s.table.slots[s.cursor].Live? {
        var r := Step(s, act);
        VisitedMore(s, r.visits[|s.visits|], serial);
      }
    } else if !act.op.Clear? && !Adds(s.table, act.op) {
      LiveBefore(s.table, act.op);
    }
  }

  /** An entry deleted before the scan reached it is never visited. */
  lemma {:induction false} DeletedNeverVisited(s: Scan, acts: seq<Act>, serial: nat)
    requires Inv(s) && Dead(s, serial)
    ensures Dead(Run(s, acts), serial)
    ensures Visited(Run(s, acts), serial) == Visited(s, serial)
  {
    if acts != [] {
      hide Inv, Step, Dead, Visited;
      var t, act := acts[..|acts| - 1], acts[|acts| - 1];
      DeletedNeverVisited(s, t, serial);
      RunInv(s, t);
      DeadStep(Run(s, t), act, serial);
    }
  }

  /** A key deleted and added again has a new slot that was not visited; without
      clear the scan still has it ahead. */
  lemma AddedAgain(s: Scan, k: Key, v: Value)
    requires Inv(s)
    ensures
      var r := Step(Step(s, Do(Delete(k.norm))), Do(Set(k, v)));
      var i := |s.table.slots|;
      && |r.table.slots| == i + 1 && r.table.slots[i] == Live(k, v) && r.table.index[k.norm] == i
      && !Visited(r, r.serials[i]) && r.cursor == s.cursor
  {
    FreshSerial(s);
  }

  /** After a clear a new entry can land behind the scan and be missed. */
  lemma ClearedScanMisses(a: Key, b: Key, c: Key, v: Value)
    requires a.norm != b.norm
    ensures
      var t := Insert(Insert(EMPTY, a, v), b, v);
      var s := Run(Start(t), [Look, Look, Do(Clear), Do(Set(c, v))]);
      s.cursor >= |s.table.slots| && s.table.slots == [Live(c, v)] && !Visited(s, s.serials[0])
  {
    var t := Insert(Insert(EMPTY, a, v), b, v);
    var a1, a2, a3, a4 := [Look], [Look, Look], [Look, Look, Do(Clear)], [Look, Look, Do(Clear), Do(Set(c, v))];
    assert a1[..0] == [] && a2[..1] == a1 && a3[..2] == a2 && a4[..3] == a3;
    var s0 := Start(t);
    assert Run(s0, a1) == Step(s0, Look);
    var s2 := Run(s0, a2);
    assert s2.cursor == 2;
    var s3 := Run(s0, a3);
    assert s3.table == EMPTY && s3.cursor == 2;
    StartInv(t);
    RunInv(s0, a3);
    FreshSerial(s3);
    SameVisits(s3, Run(s0, a4), s3.next);
  }
}
