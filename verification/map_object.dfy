/** The Map object and the loops over it. */
module MapObject {
  import opened Basics
  import opened MapTable
  import opened MapScan

  const DONE: nat := 0x7FFF_FFFF

  class MapInner {
    var slots: seq<Slot>
    var index: map<Norm, nat>

    function Now(): Table
      reads this
    {
      Table(slots, index)
    }

    constructor ()
      ensures Now() == EMPTY && Valid(Now())
    {
      slots, index := [], map[];
    }

    method Len() returns (n: nat)
      requires Valid(Now())
      ensures n == |Entries(slots)|
    {
      SizeIsEntries(Now());
      n := |index|;
    }

    method SlotCount() returns (n: nat)
      ensures n == |slots|
    {
      n := |slots|;
    }

    /** A hole and a place beyond the end read the same. */
    method SlotAt(i: nat) returns (r: Option<Entry>)
      ensures r == if i < |slots| && slots[i].Live? then Some((slots[i].key, slots[i].value)) else None
    {
      if i < |slots| && slots[i].Live? {
        return Some((slots[i].key, slots[i].value));
      }
      return None;
    }

    method Get(key: Key) returns (r: Option<Value>)
      requires Valid(Now())
      ensures r == Lookup(Entries(slots), key.norm)
    {
      GetRefines(Now(), key.norm);
      if key.norm in index {
        return Some(slots[index[key.norm]].value);
      }
      return None;
    }

    method Insert(key: Key, value: Value)
      requires Valid(Now())
      modifies this
      ensures Now() == MapTable.Insert(old(Now()), key, value) && Valid(Now())
      ensures Entries(slots) == Put(old(Entries(slots)), key, value)
    {
      InsertRefines(Now(), key, value);
      if key.norm in index {
        var i := index[key.norm];
        slots := slots[i := Live(slots[i].key, value)];
      } else {
        index := index[key.norm := |slots|];
        slots := slots + [Live(key, value)];
      }
    }

    method Remove(key: Key) returns (removed: bool)
      requires Valid(Now())
      modifies this
      ensures Now() == MapTable.Remove(old(Now()), key.norm) && Valid(Now())
      ensures Entries(slots) == Drop(old(Entries(slots)), key.norm)
      ensures removed <==> Has(old(Entries(slots)), key.norm)
    {
      RemoveRefines(Now(), key.norm);
      EntriesHas(slots, key.norm);
      if key.norm !in index {
        return false;
      }
      var i := index[key.norm];
      index := map m | m in index && m != key.norm :: index[m];
      slots := slots[i := Hole];
      return true;
    }

    method Clear()
      modifies this
      ensures Now() == EMPTY && Valid(Now())
    {
      slots, index := [], map[];
    }

    /** What a callback does to the Map. */
    method Perform(ops: seq<Op>, ghost start: Scan) returns (ghost end: Scan)
      requires Valid(Now()) && Shape(start) && start.table == Now()
      modifies this
      ensures Valid(Now()) && end == MapScan.Run(start, Doing(ops)) && end.table == Now()
    {
      hide Valid, MapScan.Step, MapTable.Insert, MapTable.Remove;
      end := start;
      var i := 0;
      while i < |ops|
        invariant i <= |ops| && Valid(Now()) && Shape(end) && end.table == Now()
        invariant end == MapScan.Run(start, Doing(ops[..i]))
      {
        assert Doing(ops[..i + 1]) == Doing(ops[..i]) + [Do(ops[i])];
        assert Doing(ops[..i + 1])[..i] == Doing(ops[..i]);
        StepTable(end, ops[i]);
        end := MapScan.Step(end, Do(ops[i]));
        match ops[i] {
          case Set(k, v) => Insert(k, v);
          case Delete(n) => var _ := Remove(Key(n, 0));
          case Clear => Clear();
        }
        i := i + 1;
      }
      assert ops[..i] == ops;
    }

    /** Map.prototype.forEach: at the n-th visit the callback performs `replies[n]`
        and perhaps throws.  The whole loop is the run of looks and callbacks that
        `LoopActs` describes. */
    method ForEach(replies: seq<Reply>) returns (ok: bool, visits: seq<(nat, Entry)>, ghost acts: seq<Act>)
      requires Valid(Now())
      modifies this
      ensures acts == LoopActs(Start(old(Now())), replies)
      ensures Valid(Now()) && MapScan.Run(Start(old(Now())), acts).table == Now()
      ensures visits == Seen(MapScan.Run(Start(old(Now())), acts).visits)
      ensures ok ==> MapScan.Run(Start(old(Now())), acts).cursor >= |slots|
      ensures !ok ==> 0 < |visits| <= |replies| && replies[|visits| - 1].throws
    {
      hide Valid, MapScan.Step, MapScan.Run, LoopActs, Seen, Doing;
      SeenNone();
      var cursor := 0;
      visits, acts := [], [];
      ghost var s0 := Start(Now());
      ghost var s := s0;
      ghost var rest := LoopActs(s0, replies);
      RunNothing(s0);
      var count := SlotCount();
      while cursor < count
        invariant Valid(Now()) && Shape(s) && s.table == Now() && s.cursor == cursor && count == |slots|
        invariant s == MapScan.Run(s0, acts) && visits == Seen(s.visits)
        invariant LoopActs(s0, replies) == acts + rest && rest == LoopActs(s, replies)
        decreases Pending(replies, s), Ahead(s)
      {
        var entry := SlotAt(cursor);
        LookTable(s);
        LoopStep(s, replies);
        RunMore(s0, acts, [Look]);
        RunOne(s, Look);
        ghost var before := acts;
        s, acts := MapScan.Step(s, Look), acts + [Look];
        Regroup(before, [Look], LoopActs(s, replies));
        SeenLength(s.visits);
        cursor := cursor + 1;
        if entry.Some? {
          visits := visits + [(cursor - 1, entry.value)];
        }
        if entry.Some? && |visits| <= |replies| {
          var reply := replies[|visits| - 1];
          RunMore(s0, acts, Doing(reply.ops));
          DoingKeeps(s, reply.ops);
          s := Perform(reply.ops, s);
          acts := acts + Doing(reply.ops);
          Regroup(before, [Look] + Doing(reply.ops), LoopActs(s, replies));
          Regroup(before, [Look], Doing(reply.ops));
          if reply.throws {
            assert ([Look] + Doing(reply.ops)) + [] == [Look] + Doing(reply.ops);
            return false, visits, acts;
          }
        }
        rest := LoopActs(s, replies);
        count := SlotCount();
      }
      LoopOver(s, replies);
      return true, visits, acts;
    }

    /** One step of a collection iterator: the first live slot from the cursor on;
        when there is none the cursor goes to a place that is never reached again. */
    method StepCore(cursor: nat) returns (entry: Option<Entry>, next: nat)
      ensures (entry, next) == NextEntry(slots, cursor)
    {
      var i := cursor;
      while i < |slots|
        invariant NextEntry(slots, cursor) == NextEntry(slots, i)
      {
        if slots[i].Live? {
          return Some((slots[i].key, slots[i].value)), i + 1;
        }
        i := i + 1;
      }
      return None, DONE;
    }

    /** getOrInsertComputed: the key is normalised, so that -0 becomes 0; a key present
        gives its value and no call; otherwise the callback's value is put after
        whatever the callback did. */
    method GetOrInsertComputed(given: Key, reply: Reply, value: Value) returns (r: Option<Value>)
      requires Valid(Now())
      modifies this
      ensures Valid(Now())
      ensures var was := Lookup(old(Entries(slots)), given.norm);
              was.Some? ==> r == was && Now() == old(Now())
      ensures var was := Lookup(old(Entries(slots)), given.norm);
              var after := Performed(old(Now()), reply.ops);
              was.None? ==>
                if reply.throws then r == None && Now() == after
                else r == Some(value) && Entries(slots) == Put(Entries(after.slots), Normalised(given), value)
    {
      hide Valid, Entries, Put, Lookup, MapScan.Run;
      var key := Normalised(given);
      var found := Get(key);
      if found.Some? {
        return found;
      }
      ghost var s := Start(Now());
      s := Perform(reply.ops, s);
      PerformedRun(Start(old(Now())), reply.ops);
      if reply.throws {
        return None;
      }
      Insert(key, value);
      return Some(value);
    }
  }

  datatype Reply = Reply(ops: seq<Op>, throws: bool)

  /** The class of 0 and -0, and the value 0 in it. */
  const ZERO_NORM: Norm := Norm(0)
  const PLUS_ZERO: int := 0

  function Normalised(k: Key): Key {
    if k.norm == ZERO_NORM then Key(ZERO_NORM, PLUS_ZERO) else k
  }

  function Doing(ops: seq<Op>): seq<Act> {
    seq(|ops|, i requires 0 <= i < |ops| => Do(ops[i]))
  }

  function Seen(vs: seq<Visit>): seq<(nat, Entry)> {
    seq(|vs|, i requires 0 <= i < |vs| => (vs[i].slot, vs[i].entry))
  }

  lemma SeenNone()
    ensures Seen([]) == []
  {
  }

  lemma SeenLength(vs: seq<Visit>)
    ensures |Seen(vs)| == |vs|
  {
  }

  lemma Regroup(a: seq<Act>, b: seq<Act>, c: seq<Act>)
    ensures a + (b + c) == (a + b) + c
  {
  }

  /** The table after some operations. */
  function Performed(t: Table, ops: seq<Op>): (r: Table)
    requires Valid(t)
    ensures Valid(r)
  {
    if ops == [] then t else Apply(Performed(t, ops[..|ops| - 1]), ops[|ops| - 1])
  }

  lemma StepTable(s: Scan, op: Op)
    requires Shape(s)
    ensures MapScan.Step(s, Do(op)).table == Apply(s.table, op)
  {
  }

  lemma LookTable(s: Scan)
    requires Shape(s) && s.cursor < |s.table.slots|
    ensures
      var r := MapScan.Step(s, Look);
      && r.table == s.table && r.cursor == s.cursor + 1
      && (var x := s.table.slots[s.cursor];
          Seen(r.visits) == if x.Live? then Seen(s.visits) + [(s.cursor, (x.key, x.value))] else Seen(s.visits))
  {
  }

  lemma RunNothing(s: Scan)
    requires Shape(s)
    ensures MapScan.Run(s, []) == s
  {
  }

  lemma RunOne(s: Scan, act: Act)
    requires Shape(s)
    ensures MapScan.Run(s, [act]) == MapScan.Step(s, act)
  {
    assert [act][..0] == [];
  }

  lemma {:induction false} RunMore(s: Scan, a: seq<Act>, b: seq<Act>)
    requires Shape(s)
    ensures MapScan.Run(s, a + b) == MapScan.Run(MapScan.Run(s, a), b)
    decreases |b|
  {
    hide MapScan.Step;
    if b == [] {
      assert a + b == a;
    } else {
      var t := b[..|b| - 1];
      assert (a + b)[..|a + b| - 1] == a + t;
      RunMore(s, a, t);
    }
  }

  // ---- The loop as a run ----

  /** Replies not used yet, and slots ahead. */
  ghost function Pending(replies: seq<Reply>, s: Scan): nat {
    if |s.visits| < |replies| then |replies| - |s.visits| else 0
  }

  ghost function Ahead(s: Scan): nat {
    if s.cursor < |s.table.slots| then |s.table.slots| - s.cursor else 0
  }

  /** The looks of the loop, each visit followed by what its callback does, to the end
      of the table or to a callback that throws. */
  ghost function LoopActs(s: Scan, replies: seq<Reply>): seq<Act>
    requires Shape(s)
    decreases Pending(replies, s), Ahead(s)
  {
    if s.cursor >= |s.table.slots| then []
    else
      var s1 := MapScan.Step(s, Look);
      if |s1.visits| == |s.visits| || |s1.visits| > |replies| then [Look] + LoopActs(s1, replies)
      else
        var reply := replies[|s1.visits| - 1];
        DoingKeeps(s1, reply.ops);
        [Look] + Doing(reply.ops)
        + if reply.throws then [] else LoopActs(MapScan.Run(s1, Doing(reply.ops)), replies)
  }

  lemma LoopStep(s: Scan, replies: seq<Reply>)
    requires Shape(s) && s.cursor < |s.table.slots|
    ensures
      var s1 := MapScan.Step(s, Look);
      && |s.visits| <= |s1.visits| <= |s.visits| + 1
      && (|s1.visits| > |s.visits| <==> s.table.slots[s.cursor].Live?)
      && LoopActs(s, replies) ==
         if |s1.visits| == |s.visits| || |s1.visits| > |replies| then [Look] + LoopActs(s1, replies)
         else
           var reply := replies[|s1.visits| - 1];
           [Look] + Doing(reply.ops)
           + if reply.throws then [] else LoopActs(MapScan.Run(s1, Doing(reply.ops)), replies)
  {
  }

  lemma LoopOver(s: Scan, replies: seq<Reply>)
    requires Shape(s) && s.cursor >= |s.table.slots|
    ensures LoopActs(s, replies) == []
  {
  }

  predicate NeverClears(replies: seq<Reply>) {
    forall k, i :: 0 <= k < |replies| && 0 <= i < |replies[k].ops| ==> !replies[k].ops[i].Clear?
  }

  predicate NeverThrows(replies: seq<Reply>) {
    forall k :: 0 <= k < |replies| ==> !replies[k].throws
  }

  lemma {:induction false} LoopFacts(s: Scan, replies: seq<Reply>)
    requires Shape(s)
    ensures NeverClears(replies) ==> NoClear(LoopActs(s, replies))
    ensures NeverThrows(replies) ==>
              var r := MapScan.Run(s, LoopActs(s, replies)); r.cursor >= |r.table.slots|
    decreases Pending(replies, s), Ahead(s)
  {
    hide MapScan.Run, Valid;
    if s.cursor >= |s.table.slots| {
      RunNothing(s);
    } else {
      var s1 := MapScan.Step(s, Look);
      RunOne(s, Look);
      if |s1.visits| == |s.visits| || |s1.visits| > |replies| {
        LoopFacts(s1, replies);
        RunMore(s, [Look], LoopActs(s1, replies));
      } else {
        var reply := replies[|s1.visits| - 1];
        DoingKeeps(s1, reply.ops);
        RunMore(s, [Look], Doing(reply.ops));
        if !reply.throws {
          var s2 := MapScan.Run(s1, Doing(reply.ops));
          LoopFacts(s2, replies);
          RunMore(s, [Look] + Doing(reply.ops), LoopActs(s2, replies));
        }
      }
    }
  }

  /** forEach with callbacks that neither clear the Map nor throw goes to the end and
      visits every entry that is live then exactly once. */
  lemma ForEachVisitsOnce(t: Table, replies: seq<Reply>)
    requires Valid(t) && NeverClears(replies) && NeverThrows(replies)
    ensures
      var s := MapScan.Run(Start(t), LoopActs(Start(t), replies));
      && s.cursor >= |s.table.slots|
      && forall i :: 0 <= i < |s.table.slots| && s.table.slots[i].Live? ==> Count(s.visits, s.serials[i]) == 1
  {
    hide MapScan.Run, Valid, LoopActs, Count;
    LoopFacts(Start(t), replies);
    LiveEntriesVisitedOnce(t, LoopActs(Start(t), replies));
  }

  /** Callbacks that leave the Map alone. */
  predicate Idle(replies: seq<Reply>) {
    forall k :: 0 <= k < |replies| ==> replies[k].ops == [] && !replies[k].throws
  }

  function EntriesOf(vs: seq<Visit>): seq<Entry> {
    seq(|vs|, i requires 0 <= i < |vs| => vs[i].entry)
  }

  lemma {:induction false} IdleLoop(s: Scan, replies: seq<Reply>)
    requires Shape(s) && Idle(replies) && s.cursor <= |s.table.slots|
    ensures EntriesOf(MapScan.Run(s, LoopActs(s, replies)).visits)
         == EntriesOf(s.visits) + Entries(s.table.slots[s.cursor..])
    decreases Ahead(s)
  {
    hide MapScan.Run, Valid, LoopActs, MapScan.Step, EntriesOf, Entries;
    if s.cursor == |s.table.slots| {
      LoopOver(s, replies);
      RunNothing(s);
      NoEntries(s.table.slots);
    } else {
      var s1 := MapScan.Step(s, Look);
      LookEntries(s);
      RunOne(s, Look);
      IdleLoop(s1, replies);
      IdleStep(s, replies);
      RunMore(s, [Look], LoopActs(s1, replies));
    }
  }

  lemma NoEntries(slots: seq<Slot>)
    ensures Entries(slots[|slots|..]) == []
  {
  }

  /** A look at a slot takes its entry from those ahead to those visited. */
  lemma LookEntries(s: Scan)
    requires Shape(s) && s.cursor < |s.table.slots|
    ensures
      var r := MapScan.Step(s, Look);
      && r.table == s.table && r.cursor == s.cursor + 1
      && EntriesOf(s.visits) + Entries(s.table.slots[s.cursor..]) == EntriesOf(r.visits) + Entries(s.table.slots[r.cursor..])
  {
    hide Valid;
    var r, rest := MapScan.Step(s, Look), s.table.slots[s.cursor..];
    assert rest[0] == s.table.slots[s.cursor] && rest[1..] == s.table.slots[s.cursor + 1..];
    if rest[0].Live? {
      assert EntriesOf(r.visits) == EntriesOf(s.visits) + [(rest[0].key, rest[0].value)];
    }
  }

  lemma IdleStep(s: Scan, replies: seq<Reply>)
    requires Shape(s) && Idle(replies) && s.cursor < |s.table.slots|
    ensures LoopActs(s, replies) == [Look] + LoopActs(MapScan.Step(s, Look), replies)
  {
    hide Valid, LoopActs, MapScan.Run;
    LoopStep(s, replies);
    var s1 := MapScan.Step(s, Look);
    if !(|s1.visits| == |s.visits| || |s1.visits| > |replies|) {
      assert Doing([]) == [];
      RunNothing(s1);
      assert [Look] + [] == [Look];
    }
  }

  /** forEach with callbacks that leave the Map alone passes every entry, key and value,
      in the order of the Map. */
  lemma ForEachEntries(t: Table, replies: seq<Reply>)
    requires Valid(t) && Idle(replies)
    ensures EntriesOf(MapScan.Run(Start(t), LoopActs(Start(t), replies)).visits) == Entries(t.slots)
  {
    hide MapScan.Run, Valid, LoopActs;
    IdleLoop(Start(t), replies);
    assert t.slots[0..] == t.slots;
    assert EntriesOf([]) == [];
  }

  /** A callback does not move the scan. */
  lemma {:induction false} DoingKeeps(s: Scan, ops: seq<Op>)
    requires Shape(s)
    ensures MapScan.Run(s, Doing(ops)).cursor == s.cursor && MapScan.Run(s, Doing(ops)).visits == s.visits
  {
    if ops != [] {
      var t := ops[..|ops| - 1];
      assert Doing(ops)[..|ops| - 1] == Doing(t);
      DoingKeeps(s, t);
    }
  }

  lemma {:induction false} PerformedRun(s: Scan, ops: seq<Op>)
    requires Shape(s)
    ensures MapScan.Run(s, Doing(ops)).table == Performed(s.table, ops)
  {
    if ops != [] {
      hide Valid;
      var t := ops[..|ops| - 1];
      assert Doing(ops)[..|ops| - 1] == Doing(t);
      PerformedRun(s, t);
    }
  }

  // ---- Collection iterators ----

  /** What an iterator at a cursor gives next, and where its cursor goes. */
  function NextEntry(slots: seq<Slot>, cursor: nat): (Option<Entry>, nat)
    decreases |slots| - cursor
  {
    if cursor >= |slots| then (None, DONE)
    else if slots[cursor].Live? then (Some((slots[cursor].key, slots[cursor].value)), cursor + 1)
    else NextEntry(slots, cursor + 1)
  }

  lemma {:induction false} NextEntryFinds(slots: seq<Slot>, cursor: nat)
    ensures
      var (entry, next) := NextEntry(slots, cursor);
      && (entry.Some? ==>
            && cursor < next <= |slots| && slots[next - 1] == Live(entry.value.0, entry.value.1)
            && forall i :: cursor <= i < next - 1 ==> slots[i].Hole?)
      && (entry.None? ==> next == DONE && forall i :: cursor <= i < |slots| ==> slots[i].Hole?)
    decreases |slots| - cursor
  {
    if cursor < |slots| && slots[cursor].Hole? {
      NextEntryFinds(slots, cursor + 1);
    }
  }

  /** An iterator that has reported done reports done again, whatever has happened to
      the Map, exactly while no live slot lies at or after its final place. */
  lemma DoneStays(before: seq<Slot>, cursor: nat, after: seq<Slot>)
    requires NextEntry(before, cursor).0.None?
    ensures NextEntry(after, NextEntry(before, cursor).1).0.None?
            <==> forall i :: DONE <= i < |after| ==> after[i].Hole?
  {
    NextEntryFinds(before, cursor);
    NextEntryFinds(after, DONE);
  }
}
