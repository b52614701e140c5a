/** The namespace object. */
module ModuleObject {
  import opened Basics
  import opened ModuleExports
  import opened ModuleValues

  class Namespace {
    var slots: map<Name, Value>
    var table: Option<seq<Entry>>

    function Now(): State
      reads this
    {
      State(slots, table)
    }

    constructor ()
      ensures Now() == EMPTY && Agree(Now())
    {
      slots, table := map[], None;
    }

    /** Linear search by name. */
    method EntryIndex(n: Name) returns (r: Option<nat>)
      ensures r == IndexOf(Entries(Now()), n)
    {
      if table.None? {
        return None;
      }
      var es := table.value;
      var i := 0;
      while i < |es|
        invariant i <= |es|
        invariant IndexOf(es, n) == (var rest := IndexOf(es[i..], n); if rest.None? then None else Some(i + rest.value))
      {
        if es[i].name == n {
          return Some(i);
        }
        assert es[i..][1..] == es[i + 1..];
        i := i + 1;
      }
      return None;
    }

    /** What a reader sees; `cells` are the cells that have been initialised.  A name
        without entry or an ambiguous one is no export.  An export held by its entry is
        there once it was set, and shows what its slot holds; an export in a cell shows
        the cell. */
    method Export(n: Name, cells: map<nat, Value>) returns (q: Query)
      requires Agree(Now())
      ensures q == Answer(Now(), n, cells)
      ensures q.NotExported? <==> n !in slots || IndexOf(Entries(Now()), n).None?
      ensures !q.NotExported? ==>
                match Entries(Now())[IndexOf(Entries(Now()), n).value].live
                case Held(_, initialized) => q == if initialized then Initialized(slots[n]) else Uninitialized
                case Cell(c) => q == if c in cells then Initialized(cells[c]) else Uninitialized
    {
      var i := EntryIndex(n);
      if i.None? {
        return NotExported;
      }
      var e := table.value[i.value];
      if e.origin.Ambiguous? {
        return NotExported;
      }
      match e.live
      case Held(v, initialized) => return if initialized then Initialized(v) else Uninitialized;
      case Cell(c) => return if c in cells then Initialized(cells[c]) else Uninitialized;
    }

    method SetExport(n: Name, v: Value, origin: Origin)
      modifies this
      ensures Now() == ModuleExports.SetExport(old(Now()), n, v, origin)
    {
      var existing := EntryIndex(n);
      if existing.Some? && table.value[existing.value].live.Cell? {
        return;
      }
      if existing.Some? && n in slots {
        slots := slots[n := v];
        table := Some(table.value[existing.value := Entry(n, origin, Held(v, true))]);
        return;
      }
      slots := slots[n := v];
      if table.Some? {
        if existing.Some? {
          table := Some(table.value[existing.value := Entry(n, origin, Held(v, true))]);
        } else {
          table := Some(table.value + [Entry(n, origin, Held(v, true))]);
        }
      }
    }

    method SetReexport(n: Name, v: Value, token: Token)
      modifies this
      ensures Now() == ModuleExports.SetReexport(old(Now()), n, v, token)
    {
      if table.None? {
        table := Some([]);
      }
      SetExport(n, v, Reexport(token, true));
    }

    method PreRegister(n: Name, varLike: bool)
      modifies this
      ensures Now() == ModuleExports.PreRegister(old(Now()), n, varLike)
    {
      var i := EntryIndex(n);
      if i.Some? {
        return;
      }
      slots := slots[n := Undefined];
      table := Some((if table.None? then [] else table.value) + [Entry(n, Local, Held(Undefined, varLike))]);
    }

    /** False when the name was not announced. */
    method SetCell(n: Name, cell: nat, v: Value) returns (ok: bool)
      modifies this
      ensures Now() == ModuleExports.SetCell(old(Now()), n, cell, v)
      ensures ok <==> IndexOf(Entries(old(Now())), n).Some?
    {
      var i := EntryIndex(n);
      if i.None? {
        return false;
      }
      table := Some(table.value[i.value := table.value[i.value].(live := Cell(cell))]);
      if n in slots {
        slots := slots[n := v];
      }
      return true;
    }

    /** Copies the exports of another namespace, `keys` being its own keys in order,
        all but `default`. */
    method Star(src: State, keys: seq<Name>, path: nat)
      requires forall i :: 0 <= i < |keys| ==> keys[i] in src.slots
      modifies this
      ensures Now() == Run(old(Now()), Given(src, keys, path))
    {
      hide StarOne, Given, Run, SourceToken;
      GivenNothing(src, path);
      RunNothing(Now());
      var i := 0;
      while i < |keys|
        invariant i <= |keys|
        invariant Now() == Run(old(Now()), Given(src, keys[..i], path))
      {
        var n := keys[i];
        assert keys[..i + 1][..i] == keys[..i];
        if n != DEFAULT {
          GivenMore(src, keys[..i + 1], path);
          RunLast(old(Now()), Given(src, keys[..i + 1], path));
          CopyOne(n, src.slots[n], SourceToken(src, n, path));
        } else {
          GivenNoDefault(src, keys[..i + 1], path);
        }
        i := i + 1;
      }
      assert keys[..i] == keys;
    }

    method CopyOne(n: Name, v: Value, token: Token)
      modifies this
      ensures Now() == StarOne(old(Now()), n, v, token)
    {
      var i := EntryIndex(n);
      if i.Some? {
        var origin := table.value[i.value].origin;
        if origin.Ambiguous? || IsExplicit(origin) || origin.token == token {
          return;
        }
        slots := slots - {n};
        table := Some(table.value[i.value := Entry(n, Ambiguous, Held(Undefined, false))]);
        return;
      }
      if n in slots {
        return;
      }
      slots := slots[n := v];
      table := Some((if table.None? then [] else table.value) + [Entry(n, Reexport(token, false), Held(v, true))]);
    }
  }

  /** The exports a star export gives. */
  function Given(src: State, keys: seq<Name>, path: nat): seq<Event>
    requires forall i :: 0 <= i < |keys| ==> keys[i] in src.slots
  {
    if keys == [] then []
    else
      var n := keys[|keys| - 1];
      Given(src, keys[..|keys| - 1], path)
      + if n == DEFAULT then [] else [Provide(n, src.slots[n], SourceToken(src, n, path))]
  }

  lemma GivenNothing(src: State, path: nat)
    ensures Given(src, [], path) == []
  {
  }

  lemma GivenNoDefault(src: State, keys: seq<Name>, path: nat)
    requires keys != [] && keys[|keys| - 1] == DEFAULT
    requires forall i :: 0 <= i < |keys| ==> keys[i] in src.slots
    ensures Given(src, keys, path) == Given(src, keys[..|keys| - 1], path)
  {
  }

  lemma RunNothing(s: State)
    ensures Run(s, []) == s
  {
  }

  lemma RunLast(s: State, evs: seq<Event>)
    requires evs != []
    ensures Run(s, evs) == Apply(Run(s, evs[..|evs| - 1]), evs[|evs| - 1])
  {
    hide Apply;
  }

  lemma GivenMore(src: State, keys: seq<Name>, path: nat)
    requires keys != [] && keys[|keys| - 1] != DEFAULT
    requires forall i :: 0 <= i < |keys| ==> keys[i] in src.slots
    ensures
      var n := keys[|keys| - 1];
      var front := Given(src, keys[..|keys| - 1], path);
      var all := Given(src, keys, path);
      all != [] && all[..|all| - 1] == front && all[|all| - 1] == Provide(n, src.slots[n], SourceToken(src, n, path))
  {
  }

  lemma RunOf(a: Event, b: Event, c: Event, d: Event)
    ensures Run(EMPTY, [a, b, c]) == Apply(Apply(Apply(EMPTY, a), b), c)
    ensures Run(EMPTY, [a, b, c, d]) == Apply(Run(EMPTY, [a, b, c]), d)
  {
    hide Apply;
    assert [a][..0] == [] && [a, b][..1] == [a] && [a, b, c][..2] == [a, b] && [a, b, c, d][..3] == [a, b, c];
    assert Run(EMPTY, [a]) == Apply(EMPTY, a);
    assert Run(EMPTY, [a, b]) == Apply(Apply(EMPTY, a), b);
  }

  /** A name announced only after a star export gave it is not treated as explicit:
      a second, different star export makes it disappear. */
  lemma LateAnnouncement(n: Name, v: Value, t: Token, u: Token)
    requires t != u
    ensures !Visible(Run(EMPTY, [Provide(n, v, t), Register(n, false), Provide(n, v, u)]), n)
  {
    hide Agree, StatusOf;
    EmptyStatus(n);
    var a, b, c := Provide(n, v, t), Register(n, false), Provide(n, v, u);
    var s1 := Apply(EMPTY, a);
    var s2 := Apply(s1, b);
    ApplyKeeps(EMPTY, a);
    ApplyKeeps(s1, b);
    ApplyKeeps(s2, c);
    RunOf(a, b, c, c);
    VisibleStatus(Apply(s2, c), n);
  }

  /** A star export bound to a cell cannot be made explicit: the explicit export is
      lost when another star export conflicts. */
  lemma ExplicitExportLost(n: Name, v: Value, t: Token, u: Token, cell: nat)
    requires t != u
    ensures !Visible(Run(EMPTY, [Provide(n, v, t), Bind(n, cell, v), Set(n, v), Provide(n, v, u)]), n)
  {
    hide Agree, StatusOf;
    EmptyStatus(n);
    var a, b, c, d := Provide(n, v, t), Bind(n, cell, v), Set(n, v), Provide(n, v, u);
    var s1 := Apply(EMPTY, a);
    var s2 := Apply(s1, b);
    var s3 := Apply(s2, c);
    ApplyKeeps(EMPTY, a);
    ApplyKeeps(s1, b);
    ApplyKeeps(s2, c);
    ApplyKeeps(s3, d);
    RunOf(a, b, c, d);
    VisibleStatus(Apply(s3, d), n);
  }

  lemma EmptyStatus(n: Name)
    ensures Agree(EMPTY) && StatusOf(EMPTY, n) == Absent
  {
  }

  /** A star export gives every name of the source but `default`, each with what it is
      known as. */
  lemma {:induction false} StarGives(src: State, keys: seq<Name>, path: nat, n: Name, t: Token)
    requires forall i :: 0 <= i < |keys| ==> keys[i] in src.slots
    ensures GivenFrom(Given(src, keys, path), n, t) <==> n in keys && n != DEFAULT && t == SourceToken(src, n, path)
  {
    if keys != [] {
      var front, m := keys[..|keys| - 1], keys[|keys| - 1];
      StarGives(src, front, path, n, t);
      assert keys == front + [m];
      var a := Given(src, front, path);
      var b := Given(src, keys, path);
      if m == DEFAULT {
        assert b == a;
      } else {
        assert b == a + [Provide(m, src.slots[m], SourceToken(src, m, path))];
        assert forall i :: 0 <= i < |a| ==> b[i] == a[i];
        assert b[|a|] == Provide(m, src.slots[m], SourceToken(src, m, path));
      }
    }
  }

  /** A name that two modules each export by themselves conflicts when it comes by star
      export from both. */
  lemma LocalsConflict(a: State, b: State, n: Name, v: Value, w: Value, pa: nat, pb: nat)
    requires EntryAt(a, n).None? || EntryAt(a, n).value.origin.Local?
    requires EntryAt(b, n).None? || EntryAt(b, n).value.origin.Local?
    ensures
      var log := [Provide(n, v, SourceToken(a, n, pa)), Provide(n, w, SourceToken(b, n, pb))];
      Visible(Run(EMPTY, log), n) <==> pa == pb
  {
    hide Agree, StatusOf;
    EmptyStatus(n);
    var p, q := Provide(n, v, SourceToken(a, n, pa)), Provide(n, w, SourceToken(b, n, pb));
    ApplyKeeps(EMPTY, p);
    ApplyKeeps(Apply(EMPTY, p), q);
    assert [p, q][..1] == [p] && [p][..0] == [];
    assert Run(EMPTY, [p]) == Apply(EMPTY, p);
    assert Run(EMPTY, [p, q]) == Apply(Apply(EMPTY, p), q);
    assert p.token == Token(pa, n) && q.token == Token(pb, n);
    VisibleStatus(Apply(Apply(EMPTY, p), q), n);
  }
}
