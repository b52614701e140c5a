/** Module namespaces: explicit exports and star exports. */
module ModuleExports {
  import opened Basics

  datatype Name = Name(id: nat)

  const DEFAULT: Name := Name(0)

  datatype Value = Undefined | Value(id: int)

  /** Where a star export comes from: the module and the binding there. */
  datatype Token = Token(path: nat, binding: Name)

  datatype Origin = Local | Reexport(token: Token, direct: bool) | Ambiguous

  datatype Live = Held(value: Value, initialized: bool) | Cell(cell: nat)

  datatype Entry = Entry(name: Name, origin: Origin, live: Live)

  /** A namespace object: its property slots, and its entries if it has a table. */
  datatype State = State(slots: map<Name, Value>, table: Option<seq<Entry>>)

  const EMPTY: State := State(map[], None)

  function IndexOf(es: seq<Entry>, n: Name): (r: Option<nat>)
    ensures r.Some? ==> r.value < |es| && es[r.value].name == n
    ensures r.None? ==> forall i :: 0 <= i < |es| ==> es[i].name != n
  {
    if es == [] then None
    else if es[0].name == n then Some(0)
    else
      var r := IndexOf(es[1..], n);
      assert r.None? ==> forall i :: 1 <= i < |es| ==> es[i] == es[1..][i - 1];
      if r.None? then None else Some(r.value + 1)
  }

  function Entries(s: State): seq<Entry> {
    if s.table.None? then [] else s.table.value
  }

  // ---- Operations ----

  /** An explicit export: an entry whose value lives in a cell is left alone, a slot
      that is there is updated, otherwise slot and entry are made.  A namespace
      without a table gets no entry. */
  function SetExport(s: State, n: Name, v: Value, origin: Origin): State {
    var i := IndexOf(Entries(s), n);
    if i.Some? && s.table.value[i.value].live.Cell? then s
    else
      var slots := s.slots[n := v];
      if i.Some? then
        State(slots, Some(s.table.value[i.value := Entry(n, origin, Held(v, true))]))
      else if s.table.Some? then
        State(slots, Some(s.table.value + [Entry(n, origin, Held(v, true))]))
      else State(slots, None)
  }

  /** A re-export makes sure that there is a table. */
  function SetReexport(s: State, n: Name, v: Value, token: Token): State {
    SetExport(State(s.slots, Some(Entries(s))), n, v, Reexport(token, true))
  }

  /** A name announced before the module runs. */
  function PreRegister(s: State, n: Name, varLike: bool): State {
    if IndexOf(Entries(s), n).Some? then s
    else State(s.slots[n := Undefined], Some(Entries(s) + [Entry(n, Local, Held(Undefined, varLike))]))
  }

  /** An announced name bound to a cell. */
  function SetCell(s: State, n: Name, cell: nat, v: Value): State {
    var i := IndexOf(Entries(s), n);
    if i.None? then s
    else State(if n in s.slots then s.slots[n := v] else s.slots,
               Some(s.table.value[i.value := s.table.value[i.value].(live := Cell(cell))]))
  }

  /** One name of a star export. */
  function StarOne(s: State, n: Name, v: Value, token: Token): State {
    var i := IndexOf(Entries(s), n);
    if i.Some? then
      var e := s.table.value[i.value];
      match e.origin
      case Ambiguous => s
      case Local => s
      case Reexport(t, direct) =>
        if direct || t == token then s
        else State(s.slots - {n}, Some(s.table.value[i.value := Entry(n, Ambiguous, Held(Undefined, false))]))
    else if n in s.slots then s
    else State(s.slots[n := v], Some(Entries(s) + [Entry(n, Reexport(token, false), Held(v, true))]))
  }

  /** What a name of another namespace is known as: what it was re-exported from
      there, or the name in that module. */
  function SourceToken(src: State, n: Name, path: nat): Token {
    var i := IndexOf(Entries(src), n);
    if i.Some? && src.table.value[i.value].origin.Reexport? then src.table.value[i.value].origin.token
    else Token(path, n)
  }

  // ---- What a namespace keeps ----

  /** Entry table and slots agree: names are entered once, a slot is there exactly
      for the entries that are not ambiguous, and it holds the entry's value. */
  ghost predicate Agree(s: State) {
    var es := Entries(s);
    && (forall i, j :: 0 <= i < j < |es| ==> es[i].name != es[j].name)
    && (forall i :: 0 <= i < |es| ==> (es[i].name in s.slots <==> !es[i].origin.Ambiguous?))
    && (forall i :: 0 <= i < |es| && es[i].live.Held? && es[i].name in s.slots ==> s.slots[es[i].name] == es[i].live.value)
  }

  predicate IsExplicit(o: Origin) {
    o.Local? || (o.Reexport? && o.direct)
  }

  /** What a name is in a namespace.  A star export or a conflict is frozen when its
      entry was bound to a cell. */
  datatype Status = Absent | Explicit | Starred(token: Token, frozen: bool) | Conflict(frozen: bool)

  function EntryStatus(e: Entry): Status {
    if e.origin.Ambiguous? then Conflict(e.live.Cell?)
    else if IsExplicit(e.origin) then Explicit
    else Starred(e.origin.token, e.live.Cell?)
  }

  function StatusOf(s: State, n: Name): Status {
    var i := IndexOf(Entries(s), n);
    if i.None? then if n in s.slots then Explicit else Absent
    else EntryStatus(s.table.value[i.value])
  }

  predicate Visible(s: State, n: Name) { n in s.slots }

  lemma VisibleStatus(s: State, n: Name)
    requires Agree(s)
    ensures Visible(s, n) <==> StatusOf(s, n).Explicit? || StatusOf(s, n).Starred?
  {
  }

  // ---- Runs ----

  datatype Event =
    | Set(name: Name, value: Value)
    | SetFrom(name: Name, value: Value, token: Token)
    | Register(name: Name, varLike: bool)
    | Bind(name: Name, cell: nat, value: Value)
    | Provide(name: Name, value: Value, token: Token)

  function Apply(s: State, ev: Event): State {
    match ev
    case Set(n, v) => SetExport(s, n, v, Local)
    case SetFrom(n, v, t) => SetReexport(s, n, v, t)
    case Register(n, varLike) => PreRegister(s, n, varLike)
    case Bind(n, c, v) => SetCell(s, n, c, v)
    case Provide(n, v, t) => StarOne(s, n, v, t)
  }

  function Run(s: State, evs: seq<Event>): State {
    if evs == [] then s else Apply(Run(s, evs[..|evs| - 1]), evs[|evs| - 1])
  }

  predicate IsFrozen(st: Status) {
    (st.Starred? || st.Conflict?) && st.frozen
  }

  /** How an event changes what a name is.  An explicit export does nothing to a
      frozen name; a conflict thaws it. */
  function Next(st: Status, ev: Event, n: Name): Status {
    if ev.name != n then st
    else match ev
      case Set(_, _) => if IsFrozen(st) then st else Explicit
      case SetFrom(_, _, _) => if IsFrozen(st) then st else Explicit
      case Register(_, _) => if st.Absent? then Explicit else st
      case Bind(_, _, _) =>
        if st.Starred? then Starred(st.token, true) else if st.Conflict? then Conflict(true) else st
      case Provide(_, _, t) =>
        if st.Absent? then Starred(t, false) else if st.Starred? && st.token != t then Conflict(false) else st
  }

  // ---- Each event keeps the agreement ----

  lemma IndexUnique(es: seq<Entry>, i: nat)
    requires i < |es| && forall j, k :: 0 <= j < k < |es| ==> es[j].name != es[k].name
    ensures IndexOf(es, es[i].name) == Some(i)
  {
  }

  /** The index after an entry is replaced by one of the same name. */
  lemma IndexAfterUpdate(es: seq<Entry>, i: nat, e: Entry, n: Name)
    requires i < |es| && es[i].name == e.name && forall j, k :: 0 <= j < k < |es| ==> es[j].name != es[k].name
    ensures IndexOf(es[i := e], n) == IndexOf(es, n)
  {
    var fs := es[i := e];
    assert forall j :: 0 <= j < |es| ==> fs[j].name == es[j].name;
    var r := IndexOf(es, n);
    if r.Some? {
      IndexUnique(fs, r.value);
    }
  }

  lemma IndexAfterPush(es: seq<Entry>, e: Entry, n: Name)
    requires forall j, k :: 0 <= j < k < |es| ==> es[j].name != es[k].name
    requires IndexOf(es, e.name).None?
    ensures IndexOf(es + [e], n) == if n == e.name then Some(|es|) else IndexOf(es, n)
  {
    var fs := es + [e];
    assert forall j, k :: 0 <= j < k < |fs| ==> fs[j].name != fs[k].name;
    var r := IndexOf(es, n);
    if n == e.name {
      IndexUnique(fs, |es|);
    } else if r.Some? {
      assert fs[r.value] == es[r.value];
      IndexUnique(fs, r.value);
    }
  }

  /** Replacing the entry of a name. */
  lemma UpdateKeeps(s: State, i: nat, e: Entry, slots: map<Name, Value>)
    requires Agree(s) && s.table.Some? && i < |s.table.value| && s.table.value[i].name == e.name
    requires forall m :: m != e.name ==> (m in slots <==> m in s.slots) && (m in slots ==> slots[m] == s.slots[m])
    requires e.name in slots <==> !e.origin.Ambiguous?
    requires e.live.Held? && e.name in slots ==> slots[e.name] == e.live.value
    ensures
      var r := State(slots, Some(s.table.value[i := e]));
      && Agree(r)
      && (forall m :: m != e.name ==> StatusOf(r, m) == StatusOf(s, m))
      && StatusOf(r, e.name) == EntryStatus(e)
  {
    var es := s.table.value;
    var fs := es[i := e];
    assert es == Entries(s);
    assert forall j :: 0 <= j < |es| ==> fs[j].name == es[j].name;
    IndexUnique(es, i);
    forall m: Name
      ensures IndexOf(fs, m) == IndexOf(es, m)
    {
      IndexAfterUpdate(es, i, e, m);
    }
  }

  /** Adding an entry for a name that has none. */
  lemma PushKeeps(s: State, e: Entry, slots: map<Name, Value>)
    requires Agree(s) && IndexOf(Entries(s), e.name).None?
    requires forall m :: m != e.name ==> (m in slots <==> m in s.slots) && (m in slots ==> slots[m] == s.slots[m])
    requires e.name in slots && !e.origin.Ambiguous? && e.live.Held? && slots[e.name] == e.live.value
    ensures
      var r := State(slots, Some(Entries(s) + [e]));
      && Agree(r)
      && (forall m :: m != e.name ==> StatusOf(r, m) == StatusOf(s, m))
      && StatusOf(r, e.name) == EntryStatus(e)
  {
    var es := Entries(s);
    var fs := es + [e];
    forall m: Name
      ensures IndexOf(fs, m) == if m == e.name then Some(|es|) else IndexOf(es, m)
    {
      IndexAfterPush(es, e, m);
    }
  }

  lemma SetKeeps(s: State, n: Name, v: Value, origin: Origin)
    requires Agree(s) && IsExplicit(origin)
    ensures
      var r := SetExport(s, n, v, origin);
      && Agree(r) && (forall m :: m != n ==> StatusOf(r, m) == StatusOf(s, m))
      && StatusOf(r, n) == if IsFrozen(StatusOf(s, n)) then StatusOf(s, n) else Explicit
  {
    var i := IndexOf(Entries(s), n);
    if i.Some? {
      if s.table.value[i.value].live.Held? {
        UpdateKeeps(s, i.value, Entry(n, origin, Held(v, true)), s.slots[n := v]);
      }
    } else if s.table.Some? {
      PushKeeps(s, Entry(n, origin, Held(v, true)), s.slots[n := v]);
    }
  }

  lemma StarKeeps(s: State, n: Name, v: Value, token: Token)
    requires Agree(s)
    ensures
      var r := StarOne(s, n, v, token);
      && Agree(r) && (forall m :: m != n ==> StatusOf(r, m) == StatusOf(s, m))
      && StatusOf(r, n) == Next(StatusOf(s, n), Provide(n, v, token), n)
  {
    var i := IndexOf(Entries(s), n);
    if i.Some? {
      var o := s.table.value[i.value].origin;
      if o.Reexport? && !o.direct && o.token != token {
        UpdateKeeps(s, i.value, Entry(n, Ambiguous, Held(Undefined, false)), s.slots - {n});
      }
    } else if n !in s.slots {
      PushKeeps(s, Entry(n, Reexport(token, false), Held(v, true)), s.slots[n := v]);
    }
  }

  lemma TableKeeps(s: State)
    requires Agree(s)
    ensures
      var r := State(s.slots, Some(Entries(s)));
      Agree(r) && forall m :: StatusOf(r, m) == StatusOf(s, m)
  {
    var r := State(s.slots, Some(Entries(s)));
    assert Entries(r) == Entries(s);
  }

  lemma CellKeeps(s: State, n: Name, cell: nat, v: Value)
    requires Agree(s)
    ensures
      var r := SetCell(s, n, cell, v);
      && Agree(r) && (forall m :: m != n ==> StatusOf(r, m) == StatusOf(s, m))
      && StatusOf(r, n) == Next(StatusOf(s, n), Bind(n, cell, v), n)
  {
    var i := IndexOf(Entries(s), n);
    if i.Some? {
      UpdateKeeps(s, i.value, s.table.value[i.value].(live := Cell(cell)), if n in s.slots then s.slots[n := v] else s.slots);
    }
  }

  lemma ApplyKeeps(s: State, ev: Event)
    requires Agree(s)
    ensures Agree(Apply(s, ev))
    ensures forall m :: StatusOf(Apply(s, ev), m) == Next(StatusOf(s, m), ev, m)
  {
    hide StatusOf, Agree, SetExport, StarOne;
    match ev
    case Set(n, v) => SetKeeps(s, n, v, Local);
    case SetFrom(n, v, t) =>
      TableKeeps(s);
      SetKeeps(State(s.slots, Some(Entries(s))), n, v, Reexport(t, true));
    case Register(n, varLike) => RegisterKeeps(s, n, varLike);
    case Bind(n, c, v) => CellKeeps(s, n, c, v);
    case Provide(n, v, t) => StarKeeps(s, n, v, t);
  }

  lemma RegisterKeeps(s: State, n: Name, varLike: bool)
    requires Agree(s)
    ensures
      var r := PreRegister(s, n, varLike);
      && Agree(r) && (forall m :: m != n ==> StatusOf(r, m) == StatusOf(s, m))
      && StatusOf(r, n) == Next(StatusOf(s, n), Register(n, varLike), n)
  {
    if IndexOf(Entries(s), n).None? {
      PushKeeps(s, Entry(n, Local, Held(Undefined, varLike)), s.slots[n := Undefined]);
    }
  }

  // ---- Which names are visible ----

  predicate Sets(ev: Event, n: Name) { (ev.Set? || ev.SetFrom?) && ev.name == n }

  predicate Provides(evs: seq<Event>, n: Name) {
    exists i :: 0 <= i < |evs| && evs[i].Provide? && evs[i].name == n
  }

  /** Two star exports gave the name from different bindings. */
  predicate Conflicting(evs: seq<Event>, n: Name) {
    exists i, j :: 0 <= i < j < |evs| && Gives(evs[i], n) && Gives(evs[j], n) && evs[i].token != evs[j].token
  }

  predicate Gives(ev: Event, n: Name) { ev.Provide? && ev.name == n }

  /** The name was bound to a cell after a star export gave it, and no conflict has
      come up since. */
  predicate Bound(evs: seq<Event>, n: Name) {
    exists i :: 0 <= i < |evs| && BindsAt(evs, n, i) && (Conflicting(evs, n) ==> Conflicting(evs[..i], n))
  }

  predicate BindsAt(evs: seq<Event>, n: Name, i: nat)
    requires i < |evs|
  {
    evs[i].Bind? && evs[i].name == n && Provides(evs[..i], n)
  }

  /** The event makes the name explicit: an explicit export of a name not bound to a
      cell while a star export, or an announcement before any star export. */
  predicate Declares(evs: seq<Event>, n: Name, i: nat)
    requires i < |evs|
  {
    || (Sets(evs[i], n) && !Bound(evs[..i], n))
    || (evs[i].Register? && evs[i].name == n && !Provides(evs[..i], n))
  }

  predicate Explicitly(evs: seq<Event>, n: Name) {
    exists i :: 0 <= i < |evs| && Declares(evs, n, i)
  }

  /** Some star export gave the name, and all that did gave the same binding. */
  predicate OneProvider(evs: seq<Event>, n: Name, t: Token) {
    Provides(evs, n) && forall i :: 0 <= i < |evs| && Gives(evs[i], n) ==> evs[i].token == t
  }

  /** What the log says of a name that was not made explicit. */
  function StatusFromLog(evs: seq<Event>, n: Name): Status {
    if !Provides(evs, n) then Absent
    else if Conflicting(evs, n) then Conflict(Bound(evs, n))
    else Starred(FirstToken(evs, n), Bound(evs, n))
  }

  function FirstToken(evs: seq<Event>, n: Name): Token
    requires Provides(evs, n)
  {
    if Gives(evs[0], n) then evs[0].token
    else
      ProvidesRest(evs, n);
      FirstToken(evs[1..], n)
  }

  lemma ProvidesRest(evs: seq<Event>, n: Name)
    requires Provides(evs, n)
    ensures evs != [] && (!Gives(evs[0], n) ==> Provides(evs[1..], n))
  {
    var i :| 0 <= i < |evs| && evs[i].Provide? && evs[i].name == n;
    if i > 0 {
      assert evs[1..][i - 1] == evs[i];
    }
  }

  // ---- The log, one event at a time ----

  lemma ProvidesMore(evs: seq<Event>, ev: Event, n: Name)
    ensures Provides(evs + [ev], n) <==> Provides(evs, n) || Gives(ev, n)
  {
    var all := evs + [ev];
    assert all[|evs|] == ev;
    assert forall i :: 0 <= i < |evs| ==> all[i] == evs[i];
  }

  lemma {:induction false} FirstIsAmong(evs: seq<Event>, n: Name)
    requires Provides(evs, n)
    ensures exists i :: 0 <= i < |evs| && Gives(evs[i], n) && evs[i].token == FirstToken(evs, n)
  {
    ProvidesRest(evs, n);
    if Gives(evs[0], n) {
      assert evs[0].token == FirstToken(evs, n);
    } else {
      FirstIsAmong(evs[1..], n);
      var i :| 0 <= i < |evs| - 1 && Gives(evs[1..][i], n) && evs[1..][i].token == FirstToken(evs[1..], n);
      assert evs[i + 1] == evs[1..][i];
    }
  }

  lemma {:induction false} FirstStays(evs: seq<Event>, ev: Event, n: Name)
    requires Provides(evs, n) || Gives(ev, n)
    ensures Provides(evs + [ev], n)
    ensures FirstToken(evs + [ev], n) == if Provides(evs, n) then FirstToken(evs, n) else ev.token
  {
    ProvidesMore(evs, ev, n);
    var all := evs + [ev];
    if evs == [] {
      assert all[0] == ev;
    } else {
      assert all[0] == evs[0] && all[1..] == evs[1..] + [ev];
      if !Gives(evs[0], n) {
        ProvidesMore(evs[1..], ev, n);
        assert evs == [evs[0]] + evs[1..];
        ProvidesAfter(evs, n);
        FirstStays(evs[1..], ev, n);
      }
    }
  }

  lemma ProvidesAfter(evs: seq<Event>, n: Name)
    requires evs != [] && !Gives(evs[0], n)
    ensures Provides(evs, n) <==> Provides(evs[1..], n)
  {
    if i :| 0 <= i < |evs| && evs[i].Provide? && evs[i].name == n {
      assert evs[1..][i - 1] == evs[i];
    }
    if i :| 0 <= i < |evs| - 1 && evs[1..][i].Provide? && evs[1..][i].name == n {
      assert evs[i + 1] == evs[1..][i];
    }
  }

  lemma ConflictingMore(evs: seq<Event>, ev: Event, n: Name)
    ensures !Gives(ev, n) || !Provides(evs, n) ==> (Conflicting(evs + [ev], n) <==> Conflicting(evs, n))
    ensures Gives(ev, n) && Provides(evs, n) ==>
              (Conflicting(evs + [ev], n) <==> Conflicting(evs, n) || ev.token != FirstToken(evs, n))
  {
    var all := evs + [ev];
    assert all[|evs|] == ev;
    assert forall i :: 0 <= i < |evs| ==> all[i] == evs[i];
    if Gives(ev, n) && Provides(evs, n) {
      FirstIsAmong(evs, n);
    }
  }

  lemma ConflictingPrefix(evs: seq<Event>, i: nat, n: Name)
    requires i <= |evs|
    ensures Conflicting(evs[..i], n) ==> Conflicting(evs, n)
    ensures Provides(evs[..i], n) ==> Provides(evs, n)
  {
    assert forall j :: 0 <= j < i ==> evs[..i][j] == evs[j];
  }

  lemma BoundMore(evs: seq<Event>, ev: Event, n: Name)
    ensures Bound(evs, n) ==> Provides(evs, n)
    ensures ev.Bind? && ev.name == n && Provides(evs, n) ==> Bound(evs + [ev], n)
    ensures Conflicting(evs + [ev], n) && !Conflicting(evs, n) ==> !Bound(evs + [ev], n)
    ensures !(ev.Bind? && ev.name == n && Provides(evs, n)) && (Conflicting(evs + [ev], n) ==> Conflicting(evs, n)) ==>
              (Bound(evs + [ev], n) <==> Bound(evs, n))
  {
    hide Conflicting, Provides;
    var all := evs + [ev];
    assert all[|evs|] == ev && all[..|evs|] == evs;
    forall i | 0 <= i < |evs|
      ensures all[i] == evs[i] && all[..i] == evs[..i]
      ensures Conflicting(evs[..i], n) ==> Conflicting(evs, n)
      ensures Provides(evs[..i], n) ==> Provides(evs, n)
    {
      ConflictingPrefix(evs, i, n);
    }
    ConflictingPrefix(all, |evs|, n);
    if ev.Bind? && ev.name == n && Provides(evs, n) {
      assert BindsAt(all, n, |evs|);
      ConflictingMore(evs, ev, n);
    }
    forall i | 0 <= i < |evs|
      ensures BindsAt(all, n, i) <==> BindsAt(evs, n, i)
    {
    }
  }

  lemma ExplicitlyMore(evs: seq<Event>, ev: Event, n: Name)
    ensures Explicitly(evs + [ev], n) <==>
              || Explicitly(evs, n)
              || (Sets(ev, n) && !Bound(evs, n))
              || (ev.Register? && ev.name == n && !Provides(evs, n))
  {
    hide Bound, Provides;
    var all := evs + [ev];
    assert all[|evs|] == ev && all[..|evs|] == evs;
    forall i | 0 <= i < |evs|
      ensures Declares(all, n, i) <==> Declares(evs, n, i)
    {
      assert all[i] == evs[i] && all[..i] == evs[..i];
    }
    assert Declares(all, n, |evs|) <==>
           (Sets(ev, n) && !Bound(evs, n)) || (ev.Register? && ev.name == n && !Provides(evs, n));
  }

  /** What a name is according to the log. */
  function StatusInLog(evs: seq<Event>, n: Name): Status {
    if Explicitly(evs, n) then Explicit else StatusFromLog(evs, n)
  }

  lemma LogStep(evs: seq<Event>, ev: Event, n: Name)
    ensures StatusInLog(evs + [ev], n) == Next(StatusInLog(evs, n), ev, n)
  {
    hide Bound, Provides, Conflicting, Explicitly, FirstToken;
    ProvidesMore(evs, ev, n);
    ConflictingMore(evs, ev, n);
    BoundMore(evs, ev, n);
    ExplicitlyMore(evs, ev, n);
    if Provides(evs, n) || Gives(ev, n) {
      FirstStays(evs, ev, n);
    }
    ConflictNeedsTwo(evs, n);
  }

  lemma ConflictNeedsTwo(evs: seq<Event>, n: Name)
    ensures Conflicting(evs, n) ==> Provides(evs, n)
  {
  }

  /** After any log the tables agree, and every name is what the log says. */
  lemma {:induction false} RunStatus(evs: seq<Event>, n: Name)
    ensures Agree(Run(EMPTY, evs)) && StatusOf(Run(EMPTY, evs), n) == StatusInLog(evs, n)
  {
    if evs == [] {
      assert !Explicitly(evs, n) && !Provides(evs, n);
    } else {
      var front, ev := evs[..|evs| - 1], evs[|evs| - 1];
      RunStatus(front, n);
      ApplyKeeps(Run(EMPTY, front), ev);
      LogStep(front, ev, n);
      assert evs == front + [ev];
    }
  }

  /** The visible names are the explicit ones and those whose star exports all lead to
      one binding. */
  lemma VisibleIff(evs: seq<Event>, n: Name)
    ensures Visible(Run(EMPTY, evs), n) <==> Explicitly(evs, n) || exists t :: OneProvider(evs, n, t)
  {
    hide Run, Explicitly, OneProvider, Provides, StatusOf, Conflicting, Bound, FirstToken, Visible;
    RunStatus(evs, n);
    VisibleStatus(Run(EMPTY, evs), n);
    OneOrConflict(evs, n);
  }

  lemma OneOrConflict(evs: seq<Event>, n: Name)
    ensures (exists t :: OneProvider(evs, n, t)) <==> Provides(evs, n) && !Conflicting(evs, n)
  {
    if Provides(evs, n) && !Conflicting(evs, n) {
      FirstIsAmong(evs, n);
      assert OneProvider(evs, n, FirstToken(evs, n));
    }
  }

  /** So the order does not matter: logs with the same explicit names and the same
      star exports make the same names visible. */
  lemma OrderDoesNotMatter(a: seq<Event>, b: seq<Event>, n: Name)
    requires Explicitly(a, n) <==> Explicitly(b, n)
    requires forall t :: GivenFrom(a, n, t) <==> GivenFrom(b, n, t)
    ensures Visible(Run(EMPTY, a), n) <==> Visible(Run(EMPTY, b), n)
  {
    hide Run, Explicitly;
    VisibleIff(a, n);
    VisibleIff(b, n);
    forall t
      ensures OneProvider(a, n, t) <==> OneProvider(b, n, t)
    {
      ProviderTokens(a, n, t);
      ProviderTokens(b, n, t);
    }
  }

  predicate GivenFrom(evs: seq<Event>, n: Name, t: Token) {
    exists i :: 0 <= i < |evs| && evs[i].Provide? && evs[i].name == n && evs[i].token == t
  }

  lemma ProviderTokens(evs: seq<Event>, n: Name, t: Token)
    ensures OneProvider(evs, n, t) <==> GivenFrom(evs, n, t) && forall u :: GivenFrom(evs, n, u) ==> u == t
  {
    if i :| 0 <= i < |evs| && evs[i].Provide? && evs[i].name == n {
      assert GivenFrom(evs, n, evs[i].token);
    }
    forall i | 0 <= i < |evs| && evs[i].Provide? && evs[i].name == n
      ensures GivenFrom(evs, n, evs[i].token)
    {
    }
  }

  // ---- The order of star exports ----

  /** What a name is after a list of events. */
  function After(st: Status, evs: seq<Event>, n: Name): Status {
    if evs == [] then st else Next(After(st, evs[..|evs| - 1], n), evs[|evs| - 1], n)
  }

  lemma {:induction false} RunAfter(s: State, evs: seq<Event>, n: Name)
    requires Agree(s)
    ensures Agree(Run(s, evs)) && StatusOf(Run(s, evs), n) == After(StatusOf(s, n), evs, n)
  {
    hide Agree, StatusOf, Apply, Next;
    if evs != [] {
      var front := evs[..|evs| - 1];
      RunAfter(s, front, n);
      ApplyKeeps(Run(s, front), evs[|evs| - 1]);
    }
  }

  lemma {:induction false} AfterConcat(st: Status, a: seq<Event>, b: seq<Event>, n: Name)
    ensures After(st, a + b, n) == After(After(st, a, n), b, n)
    decreases |b|
  {
    hide Next;
    if b == [] {
      assert a + b == a;
    } else {
      var front := b[..|b| - 1];
      AfterConcat(st, a, front, n);
      assert (a + b)[..|a + b| - 1] == a + front;
    }
  }

  predicate AllProvide(evs: seq<Event>) {
    forall i :: 0 <= i < |evs| ==> evs[i].Provide?
  }

  lemma StarsCommute(st: Status, p: Event, q: Event, n: Name)
    requires p.Provide? && q.Provide?
    ensures Next(Next(st, p, n), q, n) == Next(Next(st, q, n), p, n)
  {
  }

  /** One star export may as well come last. */
  lemma {:induction false} StarToEnd(st: Status, evs: seq<Event>, i: nat, n: Name)
    requires AllProvide(evs) && i < |evs|
    ensures After(st, evs, n) == Next(After(st, evs[..i] + evs[i + 1..], n), evs[i], n)
    decreases |evs|
  {
    hide Next;
    var front, last := evs[..|evs| - 1], evs[|evs| - 1];
    var rest := evs[..i] + evs[i + 1..];
    if i == |evs| - 1 {
      assert rest == front;
    } else {
      StarToEnd(st, front, i, n);
      var inner := front[..i] + front[i + 1..];
      assert rest[..|rest| - 1] == inner && rest[|rest| - 1] == last;
      StarsCommute(After(st, inner, n), evs[i], last, n);
    }
  }

  /** The last of one list is somewhere in the other; without it they still have the
      same elements. */
  lemma LastAmong(ps: seq<Event>, qs: seq<Event>) returns (i: nat)
    requires ps != [] && multiset(ps) == multiset(qs)
    ensures i < |qs| && qs[i] == ps[|ps| - 1]
    ensures multiset(ps[..|ps| - 1]) == multiset(qs[..i] + qs[i + 1..])
  {
    var p := ps[|ps| - 1];
    assert ps == ps[..|ps| - 1] + [p];
    assert p in multiset(qs);
    i :| 0 <= i < |qs| && qs[i] == p;
    assert qs == qs[..i] + [p] + qs[i + 1..];
    assert multiset(qs[..i] + qs[i + 1..]) == multiset(qs) - multiset{p};
    assert multiset(ps[..|ps| - 1]) == multiset(ps) - multiset{p};
  }

  lemma {:induction false} StarsPermute(st: Status, ps: seq<Event>, qs: seq<Event>, n: Name)
    requires AllProvide(ps) && AllProvide(qs) && multiset(ps) == multiset(qs)
    ensures After(st, ps, n) == After(st, qs, n)
    decreases |ps|
  {
    hide Next;
    if ps == [] {
      assert |qs| == |multiset(qs)| == 0;
    } else {
      var front := ps[..|ps| - 1];
      var i := LastAmong(ps, qs);
      StarToEnd(st, qs, i, n);
      StarsPermute(st, front, qs[..i] + qs[i + 1..], n);
    }
  }

  /** Star exports next to each other, anywhere in a log, may come in any order: every
      name is then the same, and the same names are visible. */
  lemma StarOrderDoesNotMatter(before: seq<Event>, ps: seq<Event>, qs: seq<Event>, after: seq<Event>, n: Name)
    requires AllProvide(ps) && AllProvide(qs) && multiset(ps) == multiset(qs)
    ensures StatusOf(Run(EMPTY, before + ps + after), n) == StatusOf(Run(EMPTY, before + qs + after), n)
    ensures Visible(Run(EMPTY, before + ps + after), n) <==> Visible(Run(EMPTY, before + qs + after), n)
  {
    hide Run, After, StatusOf, Visible, AllProvide;
    var st := StatusOf(EMPTY, n);
    RunAfter(EMPTY, before + ps + after, n);
    RunAfter(EMPTY, before + qs + after, n);
    AfterConcat(st, before + ps, after, n);
    AfterConcat(st, before + qs, after, n);
    AfterConcat(st, before, ps, n);
    AfterConcat(st, before, qs, n);
    StarsPermute(After(st, before, n), ps, qs, n);
    VisibleStatus(Run(EMPTY, before + ps + after), n);
    VisibleStatus(Run(EMPTY, before + qs + after), n);
  }

  // ---- Repeating a star export ----

  /** An export that a namespace has already taken into account. */
  predicate Settled(s: State, ev: Event)
    requires ev.Provide?
  {
    var st := StatusOf(s, ev.name);
    st.Explicit? || st.Conflict? || (st.Starred? && st.token == ev.token)
  }

  lemma SettledIsNothing(s: State, ev: Event)
    requires ev.Provide? && Settled(s, ev)
    ensures Apply(s, ev) == s
  {
  }

  lemma SettledStays(s: State, ev: Event, p: Event)
    requires Agree(s) && ev.Provide? && p.Provide?
    ensures Settled(Apply(s, ev), ev)
    ensures Settled(s, p) ==> Settled(Apply(s, ev), p)
  {
    hide StatusOf, Agree, Apply;
    ApplyKeeps(s, ev);
  }

  lemma {:induction false} AllSettled(s: State, evs: seq<Event>, i: nat)
    requires Agree(s) && AllProvide(evs) && i < |evs|
    ensures Agree(Run(s, evs)) && Settled(Run(s, evs), evs[i])
  {
    var front, ev := evs[..|evs| - 1], evs[|evs| - 1];
    assert forall j :: 0 <= j < |front| ==> front[j] == evs[j];
    RunAfter(s, front, ev.name);
    SettledStays(Run(s, front), ev, evs[i]);
    ApplyKeeps(Run(s, front), ev);
    if i < |front| {
      AllSettled(s, front, i);
    }
  }

  lemma {:induction false} NothingLeft(s: State, evs: seq<Event>)
    requires AllProvide(evs) && forall i :: 0 <= i < |evs| ==> Settled(s, evs[i])
    ensures Run(s, evs) == s
  {
    if evs != [] {
      hide Settled, Apply;
      var front := evs[..|evs| - 1];
      assert forall j :: 0 <= j < |front| ==> front[j] == evs[j];
      NothingLeft(s, front);
      SettledIsNothing(s, evs[|evs| - 1]);
    }
  }

  /** Doing a star export again changes nothing at all. */
  lemma StarTwice(s: State, evs: seq<Event>)
    requires Agree(s) && AllProvide(evs)
    ensures Run(Run(s, evs), evs) == Run(s, evs)
  {
    hide Settled, Run, Agree;
    forall i | 0 <= i < |evs|
      ensures Settled(Run(s, evs), evs[i])
    {
      AllSettled(s, evs, i);
    }
    NothingLeft(Run(s, evs), evs);
  }

  // ---- Passing star exports on ----

  /** A star export passed on keeps its provenance. */
  lemma PassedOn(s: State, n: Name, path: nat)
    requires StatusOf(s, n).Starred?
    ensures SourceToken(s, n, path) == StatusOf(s, n).token
  {
  }

  /** So a name that reaches a namespace by star exports from two others, which both
      had it by star export from one binding, does not conflict. */
  lemma Diamond(s: State, a: State, b: State, n: Name, v: Value, w: Value, pa: nat, pb: nat)
    requires Agree(s) && StatusOf(s, n).Absent?
    requires StatusOf(a, n).Starred? && StatusOf(b, n).Starred?
    ensures
      var r := StarOne(StarOne(s, n, v, SourceToken(a, n, pa)), n, w, SourceToken(b, n, pb));
      Visible(r, n) <==> StatusOf(a, n).token == StatusOf(b, n).token
  {
    hide StatusOf, Agree, StarOne, SourceToken, Visible;
    PassedOn(a, n, pa);
    PassedOn(b, n, pb);
    var p, q := Provide(n, v, SourceToken(a, n, pa)), Provide(n, w, SourceToken(b, n, pb));
    ApplyKeeps(s, p);
    ApplyKeeps(Apply(s, p), q);
    VisibleStatus(Apply(Apply(s, p), q), n);
  }
}
