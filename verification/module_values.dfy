/** Which value an export holds: the one written last, said of the log of events. */
module ModuleValues {
  import opened Basics
  import opened ModuleExports

  // ---- What a namespace has for a name ----

  function EntryAt(s: State, n: Name): Option<Entry> {
    var i := IndexOf(Entries(s), n);
    if i.None? then None else Some(Entries(s)[i.value])
  }

  function SlotAt(s: State, n: Name): Option<Value> {
    if n in s.slots then Some(s.slots[n]) else None
  }

  datatype Query = NotExported | Uninitialized | Initialized(value: Value)

  /** What a reader sees of a namespace; `cells` are the cells that have been
      initialised. */
  function Answer(s: State, n: Name, cells: map<nat, Value>): Query {
    var e := EntryAt(s, n);
    if e.None? || e.value.origin.Ambiguous? then NotExported
    else
      match e.value.live
      case Held(v, initialized) => if initialized then Initialized(v) else Uninitialized
      case Cell(c) => if c in cells then Initialized(cells[c]) else Uninitialized
  }

  // ---- What the log says ----

  predicate SetBefore(evs: seq<Event>, n: Name) {
    exists i :: 0 <= i < |evs| && evs[i].Set? && evs[i].name == n
  }

  /** From the first of these on the namespace has a table of entries: a re-export, an
      announcement, or a star export of a name that was not set before. */
  predicate Installs(evs: seq<Event>, i: nat)
    requires i < |evs|
  {
    evs[i].SetFrom? || evs[i].Register? || (evs[i].Provide? && !SetBefore(evs[..i], evs[i].name))
  }

  predicate HasTable(evs: seq<Event>) {
    exists i :: 0 <= i < |evs| && Installs(evs, i)
  }

  /** The event gives the name an entry, unless it has one. */
  predicate Enters(evs: seq<Event>, n: Name, i: nat)
    requires i < |evs|
  {
    && evs[i].name == n
    && (Installs(evs, i) || (evs[i].Set? && HasTable(evs[..i])))
  }

  predicate HasEntry(evs: seq<Event>, n: Name) {
    exists i :: 0 <= i < |evs| && Enters(evs, n, i)
  }

  /** A star export that differs from the one the name has. */
  predicate Clashes(evs: seq<Event>, ev: Event, n: Name) {
    Gives(ev, n) && StatusInLog(evs, n).Starred? && StatusInLog(evs, n).token != ev.token
  }

  /** The cell the name was bound to last, unless a conflict came since. */
  function CellIn(evs: seq<Event>, n: Name): Option<nat> {
    if evs == [] then None
    else
      var front, ev := evs[..|evs| - 1], evs[|evs| - 1];
      if ev.Bind? && ev.name == n && HasEntry(front, n) then Some(ev.cell)
      else if Clashes(front, ev, n) then None
      else CellIn(front, n)
  }

  /** The event writes the value of the name: an export of a name not in a cell, the
      binding of a visible name to a cell, an announcement of a name without entry, or
      a star export of a name that is not there. */
  predicate Writes(evs: seq<Event>, n: Name, i: nat)
    requires i < |evs|
  {
    && evs[i].name == n
    && match evs[i]
       case Set(_, _) => CellIn(evs[..i], n).None?
       case SetFrom(_, _, _) => CellIn(evs[..i], n).None?
       case Register(_, _) => !HasEntry(evs[..i], n)
       case Bind(_, _, _) => HasEntry(evs[..i], n) && (StatusInLog(evs[..i], n).Explicit? || StatusInLog(evs[..i], n).Starred?)
       case Provide(_, _, _) => StatusInLog(evs[..i], n).Absent?
  }

  /** An announced name is undefined. */
  function Written(ev: Event): Value {
    if ev.Register? then Undefined else ev.value
  }

  /** Event i is the last that wrote the value of the name. */
  predicate LastWrite(evs: seq<Event>, n: Name, i: nat) {
    && i < |evs| && Writes(evs, n, i)
    && forall j :: i < j < |evs| ==> !Writes(evs, n, j)
  }

  // ---- The log, one event at a time ----

  lemma SetMore(evs: seq<Event>, ev: Event, n: Name)
    ensures SetBefore(evs + [ev], n) <==> SetBefore(evs, n) || (ev.Set? && ev.name == n)
  {
    var all := evs + [ev];
    assert all[|evs|] == ev;
    assert forall i :: 0 <= i < |evs| ==> all[i] == evs[i];
  }

  lemma TableMore(evs: seq<Event>, ev: Event)
    ensures HasTable(evs + [ev]) <==>
            HasTable(evs) || ev.SetFrom? || ev.Register? || (ev.Provide? && !SetBefore(evs, ev.name))
  {
    hide SetBefore;
    var all := evs + [ev];
    assert all[|evs|] == ev && all[..|evs|] == evs;
    forall i | 0 <= i < |evs|
      ensures Installs(all, i) <==> Installs(evs, i)
    {
      assert all[i] == evs[i] && all[..i] == evs[..i];
    }
    assert Installs(all, |evs|) <==> ev.SetFrom? || ev.Register? || (ev.Provide? && !SetBefore(evs, ev.name));
  }

  lemma EntryMore(evs: seq<Event>, ev: Event, n: Name)
    ensures HasEntry(evs + [ev], n) <==>
              || HasEntry(evs, n)
              || (ev.name == n &&
                  (ev.SetFrom? || ev.Register? || (ev.Provide? && !SetBefore(evs, n)) || (ev.Set? && HasTable(evs))))
  {
    hide SetBefore, HasTable;
    var all := evs + [ev];
    assert all[|evs|] == ev && all[..|evs|] == evs;
    forall i | 0 <= i < |evs|
      ensures Enters(all, n, i) <==> Enters(evs, n, i)
    {
      assert all[i] == evs[i] && all[..i] == evs[..i];
    }
    assert Enters(all, n, |evs|) <==>
           ev.name == n &&
           (ev.SetFrom? || ev.Register? || (ev.Provide? && !SetBefore(evs, n)) || (ev.Set? && HasTable(evs)));
  }

  lemma EntryNeedsTable(evs: seq<Event>, n: Name)
    requires HasEntry(evs, n)
    ensures HasTable(evs)
  {
    hide SetBefore;
    var i :| 0 <= i < |evs| && Enters(evs, n, i);
    if !Installs(evs, i) {
      var j :| 0 <= j < i && Installs(evs[..i], j);
      assert evs[..i][j] == evs[j] && evs[..i][..j] == evs[..j];
      assert Installs(evs, j);
    }
  }

  lemma CellMore(evs: seq<Event>, ev: Event, n: Name)
    ensures CellIn(evs + [ev], n) ==
            if ev.Bind? && ev.name == n && HasEntry(evs, n) then Some(ev.cell)
            else if Clashes(evs, ev, n) then None
            else CellIn(evs, n)
  {
    hide HasEntry, Clashes;
    assert (evs + [ev])[..|evs|] == evs;
  }

  lemma WritesMore(evs: seq<Event>, ev: Event, n: Name, i: nat)
    ensures i < |evs| ==> (LastWrite(evs + [ev], n, i) <==> LastWrite(evs, n, i) && !Writes(evs + [ev], n, |evs|))
    ensures i == |evs| ==> (LastWrite(evs + [ev], n, i) <==> Writes(evs + [ev], n, |evs|))
  {
    hide CellIn, HasEntry, StatusInLog;
    var all := evs + [ev];
    forall j | 0 <= j < |evs|
      ensures Writes(all, n, j) <==> Writes(evs, n, j)
    {
      assert all[j] == evs[j] && all[..j] == evs[..j];
    }
  }

  // ---- The operations, one name at a time ----

  lemma EntryAfterUpdate(s: State, i: nat, e: Entry, slots: map<Name, Value>, n: Name)
    requires Agree(s) && s.table.Some? && i < |s.table.value| && s.table.value[i].name == e.name
    ensures EntryAt(State(slots, Some(s.table.value[i := e])), n) == if n == e.name then Some(e) else EntryAt(s, n)
  {
    var es := s.table.value;
    assert es == Entries(s);
    IndexUnique(es, i);
    IndexAfterUpdate(es, i, e, n);
  }

  lemma EntryAfterPush(s: State, e: Entry, slots: map<Name, Value>, n: Name)
    requires Agree(s) && EntryAt(s, e.name).None?
    ensures EntryAt(State(slots, Some(Entries(s) + [e])), n) == if n == e.name then Some(e) else EntryAt(s, n)
  {
    IndexAfterPush(Entries(s), e, n);
  }

  predicate InCell(s: State, n: Name) {
    EntryAt(s, n).Some? && EntryAt(s, n).value.live.Cell?
  }

  /** What an event makes of a name, its own. */
  ghost predicate Effect(s: State, ev: Event, r: State) {
    var n := ev.name;
    match ev
    case Set(_, v) =>
      if InCell(s, n) then r == s
      else
        && SlotAt(r, n) == Some(v)
        && EntryAt(r, n) == (if EntryAt(s, n).Some? || s.table.Some? then Some(Entry(n, Local, Held(v, true))) else None)
        && (r.table.Some? <==> s.table.Some?)
    case SetFrom(_, v, t) =>
      && r.table.Some?
      && if InCell(s, n) then SlotAt(r, n) == SlotAt(s, n) && EntryAt(r, n) == EntryAt(s, n)
         else SlotAt(r, n) == Some(v) && EntryAt(r, n) == Some(Entry(n, Reexport(t, true), Held(v, true)))
    case Register(_, varLike) =>
      && r.table.Some?
      && if EntryAt(s, n).Some? then r == s
         else SlotAt(r, n) == Some(Undefined) && EntryAt(r, n) == Some(Entry(n, Local, Held(Undefined, varLike)))
    case Bind(_, c, v) =>
      if EntryAt(s, n).None? then r == s
      else
        && SlotAt(r, n) == (if n in s.slots then Some(v) else None)
        && EntryAt(r, n) == Some(EntryAt(s, n).value.(live := Cell(c)))
        && r.table.Some?
    case Provide(_, v, t) =>
      var st := StatusOf(s, n);
      if st.Absent? then
        SlotAt(r, n) == Some(v) && EntryAt(r, n) == Some(Entry(n, Reexport(t, false), Held(v, true))) && r.table.Some?
      else if st.Starred? && st.token != t then
        SlotAt(r, n) == None && EntryAt(r, n) == Some(Entry(n, Ambiguous, Held(Undefined, false))) && r.table.Some?
      else r == s
  }

  lemma SetEffect(s: State, n: Name, v: Value, origin: Origin, m: Name)
    requires Agree(s)
    ensures
      var r := SetExport(s, n, v, origin);
      && (InCell(s, n) ==> r == s)
      && (!InCell(s, n) ==>
            && SlotAt(r, n) == Some(v)
            && EntryAt(r, n) == (if EntryAt(s, n).Some? || s.table.Some? then Some(Entry(n, origin, Held(v, true))) else None))
      && (r.table.Some? <==> s.table.Some?)
      && (m != n ==> SlotAt(r, m) == SlotAt(s, m) && EntryAt(r, m) == EntryAt(s, m))
  {
    var i, e := IndexOf(Entries(s), n), Entry(n, origin, Held(v, true));
    if i.Some? {
      EntryAfterUpdate(s, i.value, e, s.slots[n := v], n);
      EntryAfterUpdate(s, i.value, e, s.slots[n := v], m);
    } else if s.table.Some? {
      EntryAfterPush(s, e, s.slots[n := v], n);
      EntryAfterPush(s, e, s.slots[n := v], m);
    }
  }

  lemma ApplyEffect(s: State, ev: Event, m: Name)
    requires Agree(s)
    ensures Effect(s, ev, Apply(s, ev))
    ensures m != ev.name ==> SlotAt(Apply(s, ev), m) == SlotAt(s, m) && EntryAt(Apply(s, ev), m) == EntryAt(s, m)
  {
    hide Agree, IndexOf, SetExport;
    match ev
    case Set(n, v) => SetEffect(s, n, v, Local, m);
    case SetFrom(n, v, t) =>
      var s1 := State(s.slots, Some(Entries(s)));
      TableKeeps(s);
      assert EntryAt(s1, n) == EntryAt(s, n) && EntryAt(s1, m) == EntryAt(s, m);
      SetEffect(s1, n, v, Reexport(t, true), m);
    case Register(n, varLike) => RegisterEffect(s, n, varLike, m);
    case Bind(n, c, v) => BindEffect(s, n, c, v, m);
    case Provide(n, v, t) => ProvideEffect(s, n, v, t, m);
  }

  lemma RegisterEffect(s: State, n: Name, varLike: bool, m: Name)
    requires Agree(s)
    ensures
      var r := PreRegister(s, n, varLike);
      Effect(s, Register(n, varLike), r) && (m != n ==> SlotAt(r, m) == SlotAt(s, m) && EntryAt(r, m) == EntryAt(s, m))
  {
    if EntryAt(s, n).None? {
      var e := Entry(n, Local, Held(Undefined, varLike));
      EntryAfterPush(s, e, s.slots[n := Undefined], n);
      EntryAfterPush(s, e, s.slots[n := Undefined], m);
    }
  }

  lemma BindEffect(s: State, n: Name, c: nat, v: Value, m: Name)
    requires Agree(s)
    ensures
      var r := SetCell(s, n, c, v);
      Effect(s, Bind(n, c, v), r) && (m != n ==> SlotAt(r, m) == SlotAt(s, m) && EntryAt(r, m) == EntryAt(s, m))
  {
    var i := IndexOf(Entries(s), n);
    if i.Some? {
      var e := s.table.value[i.value].(live := Cell(c));
      var slots := if n in s.slots then s.slots[n := v] else s.slots;
      EntryAfterUpdate(s, i.value, e, slots, n);
      EntryAfterUpdate(s, i.value, e, slots, m);
    }
  }

  lemma ProvideEffect(s: State, n: Name, v: Value, t: Token, m: Name)
    requires Agree(s)
    ensures
      var r := StarOne(s, n, v, t);
      Effect(s, Provide(n, v, t), r) && (m != n ==> SlotAt(r, m) == SlotAt(s, m) && EntryAt(r, m) == EntryAt(s, m))
  {
    var i := IndexOf(Entries(s), n);
    if i.Some? {
      var e := Entry(n, Ambiguous, Held(Undefined, false));
      EntryAfterUpdate(s, i.value, e, s.slots - {n}, n);
      EntryAfterUpdate(s, i.value, e, s.slots - {n}, m);
    } else if n !in s.slots {
      var e := Entry(n, Reexport(t, false), Held(v, true));
      EntryAfterPush(s, e, s.slots[n := v], n);
      EntryAfterPush(s, e, s.slots[n := v], m);
    }
  }

  // ---- The namespace after a log ----

  /** Only an announcement, of a name that is not a variable, leaves it without a value. */
  predicate GivesValue(ev: Event) {
    ev.Register? ==> ev.varLike
  }

  /** The slot holds what event i wrote, and the entry, if it holds the value itself,
      knows whether that was a value. */
  predicate HoldsWrite(evs: seq<Event>, n: Name, s: State, i: nat) {
    && LastWrite(evs, n, i)
    && SlotAt(s, n) == Some(Written(evs[i]))
    && (EntryAt(s, n).Some? && EntryAt(s, n).value.live.Held? ==> EntryAt(s, n).value.live.initialized == GivesValue(evs[i]))
  }

  ghost predicate Told(evs: seq<Event>, n: Name, s: State) {
    && (s.table.Some? <==> HasTable(evs))
    && (EntryAt(s, n).Some? <==> HasEntry(evs, n))
    && (EntryAt(s, n).None? ==> (n in s.slots <==> SetBefore(evs, n)))
    && CellIn(evs, n) == (if InCell(s, n) then Some(EntryAt(s, n).value.live.cell) else None)
    && (n in s.slots ==> exists i: nat :: HoldsWrite(evs, n, s, i))
  }

  /** An event about another name. */
  lemma ToldOther(evs: seq<Event>, ev: Event, n: Name, s: State)
    requires Agree(s) && n != ev.name && Told(evs, n, s) && Told(evs, ev.name, s)
    requires StatusOf(s, ev.name) == StatusInLog(evs, ev.name)
    ensures Told(evs + [ev], n, Apply(s, ev))
  {
    hide Agree, Apply, HasTable, HasEntry, SetBefore, CellIn, EntryAt, SlotAt, LastWrite, StatusInLog, InCell, StatusOf;
    var r := Apply(s, ev);
    assert SlotAt(r, n) == SlotAt(s, n) && EntryAt(r, n) == EntryAt(s, n) by { ApplyEffect(s, ev, n); }
    TableTold(evs, ev, s);
    SetMore(evs, ev, n);
    EntryMore(evs, ev, n);
    CellMore(evs, ev, n);
    SlotDefined(s, n);
    SlotDefined(r, n);
    InCellIs(s, n);
    InCellIs(r, n);
    if n in s.slots {
      var i: nat :| HoldsWrite(evs, n, s, i);
      WritesMore(evs, ev, n, i);
      LastIsThere(evs, n, i);
      assert HoldsWrite(evs + [ev], n, r, i);
    }
  }

  lemma SlotDefined(s: State, n: Name)
    ensures SlotAt(s, n).Some? <==> n in s.slots
  {
  }

  lemma InCellIs(s: State, n: Name)
    ensures InCell(s, n) <==> EntryAt(s, n).Some? && EntryAt(s, n).value.live.Cell?
  {
  }

  lemma LastIsThere(evs: seq<Event>, n: Name, i: nat)
    requires LastWrite(evs, n, i)
    ensures i < |evs|
  {
  }

  lemma TableTold(evs: seq<Event>, ev: Event, s: State)
    requires Agree(s) && Told(evs, ev.name, s) && StatusOf(s, ev.name) == StatusInLog(evs, ev.name)
    ensures Apply(s, ev).table.Some? <==> HasTable(evs + [ev])
  {
    hide Agree, HasTable, HasEntry, SetBefore, CellIn, LastWrite, StatusInLog, Apply;
    var n := ev.name;
    ApplyEffect(s, ev, n);
    TableMore(evs, ev);
    if HasEntry(evs, n) {
      EntryNeedsTable(evs, n);
    }
    StatusAndEntry(s, n);
  }

  lemma StatusAndEntry(s: State, n: Name)
    requires Agree(s)
    ensures StatusOf(s, n) == if EntryAt(s, n).Some? then EntryStatus(EntryAt(s, n).value)
                              else if n in s.slots then Explicit else Absent
    ensures EntryAt(s, n).Some? ==> (n in s.slots <==> !EntryAt(s, n).value.origin.Ambiguous?)
    ensures EntryAt(s, n).Some? && n in s.slots && EntryAt(s, n).value.live.Held? ==>
              s.slots[n] == EntryAt(s, n).value.live.value
  {
  }

  /** Whether an event about the name itself writes its value, seen from the namespace. */
  lemma WritesSeen(evs: seq<Event>, ev: Event, s: State)
    requires Agree(s) && Told(evs, ev.name, s) && StatusOf(s, ev.name) == StatusInLog(evs, ev.name)
    ensures Writes(evs + [ev], ev.name, |evs|) <==>
            match ev
            case Set(_, _) => !InCell(s, ev.name)
            case SetFrom(_, _, _) => !InCell(s, ev.name)
            case Register(_, _) => EntryAt(s, ev.name).None?
            case Bind(_, _, _) => EntryAt(s, ev.name).Some? && ev.name in s.slots
            case Provide(_, _, _) => StatusOf(s, ev.name).Absent?
  {
    hide Agree, HasTable, HasEntry, SetBefore, CellIn, LastWrite, StatusInLog;
    var all := evs + [ev];
    assert all[|evs|] == ev && all[..|evs|] == evs;
    StatusAndEntry(s, ev.name);
  }

  lemma ToldEntry(evs: seq<Event>, ev: Event, s: State)
    requires Agree(s) && Told(evs, ev.name, s) && StatusOf(s, ev.name) == StatusInLog(evs, ev.name)
    ensures
      var n, r, all := ev.name, Apply(s, ev), evs + [ev];
      && (EntryAt(r, n).Some? <==> HasEntry(all, n))
      && (EntryAt(r, n).None? ==> (n in r.slots <==> SetBefore(all, n)))
  {
    hide Agree, HasTable, HasEntry, SetBefore, CellIn, LastWrite, StatusInLog, Apply;
    var n := ev.name;
    ApplyEffect(s, ev, n);
    SetMore(evs, ev, n);
    EntryMore(evs, ev, n);
    StatusAndEntry(s, n);
    SlotDefined(Apply(s, ev), n);
  }

  lemma ToldCell(evs: seq<Event>, ev: Event, s: State)
    requires Agree(s) && Told(evs, ev.name, s) && StatusOf(s, ev.name) == StatusInLog(evs, ev.name)
    ensures
      var n, r := ev.name, Apply(s, ev);
      CellIn(evs + [ev], n) == if InCell(r, n) then Some(EntryAt(r, n).value.live.cell) else None
  {
    hide Agree, HasTable, HasEntry, SetBefore, CellIn, LastWrite, StatusInLog, Apply;
    var n := ev.name;
    ApplyEffect(s, ev, n);
    CellMore(evs, ev, n);
    StatusAndEntry(s, n);
  }

  /** An event about the name itself. */
  lemma ToldSame(evs: seq<Event>, ev: Event, s: State)
    requires Agree(s) && Told(evs, ev.name, s) && StatusOf(s, ev.name) == StatusInLog(evs, ev.name)
    ensures Told(evs + [ev], ev.name, Apply(s, ev))
  {
    hide Agree, HasTable, HasEntry, SetBefore, CellIn, LastWrite, StatusInLog, Apply, Writes;
    var n, r, all := ev.name, Apply(s, ev), evs + [ev];
    TableTold(evs, ev, s);
    ToldEntry(evs, ev, s);
    ToldCell(evs, ev, s);
    ApplyEffect(s, ev, n);
    WritesSeen(evs, ev, s);
    StatusAndEntry(s, n);
    SlotDefined(s, n);
    SlotDefined(r, n);
    assert all[|evs|] == ev;
    if Writes(all, n, |evs|) {
      WritesMore(evs, ev, n, |evs|);
      if n in r.slots {
        assert HoldsWrite(all, n, r, |evs|);
      }
    } else if n in r.slots {
      assert n in s.slots;
      var i: nat :| HoldsWrite(evs, n, s, i);
      WritesMore(evs, ev, n, i);
      LastIsThere(evs, n, i);
      assert all[i] == evs[i];
      assert HoldsWrite(all, n, r, i);
    }
  }

  lemma {:induction false} RunTold(evs: seq<Event>, n: Name)
    ensures Told(evs, n, Run(EMPTY, evs))
  {
    if evs == [] {
      assert EntryAt(EMPTY, n) == None;
    } else {
      hide Agree, Told, Apply, StatusOf, StatusInLog;
      var front, ev := evs[..|evs| - 1], evs[|evs| - 1];
      assert evs == front + [ev];
      var s := Run(EMPTY, front);
      RunTold(front, n);
      RunTold(front, ev.name);
      RunStatus(front, ev.name);
      if n == ev.name {
        ToldSame(front, ev, s);
      } else {
        ToldOther(front, ev, n, s);
      }
    }
  }

  /** After any log the slot of a visible name holds what was written last. */
  lemma SlotHoldsLastWrite(evs: seq<Event>, n: Name)
    requires Visible(Run(EMPTY, evs), n)
    ensures exists i: nat :: LastWrite(evs, n, i) && Run(EMPTY, evs).slots[n] == Written(evs[i])
  {
    hide Run, LastWrite;
    RunTold(evs, n);
    var i: nat :| HoldsWrite(evs, n, Run(EMPTY, evs), i);
    LastIsThere(evs, n, i);
  }

  /** After any log a reader gets: nothing for a name that is not visible or has no
      entry; the cell, once it is initialised, for a name bound to one; and else what was
      written last, unless that was only announced. */
  lemma ExportAnswers(evs: seq<Event>, n: Name, cells: map<nat, Value>)
    ensures
      var q := Answer(Run(EMPTY, evs), n, cells);
      && (q.NotExported? <==> !HasEntry(evs, n) || !(Explicitly(evs, n) || exists t :: OneProvider(evs, n, t)))
      && (!q.NotExported? && CellIn(evs, n).Some? ==>
            q == if CellIn(evs, n).value in cells then Initialized(cells[CellIn(evs, n).value]) else Uninitialized)
      && (!q.NotExported? && CellIn(evs, n).None? ==>
            exists i: nat :: LastWrite(evs, n, i) && q == if GivesValue(evs[i]) then Initialized(Written(evs[i])) else Uninitialized)
  {
    hide Run, LastWrite, HasEntry, Explicitly, OneProvider, CellIn, HasTable, SetBefore;
    var s := Run(EMPTY, evs);
    RunTold(evs, n);
    RunStatus(evs, n);
    VisibleIff(evs, n);
    StatusAndEntry(s, n);
    if EntryAt(s, n).Some? && n in s.slots && !InCell(s, n) {
      var i: nat :| HoldsWrite(evs, n, s, i);
      LastIsThere(evs, n, i);
    }
  }
}
