/** Escaped surrogate pairs are the only fault of the parser: without them it
    reads every RFC 8259 text within the depth limit, strings as the RFC means
    them; with them it may store other units or give up altogether. */
module JsonPairs {
  import opened Basics
  import opened Utf16
  import opened JsonGrammar
  import opened JsonParse
  import opened JsonComplete

  // ---- Derivations of the RFC, whatever the engine makes of them ----

  predicate Spelled(t: Tree, ok: string -> bool)
    decreases t, 1
  {
    match t
    case TNull => true
    case TTrue => true
    case TFalse => true
    case TNumber(n) => ValidNumber(n) && ok(NumberText(n))
    case TString(items) => ValidItems(items)
    case TArray(blank, elems) => AllWs(blank) && SpelledElements(elems, ok)
    case TObject(blank, members) => AllWs(blank) && SpelledMembers(members, ok)
  }

  predicate SpelledElements(es: seq<Element>, ok: string -> bool)
    decreases es, 0
  {
    es == [] ||
    (AllWs(es[0].before) && Spelled(es[0].value, ok) && AllWs(es[0].after) && SpelledElements(es[1..], ok))
  }

  predicate SpelledMembers(ms: seq<Member>, ok: string -> bool)
    decreases ms, 0
  {
    ms == [] ||
    (&& AllWs(ms[0].before) && ValidItems(ms[0].key)
     && AllWs(ms[0].mid) && AllWs(ms[0].pre) && Spelled(ms[0].value, ok) && AllWs(ms[0].after)
     && SpelledMembers(ms[1..], ok))
  }

  /** No string in the text, key or value, has an escaped pair. */
  predicate PairFree(t: Tree)
    decreases t, 1
  {
    match t
    case TString(items) => NoEscapedPair(items)
    case TArray(_, elems) => PairFreeElements(elems)
    case TObject(_, members) => PairFreeMembers(members)
    case _ => true
  }

  predicate PairFreeElements(es: seq<Element>)
    decreases es, 0
  {
    es == [] || (PairFree(es[0].value) && PairFreeElements(es[1..]))
  }

  predicate PairFreeMembers(ms: seq<Member>)
    decreases ms, 0
  {
    ms == [] || (NoEscapedPair(ms[0].key) && PairFree(ms[0].value) && PairFreeMembers(ms[1..]))
  }

  /** The value RFC 8259 gives the text. */
  function RfcNode(t: Tree, ok: string -> bool): Node
    requires Spelled(t, ok)
    decreases t, 1
  {
    match t
    case TNull => Node(KNull, Some(Text(t)))
    case TTrue => Node(KBool(true), Some(Text(t)))
    case TFalse => Node(KBool(false), Some(Text(t)))
    case TNumber(n) => Node(KNumber(NumberText(n)), Some(Text(t)))
    case TString(items) => Node(KString(RfcUnits(items)), Some(Text(t)))
    case TArray(_, elems) => Node(KArray(RfcNodes(elems, ok)), None)
    case TObject(_, members) => Node(KObject(RfcEntries(members, ok)), None)
  }

  function RfcNodes(es: seq<Element>, ok: string -> bool): seq<Node>
    requires SpelledElements(es, ok)
    decreases es, 0
  {
    if es == [] then [] else [RfcNode(es[0].value, ok)] + RfcNodes(es[1..], ok)
  }

  function RfcEntries(ms: seq<Member>, ok: string -> bool): seq<Entry>
    requires SpelledMembers(ms, ok)
    decreases ms, 0
  {
    if ms == [] then []
    else [Entry(RfcUnits(ms[0].key), RfcNode(ms[0].value, ok))] + RfcEntries(ms[1..], ok)
  }

  // ---- Without escaped pairs ----

  lemma {:induction false} PairFreeNode(t: Tree, ok: string -> bool)
    requires Spelled(t, ok) && PairFree(t)
    ensures Valid(t, ok) && NodeOf(t, ok) == RfcNode(t, ok)
    decreases t, 1
  {
    hide Text, WellFormed, ItemsUnits, RfcUnits;
    match t
    case TString(items) =>
      NoPairWellFormed(items);
      PairsAreTheOnlyLoss(items);
    case TArray(_, elems) => PairFreeNodes(elems, ok);
    case TObject(_, members) => PairFreeEntries(members, ok);
    case _ =>
  }

  lemma {:induction false} PairFreeNodes(es: seq<Element>, ok: string -> bool)
    requires SpelledElements(es, ok) && PairFreeElements(es)
    ensures ValidElements(es, ok) && NodesOf(es, ok) == RfcNodes(es, ok)
    decreases es, 0
  {
    hide Valid, NodeOf, RfcNode, Spelled, PairFree;
    if es != [] {
      PairFreeNode(es[0].value, ok);
      PairFreeNodes(es[1..], ok);
    }
  }

  lemma {:induction false} PairFreeEntries(ms: seq<Member>, ok: string -> bool)
    requires SpelledMembers(ms, ok) && PairFreeMembers(ms)
    ensures ValidMembers(ms, ok) && EntriesOf(ms, ok) == RfcEntries(ms, ok)
    decreases ms, 0
  {
    hide Valid, NodeOf, RfcNode, Spelled, PairFree, WellFormed, ItemsUnits, RfcUnits;
    if ms != [] {
      NoPairWellFormed(ms[0].key);
      PairsAreTheOnlyLoss(ms[0].key);
      PairFreeNode(ms[0].value, ok);
      PairFreeEntries(ms[1..], ok);
    }
  }

  /** Every RFC 8259 text within the depth limit and without escaped pairs is
      accepted, with the value the RFC gives it. */
  lemma PairFreeAccepted(before: string, t: Tree, after: string, ok: string -> bool)
    requires AllWs(before) && Spelled(t, ok) && AllWs(after)
    requires PairFree(t) && Depth(t) <= MAX_JSON_DEPTH
    ensures Parse(before + (Text(t) + after), ok) == Ok(RfcNode(t, ok), [])
  {
    hide Parse, Text, Valid, NodeOf, RfcNode, Depth, Spelled, PairFree;
    PairFreeNode(t, ok);
    TextComplete(before, t, after, ok);
  }

  // ---- With escaped pairs ----

  lemma AbortsAtQuote(rest: string, units: seq<Unit>)
    requires !WellFormed(units)
    ensures ParseStringRest(['"'] + rest, units) == Abort
  {
    hide WellFormed, ParseEscape, EncodeChar;
    assert (['"'] + rest)[0] == '"';
  }

  /** The rest of a string whose stored units are ill-formed ends the program. */
  lemma {:induction false} StringAborts(items: seq<StrItem>, rest: string, units: seq<Unit>)
    requires ValidItems(items) && !WellFormed(units + ItemsUnits(items))
    ensures ParseStringRest(ItemsText(items) + (['"'] + rest), units) == Abort
  {
    hide ParseStringRest, ItemUnits, ItemText, WellFormed;
    var s := ['"'] + rest;
    if items == [] {
      assert ItemsText(items) + s == s;
      assert units + ItemsUnits(items) == units;
      AbortsAtQuote(rest, units);
    } else {
      var tail := ItemsText(items[1..]) + s;
      assert ItemsText(items) + s == ItemText(items[0]) + tail;
      ItemComplete(items[0], tail, units);
      var units' := units + ItemUnits(items[0]);
      assert units + ItemsUnits(items) == units' + ItemsUnits(items[1..]);
      StringAborts(items[1..], rest, units');
    }
  }

  // ---- Whole texts ----

  lemma QuotedAborts(items: seq<StrItem>, rest: string)
    requires ValidItems(items) && !WellFormed(ItemsUnits(items))
    ensures StringText(items) + rest != [] && (StringText(items) + rest)[0] == '"'
    ensures ParseStringRest((StringText(items) + rest)[1..], []) == Abort
  {
    hide ParseStringRest, WellFormed, ItemsUnits, ItemsText;
    assert [] + ItemsUnits(items) == ItemsUnits(items);
    assert (StringText(items) + rest)[1..] == ItemsText(items) + (['"'] + rest);
    StringAborts(items, rest, []);
  }

  lemma TStringAborts(items: seq<StrItem>, rest: string, depth: nat, ok: string -> bool)
    requires ValidItems(items) && !WellFormed(ItemsUnits(items))
    ensures ParseValue(StringText(items) + rest, depth, ok) == Abort
  {
    hide SkipWs, ParseStringRest, StringText, WellFormed, ItemsUnits;
    QuotedAborts(items, rest);
    SkipNone(StringText(items) + rest);
  }

  lemma ArrayAborts(t: Tree, rest: string, depth: nat, ok: string -> bool)
    requires t.TArray? && t.elems != [] && depth < MAX_JSON_DEPTH
    requires AllWs(t.elems[0].before) && Headed(t.elems[0].value)
    requires ParseElements(ElementsText(t.elems) + rest, depth + 1, ok, []) == Abort
    ensures ParseValue(Text(t) + rest, depth, ok) == Abort
  {
    hide SkipWs, ParseElements, Literal, ParseStringRest, ParseObject, ParseNumber, ElementsText, Headed;
    var s := Text(t) + rest;
    SkipNone(s);
    var body := ElementsText(t.elems) + rest;
    assert s[1..] == body;
    FirstElement(t.elems, rest);
    ElementsSkip(t.elems[0].before, SkipWs(body), depth + 1, ok, []);
  }

  lemma ObjectAborts(t: Tree, rest: string, depth: nat, ok: string -> bool)
    requires t.TObject? && t.members != [] && depth < MAX_JSON_DEPTH && AllWs(t.members[0].before)
    requires ParseMembers(MembersText(t.members) + rest, depth + 1, ok, []) == Abort
    ensures ParseValue(Text(t) + rest, depth, ok) == Abort
  {
    hide SkipWs, ParseMembers, Literal, ParseStringRest, ParseArray, ParseNumber, MembersText;
    var s := Text(t) + rest;
    SkipNone(s);
    var body := MembersText(t.members) + rest;
    assert s[1..] == body;
    FirstMember(t.members, rest);
    MembersSkip(t.members[0].before, SkipWs(body), depth + 1, ok, []);
  }

  lemma KeyAborts(m: Member, tail: string, depth: nat, ok: string -> bool)
    requires AllWs(m.before) && ValidItems(m.key) && !WellFormed(ItemsUnits(m.key))
    ensures ParseMember(m.before + (StringText(m.key) + tail), depth, ok) == Abort
  {
    hide SkipWs, ParseValue, ParseStringRest, StringText, ItemsUnits, WellFormed;
    MemberSkips(m.before, StringText(m.key) + tail, depth, ok);
    QuotedAborts(m.key, tail);
    SkipNone(StringText(m.key) + tail);
  }

  lemma MemberAborts(m: Member, tail: string, depth: nat, ok: string -> bool)
    requires AllWs(m.before) && ValidItems(m.key) && WellFormed(ItemsUnits(m.key)) && AllWs(m.mid) && AllWs(m.pre)
    requires ParseValue(Text(m.value) + tail, depth, ok) == Abort
    ensures
      var s := m.before + (StringText(m.key) + (m.mid + ([':'] + (m.pre + (Text(m.value) + tail)))));
      ParseMember(s, depth, ok) == Abort
  {
    hide SkipWs, ParseValue, ParseStringRest, Text, StringText, ItemsUnits, WellFormed;
    var v := Text(m.value) + tail;
    var afterKey := m.mid + ([':'] + (m.pre + v));
    var s0 := StringText(m.key) + afterKey;
    MemberSkips(m.before, s0, depth, ok);
    QuotedComplete(m.key, afterKey);
    SkipNone(s0);
    SkipWsOver(m.mid, [':'] + (m.pre + v));
    SkipNone([':'] + (m.pre + v));
    assert ([':'] + (m.pre + v))[1..] == m.pre + v;
    ValueSkips(m.pre, v, depth, ok);
  }

  lemma SpelledHead(t: Tree, ok: string -> bool)
    requires Spelled(t, ok)
    ensures Headed(t)
  {
  }

  /** A text of the RFC with an ill-formed string in it, key or value, ends the
      program. */
  lemma {:induction false} ValueAborts(t: Tree, rest: string, depth: nat, ok: string -> bool)
    requires Spelled(t, ok) && !Valid(t, ok) && depth + Depth(t) <= MAX_JSON_DEPTH
    ensures ParseValue(Text(t) + rest, depth, ok) == Abort
    decreases t, 1
  {
    hide ParseValue, ParseElements, ParseMembers, StringText, ElementsText, MembersText, ItemsUnits, WellFormed, Headed;
    match t
    case TString(items) => TStringAborts(items, rest, depth, ok);
    case TArray(_, elems) =>
      SpelledHead(elems[0].value, ok);
      ElementsAbort(elems, rest, depth + 1, ok, []);
      ArrayAborts(t, rest, depth, ok);
    case TObject(_, members) =>
      MembersAbort(members, rest, depth + 1, ok, []);
      ObjectAborts(t, rest, depth, ok);
  }

  lemma ElementAborts(es: seq<Element>, rest: string, depth: nat, ok: string -> bool, items: seq<Node>)
    requires es != [] && AllWs(es[0].before)
    requires
      var tail := es[0].after + (if |es| == 1 then [']'] + rest else [','] + (ElementsText(es[1..]) + rest));
      ParseValue(Text(es[0].value) + tail, depth, ok) == Abort
    ensures ParseElements(ElementsText(es) + rest, depth, ok, items) == Abort
  {
    hide SkipWs, ParseValue, Text, ElementsText;
    var e := es[0];
    var tail := e.after + (if |es| == 1 then [']'] + rest else [','] + (ElementsText(es[1..]) + rest));
    ElementsShape(es, rest);
    ElementsSkip(e.before, Text(e.value) + tail, depth, ok, items);
  }

  lemma {:induction false} ElementsAbort(es: seq<Element>, rest: string, depth: nat, ok: string -> bool, items: seq<Node>)
    requires SpelledElements(es, ok) && !ValidElements(es, ok) && depth + ElementsDepth(es) <= MAX_JSON_DEPTH
    ensures ParseElements(ElementsText(es) + rest, depth, ok, items) == Abort
    decreases es, 0
  {
    hide SkipWs, ParseValue, ParseElements, Text, Continues, Valid, NodeOf, Depth, ElementsText, Headed, Spelled;
    var e := es[0];
    if !Valid(e.value, ok) {
      var tail := e.after + (if |es| == 1 then [']'] + rest else [','] + (ElementsText(es[1..]) + rest));
      ValueAborts(e.value, tail, depth, ok);
      ElementAborts(es, rest, depth, ok, items);
    } else {
      var more := ElementsText(es[1..]) + rest;
      AfterIsQuiet(e.after, ',', more);
      ValueComplete(e.value, e.after + ([','] + more), depth, ok);
      SpelledHead(es[1].value, ok);
      MoreElements(es, rest, depth, ok, items);
      ElementsAbort(es[1..], rest, depth, ok, items + [NodeOf(e.value, ok)]);
    }
  }

  lemma FirstMemberAborts(ms: seq<Member>, rest: string, depth: nat, ok: string -> bool, entries: seq<Entry>)
    requires ms != [] && SpelledMembers(ms, ok)
    requires
      var tail := ms[0].after + (if |ms| == 1 then ['}'] + rest else [','] + (MembersText(ms[1..]) + rest));
      !WellFormed(ItemsUnits(ms[0].key)) || ParseValue(Text(ms[0].value) + tail, depth, ok) == Abort
    ensures ParseMembers(MembersText(ms) + rest, depth, ok, entries) == Abort
  {
    hide SkipWs, ParseValue, ParseMember, Text, StringText, ItemsUnits, WellFormed, ValidItems, MembersText, Spelled;
    var m := ms[0];
    var tail := m.after + (if |ms| == 1 then ['}'] + rest else [','] + (MembersText(ms[1..]) + rest));
    MembersShape(ms, rest);
    if !WellFormed(ItemsUnits(m.key)) {
      KeyAborts(m, m.mid + ([':'] + (m.pre + (Text(m.value) + tail))), depth, ok);
    } else {
      MemberAborts(m, tail, depth, ok);
    }
  }

  lemma {:induction false} MembersAbort(ms: seq<Member>, rest: string, depth: nat, ok: string -> bool, entries: seq<Entry>)
    requires SpelledMembers(ms, ok) && !ValidMembers(ms, ok) && depth + MembersDepth(ms) <= MAX_JSON_DEPTH
    ensures ParseMembers(MembersText(ms) + rest, depth, ok, entries) == Abort
    decreases ms, 0
  {
    hide SkipWs, ParseValue, ParseMembers, Text, Continues, Valid, NodeOf, Depth, ItemsUnits, WellFormed, ValidItems,
      MembersText, Spelled;
    var m := ms[0];
    if !WellFormed(ItemsUnits(m.key)) {
      FirstMemberAborts(ms, rest, depth, ok, entries);
    } else if !Valid(m.value, ok) {
      var tail := m.after + (if |ms| == 1 then ['}'] + rest else [','] + (MembersText(ms[1..]) + rest));
      ValueAborts(m.value, tail, depth, ok);
      FirstMemberAborts(ms, rest, depth, ok, entries);
    } else {
      var more := MembersText(ms[1..]) + rest;
      AfterIsQuiet(m.after, ',', more);
      ValueComplete(m.value, m.after + ([','] + more), depth, ok);
      MoreMembers(ms, rest, depth, ok, entries);
      MembersAbort(ms[1..], rest, depth, ok, entries + [Entry(ItemsUnits(m.key), NodeOf(m.value, ok))]);
    }
  }

  /** Only texts without escaped pairs get the value the RFC gives them. */
  lemma {:induction false} RightIsPairFree(t: Tree, ok: string -> bool)
    requires Spelled(t, ok) && Valid(t, ok) && NodeOf(t, ok) == RfcNode(t, ok)
    ensures PairFree(t)
    decreases t, 1
  {
    hide Text, WellFormed, ItemsUnits, RfcUnits;
    match t
    case TString(items) => PairsAreTheOnlyLoss(items);
    case TArray(_, elems) => RightElements(elems, ok);
    case TObject(_, members) => RightMembers(members, ok);
    case _ =>
  }

  lemma {:induction false} RightElements(es: seq<Element>, ok: string -> bool)
    requires SpelledElements(es, ok) && ValidElements(es, ok) && NodesOf(es, ok) == RfcNodes(es, ok)
    ensures PairFreeElements(es)
    decreases es, 0
  {
    hide Valid, NodeOf, RfcNode, Spelled, PairFree;
    if es != [] {
      var ns, rs := NodesOf(es, ok), RfcNodes(es, ok);
      assert ns[0] == rs[0] && ns[1..] == NodesOf(es[1..], ok) && rs[1..] == RfcNodes(es[1..], ok);
      RightIsPairFree(es[0].value, ok);
      RightElements(es[1..], ok);
    }
  }

  lemma {:induction false} RightMembers(ms: seq<Member>, ok: string -> bool)
    requires SpelledMembers(ms, ok) && ValidMembers(ms, ok) && EntriesOf(ms, ok) == RfcEntries(ms, ok)
    ensures PairFreeMembers(ms)
    decreases ms, 0
  {
    hide Valid, NodeOf, RfcNode, Spelled, PairFree, WellFormed, ItemsUnits, RfcUnits;
    if ms != [] {
      var ns, rs := EntriesOf(ms, ok), RfcEntries(ms, ok);
      assert ns[0] == rs[0] && ns[1..] == EntriesOf(ms[1..], ok) && rs[1..] == RfcEntries(ms[1..], ok);
      PairsAreTheOnlyLoss(ms[0].key);
      RightIsPairFree(ms[0].value, ok);
      RightMembers(ms[1..], ok);
    }
  }

  lemma TextAborts(before: string, t: Tree, after: string, ok: string -> bool)
    requires AllWs(before) && Spelled(t, ok) && !Valid(t, ok) && Depth(t) <= MAX_JSON_DEPTH
    ensures Parse(before + (Text(t) + after), ok) == Abort
  {
    hide SkipWs, ParseValue, Text, Valid, Spelled, Depth, Headed;
    var s := Text(t) + after;
    SpelledHead(t, ok);
    TextHead(t);
    assert s[0] == Text(t)[0];
    SkipWsOver(before, s);
    SkipNone(s);
    ValueAborts(t, after, 0, ok);
  }

  /** Every RFC 8259 text within the depth limit is accepted or ends the program, and
      is accepted with the value the RFC gives it exactly when no string in it, key or
      value, has an escaped pair. */
  lemma RfcTexts(before: string, t: Tree, after: string, ok: string -> bool)
    requires AllWs(before) && Spelled(t, ok) && AllWs(after) && Depth(t) <= MAX_JSON_DEPTH
    ensures
      var r := Parse(before + (Text(t) + after), ok);
      && (r.Ok? <==> Valid(t, ok))
      && (r == Abort <==> !Valid(t, ok))
      && (r == Ok(RfcNode(t, ok), []) <==> PairFree(t))
  {
    hide Parse, Text, Valid, NodeOf, RfcNode, Depth, Spelled, PairFree;
    if Valid(t, ok) {
      TextComplete(before, t, after, ok);
      if NodeOf(t, ok) == RfcNode(t, ok) {
        RightIsPairFree(t, ok);
      }
    } else {
      TextAborts(before, t, after, ok);
    }
    if PairFree(t) {
      PairFreeAccepted(before, t, after, ok);
    }
  }

  /** A string literal is read with the units the RFC means exactly when it has no
      escaped pair; and parsing it ends the program exactly when the stored units
      are ill-formed. */
  lemma StringLiterals(items: seq<StrItem>, ok: string -> bool)
    requires ValidItems(items)
    ensures Parse(StringText(items), ok).Ok? <==> WellFormed(ItemsUnits(items))
    ensures Parse(StringText(items), ok) == Abort <==> !WellFormed(ItemsUnits(items))
    ensures Parse(StringText(items), ok) == Ok(RfcNode(TString(items), ok), []) <==> NoEscapedPair(items)
  {
    hide ItemsUnits, RfcUnits, WellFormed, Parse, RfcNode, StringText;
    assert "" + (StringText(items) + "") == StringText(items);
    RfcTexts("", TString(items), "", ok);
  }

  // ---- A literal that ends the program ----

  const BROKEN: seq<StrItem> := [HexPair("d836", "dc00")]

  lemma BrokenUnits()
    ensures ValidItems(BROKEN) && ItemsUnits(BROKEN) == [0xD800]
  {
    assert HexValue("d836") == 0xD836;
    assert HexValue("dc00") == 0xDC00;
    assert PairValue(0xD836, 0xDC00) == 0x1_D800;
    assert BROKEN[1..] == [];
  }

  /** One escaped pair can do that: U+1D800. */
  lemma PairCanBreakString(ok: string -> bool)
    ensures ValidItems(BROKEN) && ItemsUnits(BROKEN) == [0xD800]
    ensures Parse(StringText(BROKEN), ok) == Abort
  {
    hide Parse, ValidItems, ItemsUnits, StringText, WellFormed, NoEscapedPair, RfcNode, RfcUnits;
    BrokenUnits();
    LoneHigh();
    StringLiterals(BROKEN, ok);
  }
}
