/** Printing and parsing back. */
module JsonRoundTrip {
  import opened Utf16
  import opened JsonGrammar
  import opened JsonParse
  import opened JsonComplete
  import opened JsonSound
  import opened JsonPrint

  // ---- When a parsed node is the printed value ----

  /** The node says what the value says; omitted array elements and numbers that
      are not finite read back as null, omitted properties are gone. */
  predicate Matches(n: Node, v: Js)
    decreases v, 1
  {
    match v
    case JNull => n.kind == KNull
    case JBool(b) => n.kind == KBool(b)
    case JNumber(m) => n.kind == KNumber(NumberText(m))
    case JNonFinite => n.kind == KNull
    case JString(us) => n.kind == KString(us)
    case JArray(items) => n.kind.KArray? && MatchItems(n.kind.items, items)
    case JObject(props) => n.kind.KObject? && MatchProps(n.kind.entries, props)
    case JOmitted => n.kind == KNull
  }

  predicate MatchItems(ns: seq<Node>, items: seq<Js>)
    decreases items, 0
  {
    if items == [] then ns == []
    else ns != [] && Matches(ns[0], items[0]) && MatchItems(ns[1..], items[1..])
  }

  predicate MatchProps(es: seq<Entry>, props: seq<Prop>)
    decreases props, 0
  {
    if props == [] then es == []
    else if props[0].value.JOmitted? then MatchProps(es, props[1..])
    else
      es != [] && es[0].key == props[0].key && Matches(es[0].value, props[0].value) && MatchProps(es[1..], props[1..])
  }

  /** Every string and every printed key is well-formed UTF-16. */
  predicate WellFormedJs(v: Js)
    decreases v, 1
  {
    match v
    case JString(us) => WellFormed(us)
    case JArray(items) => WellFormedItems(items)
    case JObject(props) => WellFormedProps(props)
    case _ => true
  }

  predicate WellFormedItems(items: seq<Js>)
    decreases items, 0
  {
    items == [] || (WellFormedJs(items[0]) && WellFormedItems(items[1..]))
  }

  predicate WellFormedProps(props: seq<Prop>)
    decreases props, 0
  {
    props == [] ||
    (&& (props[0].value.JOmitted? || (WellFormed(props[0].key) && WellFormedJs(props[0].value)))
     && WellFormedProps(props[1..]))
  }

  function DepthJs(v: Js): nat
    decreases v, 1
  {
    match v
    case JArray(items) => 1 + DepthItems(items)
    case JObject(props) => 1 + DepthProps(props)
    case _ => 0
  }

  function DepthItems(items: seq<Js>): nat
    decreases items, 0
  {
    if items == [] then 0 else Max(DepthJs(items[0]), DepthItems(items[1..]))
  }

  function DepthProps(props: seq<Prop>): nat
    decreases props, 0
  {
    if props == [] then 0 else Max(DepthJs(props[0].value), DepthProps(props[1..]))
  }

  /** Every number is a valid token of a finite double. */
  predicate NumbersOk(v: Js, ok: string -> bool)
    decreases v, 1
  {
    match v
    case JNumber(n) => ValidNumber(n) && ok(NumberText(n))
    case JArray(items) => ItemNumbersOk(items, ok)
    case JObject(props) => PropNumbersOk(props, ok)
    case _ => true
  }

  predicate ItemNumbersOk(items: seq<Js>, ok: string -> bool)
    decreases items, 0
  {
    items == [] || (NumbersOk(items[0], ok) && ItemNumbersOk(items[1..], ok))
  }

  predicate PropNumbersOk(props: seq<Prop>, ok: string -> bool)
    decreases props, 0
  {
    props == [] || (NumbersOk(props[0].value, ok) && PropNumbersOk(props[1..], ok))
  }

  // ---- The derivation tree of the printed text ----

  /** The spelling the printer chooses; a surrogate outside a pair is escaped, which is
      no item of the grammar. */
  function ItemsOf(us: seq<Unit>): seq<StrItem> {
    if us == [] then []
    else if IsHigh(us[0]) && |us| >= 2 && IsLow(us[1]) then [Plain(Join(us[0], us[1]))] + ItemsOf(us[2..])
    else [ItemOf(us[0])] + ItemsOf(us[1..])
  }

  function ItemOf(u: Unit): StrItem {
    if u == 0x22 then Escape('"')
    else if u == 0x5C then Escape('\\')
    else if u == 0x08 then Escape('b')
    else if u == 0x0C then Escape('f')
    else if u == 0x0A then Escape('n')
    else if u == 0x0D then Escape('r')
    else if u == 0x09 then Escape('t')
    else if NeedsHex(u) then Hex(HexText(u))
    else Plain(u as char)
  }

  lemma HexDigits(d: nat)
    requires d < 16
    ensures IsHexDigit(LowerHex(d)) && HexDigit(LowerHex(d)) == d
  {
  }

  lemma HexTextValue(u: Unit)
    ensures IsHex4(HexText(u)) && HexValue(HexText(u)) == u
  {
    hide LowerHex, HexDigit, IsHexDigit;
    HexDigits(u / 4096);
    HexDigits(u / 256 % 16);
    HexDigits(u / 16 % 16);
    HexDigits(u % 16);
    assert u / 256 == u / 4096 * 16 + u / 256 % 16;
    assert u / 16 == u / 256 * 16 + u / 16 % 16;
  }

  lemma {:induction false} EncodeAscii(s: string)
    requires forall i :: 0 <= i < |s| ==> (s[i] as int) < 0x80
    ensures |Encode(s)| == |s|
    ensures forall i :: 0 <= i < |s| ==> Encode(s)[i] == s[i] as int
  {
    if s != [] {
      EncodeAscii(s[1..]);
    }
  }

  lemma ItemOfFacts(u: Unit)
    ensures !IsSurrogate(u) ==> ValidItem(ItemOf(u)) && ItemUnits(ItemOf(u)) == [u]
    ensures Encode(ItemText(ItemOf(u))) == EscapeUnit(u)
  {
    hide Encode, HexText, HexValue;
    HexTextValue(u);
    if u != 0x22 && u != 0x5C && !NeedsHex(u) {
      EncodeOne(u as char);
    }
  }

  lemma EncodeOne(c: char)
    ensures Encode([c]) == EncodeChar(c)
  {
    assert [c][1..] == [];
    assert EncodeChar(c) + [] == EncodeChar(c);
  }

  lemma {:induction false} ItemsOfFacts(us: seq<Unit>)
    ensures WellFormed(us) ==> ValidItems(ItemsOf(us)) && ItemsUnits(ItemsOf(us)) == us
    ensures Encode(ItemsText(ItemsOf(us))) == QuoteBody(us)
  {
    hide Encode, EscapeUnit, ItemOf, ItemText, ItemUnits, Join, ValidItem;
    EncodeEmpty();
    if us != [] {
      if IsHigh(us[0]) && |us| >= 2 && IsLow(us[1]) {
        var c := Join(us[0], us[1]);
        ItemsOfFacts(us[2..]);
        PairItem(us[0], us[1]);
        if WellFormed(us) {
          ConsItems(Plain(c), ItemsOf(us[2..]));
        }
        EncodeConcat(ItemText(Plain(c)), ItemsText(ItemsOf(us[2..])));
        assert us == [us[0], us[1]] + us[2..];
      } else {
        ItemsOfFacts(us[1..]);
        ItemOfFacts(us[0]);
        if WellFormed(us) {
          ConsItems(ItemOf(us[0]), ItemsOf(us[1..]));
        }
        EncodeConcat(ItemText(ItemOf(us[0])), ItemsText(ItemsOf(us[1..])));
        assert us == [us[0]] + us[1..];
      }
    }
  }

  lemma PairItem(hi: Unit, lo: Unit)
    requires IsHigh(hi) && IsLow(lo)
    ensures ValidItem(Plain(Join(hi, lo))) && ItemUnits(Plain(Join(hi, lo))) == [hi, lo]
    ensures Encode(ItemText(Plain(Join(hi, lo)))) == [hi, lo]
  {
    JoinSplit(hi, lo);
    EncodeOne(Join(hi, lo));
  }

  lemma QuotedFacts(us: seq<Unit>)
    ensures Encode(StringText(ItemsOf(us))) == Quote(us)
  {
    hide Encode, QuoteBody, ItemsOf, ItemsText;
    ItemsOfFacts(us);
    var body := ItemsText(ItemsOf(us));
    EncodeConcat(['"'], body + ['"']);
    EncodeConcat(body, ['"']);
    EncodeOne('"');
  }

  // ---- Indentation as text ----

  function RepeatText(gap: string, n: nat): string {
    if n == 0 then "" else gap + RepeatText(gap, n - 1)
  }

  function IndentText(gap: string, n: nat): string {
    if gap == "" then "" else ['\n'] + RepeatText(gap, n)
  }

  lemma {:induction false} RepeatFacts(gap: string, n: nat)
    ensures AllWs(gap) ==> AllWs(RepeatText(gap, n))
    ensures Encode(RepeatText(gap, n)) == Repeat(Encode(gap), n)
  {
    hide Encode;
    if n > 0 {
      RepeatFacts(gap, n - 1);
      EncodeConcat(gap, RepeatText(gap, n - 1));
    } else {
      EncodeEmpty();
    }
  }

  lemma EncodeEmpty()
    ensures Encode("") == []
  {
  }

  lemma EncodeNonEmpty(s: string)
    requires s != ""
    ensures Encode(s) != []
  {
  }

  lemma IndentFacts(gap: string, n: nat)
    ensures AllWs(gap) ==> AllWs(IndentText(gap, n))
    ensures Encode(IndentText(gap, n)) == Indent(Encode(gap), n)
  {
    hide Encode, RepeatText, Repeat;
    EncodeEmpty();
    if gap != "" {
      EncodeNonEmpty(gap);
      RepeatFacts(gap, n);
      EncodeConcat(['\n'], RepeatText(gap, n));
      EncodeOne('\n');
      if AllWs(gap) {
        WsConcat(['\n'], RepeatText(gap, n));
      }
    }
  }

  function ColonText(gap: string): string {
    if gap == "" then "" else " "
  }

  // ---- Values as trees ----

  function TreeOf(v: Js, gap: string, level: nat): Tree
    decreases v, 1
  {
    match v
    case JNull => TNull
    case JBool(b) => if b then TTrue else TFalse
    case JNumber(n) => TNumber(n)
    case JNonFinite => TNull
    case JString(us) => TString(ItemsOf(us))
    case JArray(items) => TArray("", ElemsOf(items, gap, level))
    case JObject(props) => TObject("", MembersOf(props, gap, level))
    case JOmitted => TNull
  }

  function ElemsOf(items: seq<Js>, gap: string, level: nat): (es: seq<Element>)
    ensures |es| == |items|
    decreases items, 0
  {
    if items == [] then []
    else
      [Element(IndentText(gap, level + 1), TreeOf(items[0], gap, level + 1),
               if |items| == 1 then IndentText(gap, level) else "")] +
      ElemsOf(items[1..], gap, level)
  }

  function MembersOf(props: seq<Prop>, gap: string, level: nat): (ms: seq<Member>)
    ensures ms == [] <==> AllOmitted(props)
    decreases props, 0
  {
    if props == [] then []
    else if props[0].value.JOmitted? then
      assert AllOmitted(props[1..]) ==> AllOmitted(props);
      MembersOf(props[1..], gap, level)
    else
      [Member(IndentText(gap, level + 1), ItemsOf(props[0].key), "", ColonText(gap),
              TreeOf(props[0].value, gap, level + 1),
              if AllOmitted(props[1..]) then IndentText(gap, level) else "")] +
      MembersOf(props[1..], gap, level)
  }

  // ---- The tree is valid, matches the value, and has its depth ----

  lemma {:induction false} TreeFacts(v: Js, gap: string, level: nat, ok: string -> bool)
    requires WellFormedJs(v) && NumbersOk(v, ok) && AllWs(gap)
    ensures Valid(TreeOf(v, gap, level), ok)
    ensures Matches(NodeOf(TreeOf(v, gap, level), ok), v)
    ensures Depth(TreeOf(v, gap, level)) == DepthJs(v)
    decreases v, 1
  {
    hide Text, ItemsOf, ItemsUnits, WellFormed, NumberText, ValidNumber, ElemsOf, MembersOf;
    match v
    case JString(us) => ItemsOfFacts(us);
    case JArray(items) => ElemsFacts(items, gap, level, ok);
    case JObject(props) => MembersFacts(props, gap, level, ok);
    case _ =>
  }

  lemma {:induction false} ElemsFacts(items: seq<Js>, gap: string, level: nat, ok: string -> bool)
    requires WellFormedItems(items) && ItemNumbersOk(items, ok) && AllWs(gap)
    ensures ValidElements(ElemsOf(items, gap, level), ok)
    ensures MatchItems(NodesOf(ElemsOf(items, gap, level), ok), items)
    ensures ElementsDepth(ElemsOf(items, gap, level)) == DepthItems(items)
    decreases items, 0
  {
    hide TreeOf, Valid, NodeOf, Matches, IndentText, Depth, DepthJs, WellFormedJs, NumbersOk;
    if items != [] {
      TreeFacts(items[0], gap, level + 1, ok);
      ElemsFacts(items[1..], gap, level, ok);
      IndentFacts(gap, level + 1);
      IndentFacts(gap, level);
      var es := ElemsOf(items, gap, level);
      assert es[1..] == ElemsOf(items[1..], gap, level);
      assert NodesOf(es, ok)[1..] == NodesOf(es[1..], ok);
    }
  }

  lemma {:induction false} MembersFacts(props: seq<Prop>, gap: string, level: nat, ok: string -> bool)
    requires WellFormedProps(props) && PropNumbersOk(props, ok) && AllWs(gap)
    ensures ValidMembers(MembersOf(props, gap, level), ok)
    ensures MatchProps(EntriesOf(MembersOf(props, gap, level), ok), props)
    ensures MembersDepth(MembersOf(props, gap, level)) == DepthProps(props)
    decreases props, 0
  {
    hide TreeOf, Valid, NodeOf, Matches, IndentText, Depth, WellFormedJs, NumbersOk, ItemsOf, ItemsUnits, WellFormed, ValidItems;
    if props != [] {
      MembersFacts(props[1..], gap, level, ok);
      if !props[0].value.JOmitted? {
        TreeFacts(props[0].value, gap, level + 1, ok);
        ItemsOfFacts(props[0].key);
        IndentFacts(gap, level + 1);
        IndentFacts(gap, level);
        var ms := MembersOf(props, gap, level);
        assert ms[1..] == MembersOf(props[1..], gap, level);
        assert EntriesOf(ms, ok)[1..] == EntriesOf(ms[1..], ok);
      }
    }
  }

  // ---- The printed text is the text of the tree ----

  lemma Encode3(a: string, b: string, c: string)
    ensures Encode(a + (b + c)) == Encode(a) + (Encode(b) + Encode(c))
  {
    hide Encode;
    EncodeConcat(a, b + c);
    EncodeConcat(b, c);
  }

  lemma {:induction false} PrintIsText(v: Js, gap: string, level: nat)
    requires !v.JOmitted?
    ensures Encode(Text(TreeOf(v, gap, level))) == PrintValue(v, Encode(gap), level)
    decreases v, 1
  {
    hide Encode, ItemsOf, Quote, NumberText, ElemsOf, MembersOf, ElementsText, MembersText, Indent, PrintItems, PrintProps;
    match v
    case JString(us) => QuotedFacts(us);
    case JArray(items) =>
      var es := ElemsOf(items, gap, level);
      EncodeOne('[');
      if items == [] {
        EncodeBrackets();
        NothingPrinted(Encode(gap), level);
      } else {
        ElemsText(items, gap, level);
        EncodeConcat(['['], ElementsText(es));
        Rebracket(0x5B, PrintItems(items, Encode(gap), level, true), Indent(Encode(gap), level), 0x5D);
      }
    case JObject(props) =>
      var ms := MembersOf(props, gap, level);
      EncodeOne('{');
      if AllOmitted(props) {
        EncodeBrackets();
        OmittedPrinted(props, Encode(gap), level, true);
      } else {
        MembText(props, gap, level);
        EncodeConcat(['{'], MembersText(ms));
        Rebracket(0x7B, PrintProps(props, Encode(gap), level, true), Indent(Encode(gap), level), 0x7D);
      }
    case _ =>
  }

  lemma EncodeBrackets()
    ensures Encode(['['] + ("" + [']'])) == [0x5B, 0x5D]
    ensures Encode(['{'] + ("" + ['}'])) == [0x7B, 0x7D]
  {
    EncodeAscii("[]");
    EncodeAscii("{}");
    assert ['['] + ("" + [']']) == "[]";
    assert ['{'] + ("" + ['}']) == "{}";
  }

  lemma NothingPrinted(gap: seq<Unit>, level: nat)
    ensures PrintItems([], gap, level, true) == []
  {
  }

  lemma {:induction false} OmittedPrinted(props: seq<Prop>, gap: seq<Unit>, level: nat, first: bool)
    requires AllOmitted(props)
    ensures PrintProps(props, gap, level, first) == []
  {
    if props != [] {
      OmittedPrinted(props[1..], gap, level, first);
    }
  }

  lemma Rebracket(open: Unit, body: seq<Unit>, end: seq<Unit>, close: Unit)
    ensures [open] + (body + (end + [close])) == [open] + body + end + [close]
  {
  }

  lemma CommaFirst(items: seq<Js>, gap: seq<Unit>, level: nat)
    requires items != []
    ensures PrintItems(items, gap, level, false) == [0x2C] + PrintItems(items, gap, level, true)
  {
    hide Indent, PrintValue, Encode;
  }

  lemma {:induction false} ElemsText(items: seq<Js>, gap: string, level: nat)
    requires items != []
    ensures Encode(ElementsText(ElemsOf(items, gap, level))) ==
            PrintItems(items, Encode(gap), level, true) + (Indent(Encode(gap), level) + [0x5D])
    decreases items, 0
  {
    hide Encode, Text, TreeOf, PrintValue, IndentText, Indent, ElementsText, PrintItems, ElemsOf;
    var g := Encode(gap);
    var item := items[0];
    var value := Text(TreeOf(item, gap, level + 1));
    ItemPrinted(item, gap, level);
    var printed := if item.JOmitted? then Encode("null") else PrintValue(item, g, level + 1);
    IndentFacts(gap, level + 1);
    IndentFacts(gap, level);
    if |items| == 1 {
      OneElemText(items, gap, level);
      Encode3(IndentText(gap, level + 1), value, IndentText(gap, level) + [']']);
      EncodeConcat(IndentText(gap, level), [']']);
      EncodeOne(']');
      OneItemPrinted(items, g, level, printed);
    } else {
      var rest := ElementsText(ElemsOf(items[1..], gap, level));
      MoreElemsText(items, gap, level);
      Encode3(IndentText(gap, level + 1), value, [','] + rest);
      EncodeConcat([','], rest);
      EncodeOne(',');
      ElemsText(items[1..], gap, level);
      MoreItemsPrinted(items, g, level, printed, Indent(g, level) + [0x5D]);
    }
  }

  lemma {:induction false} ItemPrinted(item: Js, gap: string, level: nat)
    ensures Encode(Text(TreeOf(item, gap, level + 1))) ==
            if item.JOmitted? then Encode("null") else PrintValue(item, Encode(gap), level + 1)
    decreases item, 2
  {
    hide Encode, PrintValue;
    if !item.JOmitted? {
      PrintIsText(item, gap, level + 1);
    }
  }

  lemma OneElemText(items: seq<Js>, gap: string, level: nat)
    requires |items| == 1
    ensures ElementsText(ElemsOf(items, gap, level)) ==
            IndentText(gap, level + 1) + (Text(TreeOf(items[0], gap, level + 1)) + (IndentText(gap, level) + [']']))
  {
    hide Text, TreeOf, IndentText;
    var es := ElemsOf(items, gap, level);
    assert |es| == 1;
  }

  lemma MoreElemsText(items: seq<Js>, gap: string, level: nat)
    requires |items| > 1
    ensures ElementsText(ElemsOf(items, gap, level)) ==
            IndentText(gap, level + 1) +
            (Text(TreeOf(items[0], gap, level + 1)) + ([','] + ElementsText(ElemsOf(items[1..], gap, level))))
  {
    hide Text, TreeOf, IndentText;
    var es := ElemsOf(items, gap, level);
    assert es[1..] == ElemsOf(items[1..], gap, level);
    var rest := [','] + ElementsText(es[1..]);
    assert "" + rest == rest;
  }

  lemma OneItemPrinted(items: seq<Js>, gap: seq<Unit>, level: nat, printed: seq<Unit>)
    requires |items| == 1
    requires printed == if items[0].JOmitted? then Encode("null") else PrintValue(items[0], gap, level + 1)
    ensures Indent(gap, level + 1) + (printed + (Indent(gap, level) + [0x5D])) ==
            PrintItems(items, gap, level, true) + (Indent(gap, level) + [0x5D])
  {
    hide Indent, PrintValue, Encode;
    assert items[1..] == [];
    assert PrintItems(items, gap, level, true) == Indent(gap, level + 1) + printed;
  }

  lemma MoreItemsPrinted(items: seq<Js>, gap: seq<Unit>, level: nat, printed: seq<Unit>, end: seq<Unit>)
    requires |items| > 1
    requires printed == if items[0].JOmitted? then Encode("null") else PrintValue(items[0], gap, level + 1)
    ensures Indent(gap, level + 1) + (printed + ([0x2C] + (PrintItems(items[1..], gap, level, true) + end))) ==
            PrintItems(items, gap, level, true) + end
  {
    hide Indent, PrintValue, Encode;
    CommaFirst(items[1..], gap, level);
    var rest := PrintItems(items[1..], gap, level, true);
    assert PrintItems(items, gap, level, true) == Indent(gap, level + 1) + (printed + ([0x2C] + rest));
  }

  // ---- Properties ----

  lemma {:induction false} CommaFirstProp(props: seq<Prop>, gap: seq<Unit>, level: nat)
    requires !AllOmitted(props)
    ensures PrintProps(props, gap, level, false) == [0x2C] + PrintProps(props, gap, level, true)
  {
    hide Indent, PrintValue, Quote, Colon;
    if props[0].value.JOmitted? {
      CommaFirstProp(props[1..], gap, level);
    }
  }

  /** One printed property with what follows it. */
  function PropChunk(p: Prop, gap: seq<Unit>, level: nat, end: seq<Unit>): seq<Unit> {
    Indent(gap, level + 1) + (Quote(p.key) + (Colon(gap) + (PrintValue(p.value, gap, level + 1) + end)))
  }

  lemma {:induction false} MembText(props: seq<Prop>, gap: string, level: nat)
    requires !AllOmitted(props)
    ensures Encode(MembersText(MembersOf(props, gap, level))) ==
            PrintProps(props, Encode(gap), level, true) + (Indent(Encode(gap), level) + [0x7D])
    decreases props, 0
  {
    hide Encode, Text, TreeOf, PrintValue, IndentText, Indent, MembersText, PrintProps, MembersOf, PropChunk, ItemsOf;
    var g := Encode(gap);
    if props[0].value.JOmitted? {
      SkipOmitted(props, gap, level);
      MembText(props[1..], gap, level);
    } else {
      PropPrinted(props[0].value, gap, level);
      if AllOmitted(props[1..]) {
        IndentFacts(gap, level);
        var end := IndentText(gap, level) + ['}'];
        OneMembText(props, gap, level);
        ChunkText(props[0], gap, level, end);
        EncodeConcat(IndentText(gap, level), ['}']);
        EncodeOne('}');
        OnePropPrinted(props, g, level, Indent(g, level) + [0x7D]);
      } else {
        var rest := MembersText(MembersOf(props[1..], gap, level));
        MoreMembText(props, gap, level);
        ChunkText(props[0], gap, level, [','] + rest);
        EncodeConcat([','], rest);
        EncodeOne(',');
        MembText(props[1..], gap, level);
        MorePropsPrinted(props, g, level, Indent(g, level) + [0x7D]);
      }
    }
  }

  lemma SkipOmitted(props: seq<Prop>, gap: string, level: nat)
    requires props != [] && props[0].value.JOmitted? && !AllOmitted(props)
    ensures !AllOmitted(props[1..])
    ensures MembersOf(props, gap, level) == MembersOf(props[1..], gap, level)
    ensures PrintProps(props, Encode(gap), level, true) == PrintProps(props[1..], Encode(gap), level, true)
  {
    hide Encode, PrintValue, Indent, Quote, TreeOf;
  }

  lemma {:induction false} PropPrinted(v: Js, gap: string, level: nat)
    requires !v.JOmitted?
    ensures Encode(Text(TreeOf(v, gap, level + 1))) == PrintValue(v, Encode(gap), level + 1)
    decreases v, 2
  {
    hide Encode, PrintValue;
    PrintIsText(v, gap, level + 1);
  }

  /** A member as text, up to `end`. */
  function ChunkOf(p: Prop, gap: string, level: nat, end: string): string {
    IndentText(gap, level + 1) + (StringText(ItemsOf(p.key)) + ("" + ([':'] + (ColonText(gap) +
    (Text(TreeOf(p.value, gap, level + 1)) + end)))))
  }

  lemma ChunkText(p: Prop, gap: string, level: nat, end: string)
    requires Encode(Text(TreeOf(p.value, gap, level + 1))) == PrintValue(p.value, Encode(gap), level + 1)
    ensures Encode(ChunkOf(p, gap, level, end)) == PropChunk(p, Encode(gap), level, Encode(end))
  {
    hide Encode, Text, TreeOf, PrintValue, IndentText, Indent, Quote, StringText, ItemsOf;
    IndentFacts(gap, level + 1);
    QuotedFacts(p.key);
    var value := Text(TreeOf(p.value, gap, level + 1));
    var a := ColonText(gap) + (value + end);
    var b := [':'] + a;
    Encode3(IndentText(gap, level + 1), StringText(ItemsOf(p.key)), "" + b);
    assert "" + b == b;
    EncodeConcat([':'], a);
    Encode3(ColonText(gap), value, end);
    EncodeOne(':');
    ColonFacts(gap);
    assert [0x3A] + (Encode(ColonText(gap)) + (Encode(value) + Encode(end))) ==
           ([0x3A] + Encode(ColonText(gap))) + (Encode(value) + Encode(end));
  }

  lemma ColonFacts(gap: string)
    ensures [0x3A] + Encode(ColonText(gap)) == Colon(Encode(gap))
  {
    hide Encode;
    EncodeEmpty();
    EncodeOne(' ');
    if gap != "" {
      EncodeNonEmpty(gap);
    }
  }

  lemma OneMembText(props: seq<Prop>, gap: string, level: nat)
    requires props != [] && !props[0].value.JOmitted? && AllOmitted(props[1..])
    ensures MembersText(MembersOf(props, gap, level)) == ChunkOf(props[0], gap, level, IndentText(gap, level) + ['}'])
  {
    hide Text, TreeOf, IndentText, ItemsOf, StringText;
    var ms := MembersOf(props, gap, level);
    assert MembersOf(props[1..], gap, level) == [];
    assert |ms| == 1;
  }

  lemma MoreMembText(props: seq<Prop>, gap: string, level: nat)
    requires props != [] && !props[0].value.JOmitted? && !AllOmitted(props[1..])
    ensures MembersText(MembersOf(props, gap, level)) ==
            ChunkOf(props[0], gap, level, [','] + MembersText(MembersOf(props[1..], gap, level)))
  {
    hide Text, TreeOf, IndentText, ItemsOf, StringText;
    var ms := MembersOf(props, gap, level);
    assert ms[1..] == MembersOf(props[1..], gap, level);
    assert |ms| > 1;
    var rest := [','] + MembersText(ms[1..]);
    assert "" + rest == rest;
  }

  lemma OnePropPrinted(props: seq<Prop>, gap: seq<Unit>, level: nat, end: seq<Unit>)
    requires props != [] && !props[0].value.JOmitted? && AllOmitted(props[1..])
    ensures PropChunk(props[0], gap, level, end) == PrintProps(props, gap, level, true) + end
  {
    hide Indent, PrintValue, Quote, Colon;
    OmittedPrinted(props[1..], gap, level, false);
  }

  lemma MorePropsPrinted(props: seq<Prop>, gap: seq<Unit>, level: nat, end: seq<Unit>)
    requires props != [] && !props[0].value.JOmitted? && !AllOmitted(props[1..])
    ensures PropChunk(props[0], gap, level, [0x2C] + (PrintProps(props[1..], gap, level, true) + end)) ==
            PrintProps(props, gap, level, true) + end
  {
    hide Indent, PrintValue, Quote, Colon;
    CommaFirstProp(props[1..], gap, level);
    var rest := PrintProps(props[1..], gap, level, true);
    assert PrintProps(props, gap, level, true) ==
      Indent(gap, level + 1) + (Quote(props[0].key) + (Colon(gap) + (PrintValue(props[0].value, gap, level + 1) + ([0x2C] + rest))));
  }

  // ---- What a parsed node can be ----

  ghost predicate WellFormedNode(n: Node)
    decreases n, 1
  {
    match n.kind
    case KString(us) => WellFormed(us)
    case KArray(items) => forall i :: 0 <= i < |items| ==> WellFormedNode(items[i])
    case KObject(es) => forall i :: 0 <= i < |es| ==> WellFormed(es[i].key) && WellFormedNode(es[i].value)
    case _ => true
  }

  lemma {:induction false} TreeWellFormed(t: Tree, ok: string -> bool)
    requires Valid(t, ok)
    ensures WellFormedNode(NodeOf(t, ok))
    decreases t, 1
  {
    hide Text, WellFormed, ItemsUnits;
    match t
    case TArray(_, es) => ElementsWellFormed(es, ok);
    case TObject(_, ms) => MembersWellFormed(ms, ok);
    case _ =>
  }

  lemma {:induction false} ElementsWellFormed(es: seq<Element>, ok: string -> bool)
    requires ValidElements(es, ok)
    ensures forall i :: 0 <= i < |NodesOf(es, ok)| ==> WellFormedNode(NodesOf(es, ok)[i])
    decreases es, 0
  {
    hide WellFormedNode, Valid, NodeOf;
    if es != [] {
      TreeWellFormed(es[0].value, ok);
      ElementsWellFormed(es[1..], ok);
    }
  }

  lemma {:induction false} MembersWellFormed(ms: seq<Member>, ok: string -> bool)
    requires ValidMembers(ms, ok)
    ensures forall i :: 0 <= i < |EntriesOf(ms, ok)| ==>
              WellFormed(EntriesOf(ms, ok)[i].key) && WellFormedNode(EntriesOf(ms, ok)[i].value)
    decreases ms, 0
  {
    hide WellFormedNode, Valid, NodeOf, WellFormed, ItemsUnits;
    if ms != [] {
      TreeWellFormed(ms[0].value, ok);
      MembersWellFormed(ms[1..], ok);
    }
  }

  /** A value that a well-formed node matches is well-formed. */
  lemma {:induction false} MatchedWellFormed(n: Node, v: Js)
    requires Matches(n, v) && WellFormedNode(n)
    ensures WellFormedJs(v)
    decreases v, 1
  {
    hide WellFormed, NumberText;
    match v
    case JArray(items) => MatchedItems(n.kind.items, items);
    case JObject(props) => MatchedProps(n.kind.entries, props);
    case _ =>
  }

  lemma {:induction false} MatchedItems(ns: seq<Node>, items: seq<Js>)
    requires MatchItems(ns, items) && forall i :: 0 <= i < |ns| ==> WellFormedNode(ns[i])
    ensures WellFormedItems(items)
    decreases items, 0
  {
    hide WellFormedNode, Matches, WellFormedJs;
    if items != [] {
      MatchedWellFormed(ns[0], items[0]);
      MatchedItems(ns[1..], items[1..]);
    }
  }

  lemma {:induction false} MatchedProps(es: seq<Entry>, props: seq<Prop>)
    requires MatchProps(es, props)
    requires forall i :: 0 <= i < |es| ==> WellFormed(es[i].key) && WellFormedNode(es[i].value)
    ensures WellFormedProps(props)
    decreases props, 0
  {
    hide WellFormedNode, Matches, WellFormedJs, WellFormed;
    if props != [] {
      if props[0].value.JOmitted? {
        MatchedProps(es, props[1..]);
      } else {
        MatchedWellFormed(es[0].value, props[0].value);
        MatchedProps(es[1..], props[1..]);
      }
    }
  }

  /** A tree whose node matches a value nests as deep as the value. */
  lemma {:induction false} MatchedDepth(t: Tree, v: Js, ok: string -> bool)
    requires Valid(t, ok) && Matches(NodeOf(t, ok), v)
    ensures Depth(t) == DepthJs(v)
    decreases v, 1
  {
    hide Text, NumberText, WellFormed, ItemsUnits;
    match v
    case JArray(items) => MatchedItemsDepth(t.elems, items, ok);
    case JObject(props) => MatchedPropsDepth(t.members, props, ok);
    case _ =>
  }

  lemma {:induction false} MatchedItemsDepth(es: seq<Element>, items: seq<Js>, ok: string -> bool)
    requires ValidElements(es, ok) && MatchItems(NodesOf(es, ok), items)
    ensures ElementsDepth(es) == DepthItems(items)
    decreases items, 0
  {
    hide Valid, NodeOf, Matches, Depth, DepthJs;
    if items != [] {
      assert NodesOf(es, ok)[1..] == NodesOf(es[1..], ok);
      MatchedDepth(es[0].value, items[0], ok);
      MatchedItemsDepth(es[1..], items[1..], ok);
    }
  }

  lemma {:induction false} MatchedPropsDepth(ms: seq<Member>, props: seq<Prop>, ok: string -> bool)
    requires ValidMembers(ms, ok) && MatchProps(EntriesOf(ms, ok), props)
    ensures MembersDepth(ms) == DepthProps(props)
    decreases props, 0
  {
    hide Valid, NodeOf, Matches, Depth, WellFormed, ItemsUnits;
    if props != [] {
      if props[0].value.JOmitted? {
        MatchedPropsDepth(ms, props[1..], ok);
      } else {
        assert EntriesOf(ms, ok)[1..] == EntriesOf(ms[1..], ok);
        MatchedDepth(ms[0].value, props[0].value, ok);
        MatchedPropsDepth(ms[1..], props[1..], ok);
      }
    }
  }

  // ---- Round trip ----

  /** The text of the printed value, as JSON.parse receives it. */
  function PrintedText(v: Js, gap: string): string {
    Decode(PrintValue(v, Encode(gap), 0))
  }

  /** Printing and parsing gives the value back exactly when its strings are
      well-formed UTF-16 and it nests at most 128 deep, whatever the gap. */
  lemma RoundTrip(v: Js, gap: string, ok: string -> bool)
    requires !v.JOmitted? && NumbersOk(v, ok) && AllWs(gap)
    ensures
      var r := Parse(PrintedText(v, gap), ok);
      (r.Ok? && Matches(r.value, v)) <==> (WellFormedJs(v) && DepthJs(v) <= MAX_JSON_DEPTH)
  {
    hide Encode, Decode, Parse, PrintValue, TreeOf, Matches, WellFormedJs, DepthJs, NumbersOk, Text, Valid, NodeOf, Depth;
    var text := PrintedText(v, gap);
    var r := Parse(text, ok);
    if WellFormedJs(v) && DepthJs(v) <= MAX_JSON_DEPTH {
      var t := TreeOf(v, gap, 0);
      TreeFacts(v, gap, 0, ok);
      PrintIsText(v, gap, 0);
      DecodeEncode(Text(t));
      TextComplete("", t, "", ok);
      assert "" + (Text(t) + "") == Text(t);
    }
    if r.Ok? && Matches(r.value, v) {
      var before, t, after := ParseSound(text, ok);
      DerivesFacts(text, before, t, after, ok);
      TreeWellFormed(t, ok);
      MatchedWellFormed(NodeOf(t, ok), v);
      MatchedDepth(t, v, ok);
    }
  }

  lemma DerivesFacts(text: string, before: string, t: Tree, after: string, ok: string -> bool)
    requires Derives(text, before, t, after, ok)
    ensures Valid(t, ok) && Depth(t) <= MAX_JSON_DEPTH
  {
  }

  /** A lone surrogate, whatever the gap, does not come back. */
  lemma LoneSurrogateLost(gap: string, ok: string -> bool)
    requires AllWs(gap)
    ensures
      var r := Parse(PrintedText(JString([0xD800]), gap), ok);
      !(r.Ok? && Matches(r.value, JString([0xD800])))
  {
    hide Parse, PrintedText, Matches, WellFormed;
    LoneHigh();
    RoundTrip(JString([0xD800]), gap, ok);
  }
}
