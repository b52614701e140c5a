/** Completeness: the parser accepts the text of every valid derivation tree of
    allowed depth and returns the node of that tree. */
module JsonComplete {
  import opened Basics
  import opened Utf16
  import opened JsonGrammar
  import opened JsonParse

  predicate Continues(rest: string) {
    rest != [] && (IsDigit(rest[0]) || rest[0] == '.' || rest[0] == 'e' || rest[0] == 'E')
  }

  lemma {:induction false} SkipWsOver(ws: string, s: string)
    requires AllWs(ws)
    ensures SkipWs(ws + s) == SkipWs(s)
  {
    if ws == [] {
      assert ws + s == s;
    } else {
      assert (ws + s)[1..] == ws[1..] + s;
      SkipWsOver(ws[1..], s);
    }
  }

  lemma {:induction false} SkipDigitsOver(ds: string, s: string)
    requires AllDigits(ds) && !AtDigit(s)
    ensures SkipDigits(ds + s) == s
  {
    if ds == [] {
      assert ds + s == s;
    } else {
      assert (ds + s)[1..] == ds[1..] + s;
      SkipDigitsOver(ds[1..], s);
    }
  }

  // ---- Numbers ----

  lemma IntComplete(whole: string, rest: string)
    requires ValidInt(whole) && !AtDigit(rest)
    ensures SkipInt(whole + rest) == Some(rest)
  {
    if whole == "0" {
      assert (whole + rest)[1..] == rest;
    } else {
      SkipDigitsOver(whole, rest);
      assert (whole + rest)[0] == whole[0];
    }
  }

  lemma FracComplete(f: Option<string>, rest: string)
    requires f.Some? ==> Digits(f.value) && !AtDigit(rest)
    requires f.None? ==> rest == [] || rest[0] != '.'
    ensures SkipFrac(FracText(f) + rest) == Some(rest)
  {
    if f.Some? {
      assert (FracText(f) + rest)[1..] == f.value + rest;
      SkipDigitsOver(f.value, rest);
    } else {
      assert FracText(f) + rest == rest;
    }
  }

  lemma ExpSpelled(x: Exponent, rest: string)
    ensures
      var s, sign := ExpText(Some(x)) + rest, if x.sign.Some? then [x.sign.value] else [];
      s[0] == x.e && s[1..] == sign + (x.digits + rest)
  {
  }

  lemma ExpComplete(x: Option<Exponent>, rest: string)
    requires x.Some? ==>
      && (x.value.e == 'e' || x.value.e == 'E')
      && (x.value.sign.Some? ==> x.value.sign.value == '+' || x.value.sign.value == '-')
      && Digits(x.value.digits)
    requires !Continues(rest)
    ensures SkipExp(ExpText(x) + rest) == Some(rest)
  {
    hide SkipDigits;
    if x.Some? {
      hide ExpText, AllDigits;
      var s, tail := ExpText(x) + rest, x.value.digits + rest;
      ExpSpelled(x.value, rest);
      FirstDigit(x.value.digits, rest);
      if x.value.sign.Some? {
        assert s[1..][1..] == tail;
      } else {
        assert s[1..] == tail;
      }
      SkipDigitsOver(x.value.digits, rest);
    } else {
      assert ExpText(x) + rest == rest;
    }
  }

  lemma FirstDigit(ds: string, rest: string)
    requires Digits(ds)
    ensures AtDigit(ds + rest) && (ds + rest)[0] == ds[0]
  {
  }

  /** The text of a number in front of what follows. */
  lemma NumberSpelled(n: Number, rest: string)
    ensures
      var body := n.whole + (FracText(n.frac) + (ExpText(n.exp) + rest));
      NumberText(n) + rest == if n.minus then ['-'] + body else body
  {
    hide FracText, ExpText;
    var f, x := FracText(n.frac), ExpText(n.exp);
    assert (n.whole + (f + x)) + rest == n.whole + (f + (x + rest));
    if n.minus {
      assert ("-" + (n.whole + (f + x))) + rest == ['-'] + ((n.whole + (f + x)) + rest);
    } else {
      assert "" + (n.whole + (f + x)) == n.whole + (f + x);
    }
  }

  lemma NumberComplete(n: Number, rest: string)
    requires ValidNumber(n) && !Continues(rest)
    ensures SkipNumber(NumberText(n) + rest) == Some(rest)
    ensures (NumberText(n) + rest)[0] == '-' || IsDigit((NumberText(n) + rest)[0])
  {
    hide SkipInt, SkipFrac, SkipExp, SkipDigits, NumberText;
    var tail := FracText(n.frac) + (ExpText(n.exp) + rest);
    var s := NumberText(n) + rest;
    NumberSpelled(n, rest);
    assert (n.whole + tail)[0] == n.whole[0];
    if n.minus {
      assert s[1..] == n.whole + tail;
    }
    AfterNumberParts(n, rest);
    IntComplete(n.whole, tail);
    FracComplete(n.frac, ExpText(n.exp) + rest);
    ExpComplete(n.exp, rest);
  }

  /** Where one part of a number ends no digit follows, and no point after the
      decimals. */
  lemma AfterNumberParts(n: Number, rest: string)
    requires ValidNumber(n) && !Continues(rest)
    ensures
      var x := ExpText(n.exp) + rest;
      && !AtDigit(x) && (x == [] || x[0] != '.')
      && !AtDigit(FracText(n.frac) + x)
  {
    var x := ExpText(n.exp) + rest;
    if n.exp.Some? {
      ExpSpelled(n.exp.value, rest);
    } else {
      assert x == rest;
    }
    if n.frac.Some? {
      assert (FracText(n.frac) + x)[0] == '.';
    } else {
      assert FracText(n.frac) + x == x;
    }
  }

  // ---- Strings ----

  lemma Hex4Complete(d: string, rest: string)
    requires IsHex4(d)
    ensures ParseHex4(d + rest) == Ok(HexValue(d), rest)
  {
    var s := d + rest;
    var a := HexDigit(d[0]);
    var b := a * 16 + HexDigit(d[1]);
    var c := b * 16 + HexDigit(d[2]);
    assert s[1..][0] == d[1] && s[1..][1..][0] == d[2] && s[1..][1..][1..][0] == d[3];
    assert s[1..][1..][1..][1..] == rest;
    assert HexRun(s, 0, 0) == HexRun(s[1..], 1, a);
    assert HexRun(s[1..], 1, a) == HexRun(s[1..][1..], 2, b);
    assert HexRun(s[1..][1..], 2, b) == HexRun(s[1..][1..][1..], 3, c);
    assert HexRun(s[1..][1..][1..], 3, c) == HexRun(rest, 4, HexValue(d));
  }

  lemma EscapeComplete(v: nat, body: string, rest: string, units: seq<Unit>)
    requires ParseUnicodeEscape(body) == Ok(v, rest)
    ensures ParseStringRest("\\u" + body, units) == ParseStringRest(rest, units + [v % 0x1_0000])
  {
    hide ParseUnicodeEscape;
    var s := "\\u" + body;
    assert s[0] == '\\' && s[1..][0] == 'u' && s[1..][1..] == body;
    assert ParseEscape(s[1..]) == Ok(v % 0x1_0000, rest);
  }

  lemma HexComplete(d: string, rest: string)
    requires IsHex4(d) && !IsSurrogate(HexValue(d))
    ensures ParseUnicodeEscape(d + rest) == Ok(HexValue(d), rest)
  {
    hide ParseHex4;
    Hex4Complete(d, rest);
  }

  lemma PairComplete(hi: string, lo: string, rest: string)
    requires IsHex4(hi) && IsHex4(lo) && IsHigh(HexValue(hi)) && IsLow(HexValue(lo))
    ensures ParseUnicodeEscape(hi + ("\\u" + (lo + rest))) == Ok(PairValue(HexValue(hi), HexValue(lo)), rest)
  {
    hide ParseHex4, HexValue;
    var mid := "\\u" + (lo + rest);
    Hex4Complete(hi, mid);
    assert mid[2..] == lo + rest;
    Hex4Complete(lo, rest);
    assert "\\u" <= mid;
  }

  /** One item is read with its units, and the rest of the string follows. */
  lemma ItemComplete(it: StrItem, rest: string, units: seq<Unit>)
    requires ValidItem(it)
    ensures ParseStringRest(ItemText(it) + rest, units) == ParseStringRest(rest, units + ItemUnits(it))
  {
    hide ParseStringRest, ParseUnicodeEscape, HexValue, EscapeValue, IsEscape, PairValue;
    match it
    case Plain(c) => PlainComplete(c, rest, units);
    case Escape(e) => SimpleComplete(e, rest, units);
    case Hex(d) =>
      assert ItemText(it) + rest == "\\u" + (d + rest);
      HexComplete(d, rest);
      EscapeComplete(HexValue(d), d + rest, rest, units);
    case HexPair(hi, lo) =>
      var body := hi + ("\\u" + (lo + rest));
      assert ItemText(it) + rest == "\\u" + body;
      PairComplete(hi, lo, rest);
      EscapeComplete(PairValue(HexValue(hi), HexValue(lo)), body, rest, units);
  }

  lemma PlainComplete(c: char, rest: string, units: seq<Unit>)
    requires ValidItem(Plain(c))
    ensures ParseStringRest([c] + rest, units) == ParseStringRest(rest, units + EncodeChar(c))
  {
    assert ([c] + rest)[1..] == rest;
  }

  lemma SimpleComplete(e: char, rest: string, units: seq<Unit>)
    requires IsEscape(e)
    ensures ParseStringRest(['\\', e] + rest, units) == ParseStringRest(rest, units + [EscapeValue(e)])
  {
    var s := ['\\', e] + rest;
    assert s[1..][0] == e && s[1..][1..] == rest;
    assert ParseEscape(s[1..]) == Ok(EscapeValue(e), rest);
  }

  lemma {:induction false} StringComplete(items: seq<StrItem>, rest: string, units: seq<Unit>)
    requires ValidItems(items) && WellFormed(units + ItemsUnits(items))
    ensures ParseStringRest(ItemsText(items) + (['"'] + rest), units) == Ok(units + ItemsUnits(items), rest)
  {
    var s := ['"'] + rest;
    if items == [] {
      assert ItemsText(items) + s == s;
      assert units + ItemsUnits(items) == units;
      assert s[1..] == rest;
    } else {
      hide ParseStringRest, ItemUnits, ItemText;
      var tail := ItemsText(items[1..]) + s;
      assert ItemsText(items) + s == ItemText(items[0]) + tail;
      ItemComplete(items[0], tail, units);
      var units' := units + ItemUnits(items[0]);
      assert units + ItemsUnits(items) == units' + ItemsUnits(items[1..]);
      StringComplete(items[1..], rest, units');
    }
  }

  lemma QuotedComplete(items: seq<StrItem>, rest: string)
    requires ValidItems(items) && WellFormed(ItemsUnits(items))
    ensures (StringText(items) + rest)[0] == '"'
    ensures ParseStringRest((StringText(items) + rest)[1..], []) == Ok(ItemsUnits(items), rest)
  {
    hide ParseStringRest, WellFormed, ItemsUnits, ItemsText;
    assert [] + ItemsUnits(items) == ItemsUnits(items);
    assert (StringText(items) + rest)[1..] == ItemsText(items) + (['"'] + rest);
    StringComplete(items, rest, []);
  }

  // ---- Values ----

  lemma ValueSkips(ws: string, s: string, depth: nat, ok: string -> bool)
    requires AllWs(ws)
    ensures ParseValue(ws + s, depth, ok) == ParseValue(s, depth, ok)
  {
    hide SkipWs, Literal, ParseStringRest, ParseArray, ParseObject, ParseNumber;
    SkipWsOver(ws, s);
  }

  lemma ElementsSkip(ws: string, s: string, depth: nat, ok: string -> bool, items: seq<Node>)
    requires AllWs(ws)
    ensures ParseElements(ws + s, depth, ok, items) == ParseElements(s, depth, ok, items)
  {
    hide SkipWs, ParseValue;
    ValueSkips(ws, s, depth, ok);
  }

  lemma MembersSkip(ws: string, s: string, depth: nat, ok: string -> bool, entries: seq<Entry>)
    requires AllWs(ws)
    ensures ParseMembers(ws + s, depth, ok, entries) == ParseMembers(s, depth, ok, entries)
  {
    hide SkipWs, ParseMember;
    MemberSkips(ws, s, depth, ok);
  }

  lemma MemberSkips(ws: string, s: string, depth: nat, ok: string -> bool)
    requires AllWs(ws)
    ensures ParseMember(ws + s, depth, ok) == ParseMember(s, depth, ok)
  {
    hide SkipWs, ParseValue, ParseStringRest;
    SkipWsOver(ws, s);
  }

  lemma SkipNone(s: string)
    requires s == [] || !IsWs(s[0])
    ensures SkipWs(s) == s
  {
  }

  lemma LiteralComplete(t: Tree, rest: string, depth: nat, ok: string -> bool)
    requires t.TNull? || t.TTrue? || t.TFalse?
    ensures ParseValue(Text(t) + rest, depth, ok) == Ok(NodeOf(t, ok), rest)
  {
    hide SkipWs;
    var s := Text(t) + rest;
    SkipNone(s);
    assert s[|Text(t)|..] == rest;
  }

  lemma TNumberComplete(n: Number, rest: string, depth: nat, ok: string -> bool)
    requires ValidNumber(n) && ok(NumberText(n)) && !Continues(rest)
    ensures ParseValue(NumberText(n) + rest, depth, ok) == Ok(NodeOf(TNumber(n), ok), rest)
  {
    hide SkipWs, SkipNumber, NumberText;
    var s := NumberText(n) + rest;
    NumberComplete(n, rest);
    SkipNone(s);
    assert Slice(s, rest) == NumberText(n);
  }

  lemma TStringComplete(items: seq<StrItem>, rest: string, depth: nat, ok: string -> bool)
    requires ValidItems(items) && WellFormed(ItemsUnits(items))
    ensures ParseValue(StringText(items) + rest, depth, ok) == Ok(NodeOf(TString(items), ok), rest)
  {
    hide SkipWs, ParseStringRest, ItemsText, WellFormed, ItemsUnits;
    var s := StringText(items) + rest;
    QuotedComplete(items, rest);
    SkipNone(s);
    assert Slice(s, rest) == StringText(items);
  }

  lemma {:induction false} ValueComplete(t: Tree, rest: string, depth: nat, ok: string -> bool)
    requires Valid(t, ok) && depth + Depth(t) <= MAX_JSON_DEPTH
    requires t.TNumber? ==> !Continues(rest)
    ensures ParseValue(Text(t) + rest, depth, ok) == Ok(NodeOf(t, ok), rest)
    decreases t, 1
  {
    hide ParseValue, ParseElements, ParseMembers, NumberText, StringText, ElementsText, MembersText, NodesOf, EntriesOf, ValidElements, ValidMembers, ItemsUnits, WellFormed;
    match t
    case TNull => LiteralComplete(t, rest, depth, ok);
    case TTrue => LiteralComplete(t, rest, depth, ok);
    case TFalse => LiteralComplete(t, rest, depth, ok);
    case TNumber(n) => TNumberComplete(n, rest, depth, ok);
    case TString(items) => TStringComplete(items, rest, depth, ok);
    case TArray(blank, elems) =>
      if elems == [] {
        EmptyArrayComplete(blank, rest, depth, ok);
      } else {
        ElementsComplete(elems, rest, depth + 1, ok, []);
        ArrayFromElements(t, rest, depth, ok);
      }
    case TObject(blank, members) =>
      if members == [] {
        EmptyObjectComplete(blank, rest, depth, ok);
      } else {
        MembersComplete(members, rest, depth + 1, ok, []);
        ObjectFromMembers(t, rest, depth, ok);
      }
  }

  lemma EmptyArrayComplete(blank: string, rest: string, depth: nat, ok: string -> bool)
    requires Valid(TArray(blank, []), ok) && depth < MAX_JSON_DEPTH
    ensures ParseValue(Text(TArray(blank, [])) + rest, depth, ok) == Ok(NodeOf(TArray(blank, []), ok), rest)
  {
    hide SkipWs, ParseElements, Literal, ParseStringRest, ParseObject, ParseNumber;
    var s := Text(TArray(blank, [])) + rest;
    SkipNone(s);
    assert s[1..] == blank + ([']'] + rest);
    SkipWsOver(blank, [']'] + rest);
    SkipNone([']'] + rest);
    assert ([']'] + rest)[1..] == rest;
  }

  lemma EmptyObjectComplete(blank: string, rest: string, depth: nat, ok: string -> bool)
    requires Valid(TObject(blank, []), ok) && depth < MAX_JSON_DEPTH
    ensures ParseValue(Text(TObject(blank, [])) + rest, depth, ok) == Ok(NodeOf(TObject(blank, []), ok), rest)
  {
    hide SkipWs, ParseMembers, Literal, ParseStringRest, ParseArray, ParseNumber;
    var s := Text(TObject(blank, [])) + rest;
    SkipNone(s);
    assert s[1..] == blank + (['}'] + rest);
    SkipWsOver(blank, ['}'] + rest);
    SkipNone(['}'] + rest);
    assert (['}'] + rest)[1..] == rest;
  }

  // ---- Arrays ----

  predicate Headed(t: Tree) {
    t.TNumber? ==> ValidNumber(t.n)
  }

  /** The characters a value can start with. */
  lemma TextHead(t: Tree)
    requires Headed(t)
    ensures Text(t) != [] && !IsWs(Text(t)[0]) && Text(t)[0] != ']' && Text(t)[0] != '}'
  {
    match t
    case TNumber(n) =>
      assert Text(t)[0] == '-' || Text(t)[0] == n.whole[0];
    case _ =>
  }

  /** Skipping the whitespace of the first element leads to its value, not to the
      closing bracket. */
  lemma FirstElement(es: seq<Element>, rest: string)
    requires es != [] && AllWs(es[0].before) && Headed(es[0].value)
    ensures
      var s1 := SkipWs(ElementsText(es) + rest);
      && s1 != [] && s1[0] != ']'
      && ElementsText(es) + rest == es[0].before + s1
  {
    var e := es[0];
    var tail := e.after + (if |es| == 1 then [']'] else [','] + ElementsText(es[1..])) + rest;
    var s := Text(e.value) + tail;
    assert ElementsText(es) + rest == e.before + s;
    TextHead(e.value);
    assert s[0] == Text(e.value)[0];
    SkipWsOver(e.before, s);
    SkipNone(s);
  }

  lemma ArrayFromElements(t: Tree, rest: string, depth: nat, ok: string -> bool)
    requires t.TArray? && t.elems != [] && Valid(t, ok) && depth < MAX_JSON_DEPTH
    requires ParseElements(ElementsText(t.elems) + rest, depth + 1, ok, []) == Ok([] + NodesOf(t.elems, ok), rest)
    ensures ParseValue(Text(t) + rest, depth, ok) == Ok(NodeOf(t, ok), rest)
  {
    hide SkipWs, ParseElements, Literal, ParseStringRest, ParseObject, ParseNumber, ElementsText, NodesOf, ValidElements;
    var s := Text(t) + rest;
    SkipNone(s);
    var body := ElementsText(t.elems) + rest;
    assert s[1..] == body;
    FirstBefore(t.elems, ok);
    FirstElement(t.elems, rest);
    var s1 := SkipWs(body);
    ElementsSkip(t.elems[0].before, s1, depth + 1, ok, []);
    assert [] + NodesOf(t.elems, ok) == NodesOf(t.elems, ok);
  }

  lemma FirstBefore(es: seq<Element>, ok: string -> bool)
    requires es != [] && ValidElements(es, ok)
    ensures AllWs(es[0].before) && Headed(es[0].value)
  {
  }

  /** What follows a value inside a container does not continue a number. */
  lemma AfterIsQuiet(after: string, c: char, rest: string)
    requires AllWs(after) && (c == ',' || c == ']' || c == '}')
    ensures !Continues(after + ([c] + rest))
    ensures SkipWs(after + ([c] + rest)) == [c] + rest
  {
    SkipWsOver(after, [c] + rest);
    SkipNone([c] + rest);
    var s := after + ([c] + rest);
    assert after != [] ==> s[0] == after[0];
  }

  lemma ElementsShape(es: seq<Element>, rest: string)
    requires es != []
    ensures
      var e := es[0];
      var tail := e.after + (if |es| == 1 then [']'] + rest else [','] + (ElementsText(es[1..]) + rest));
      ElementsText(es) + rest == e.before + (Text(e.value) + tail)
  {
    hide Text;
    var e := es[0];
    var end := if |es| == 1 then [']'] else [','] + ElementsText(es[1..]);
    Assoc(e.before, Text(e.value) + (e.after + end), rest);
    Assoc(Text(e.value), e.after + end, rest);
    Assoc(e.after, end, rest);
    if |es| > 1 {
      Assoc([','], ElementsText(es[1..]), rest);
    }
  }

  lemma LastElement(es: seq<Element>, rest: string, depth: nat, ok: string -> bool, items: seq<Node>)
    requires |es| == 1 && ValidElements(es, ok)
    requires
      var tail := es[0].after + ([']'] + rest);
      ParseValue(Text(es[0].value) + tail, depth, ok) == Ok(NodeOf(es[0].value, ok), tail)
    ensures ParseElements(ElementsText(es) + rest, depth, ok, items) == Ok(items + NodesOf(es, ok), rest)
  {
    hide SkipWs, ParseValue, Text, Valid, NodeOf, ElementsText;
    var e := es[0];
    var tail := e.after + ([']'] + rest);
    ElementsShape(es, rest);
    AfterIsQuiet(e.after, ']', rest);
    ElementsSkip(e.before, Text(e.value) + tail, depth, ok, items);
    assert ([']'] + rest)[1..] == rest;
    assert NodesOf(es, ok) == [NodeOf(e.value, ok)];
  }

  lemma MoreElements(es: seq<Element>, rest: string, depth: nat, ok: string -> bool, items: seq<Node>)
    requires |es| > 1 && AllWs(es[0].before) && Valid(es[0].value, ok) && AllWs(es[0].after)
    requires AllWs(es[1].before) && Headed(es[1].value)
    requires
      var tail := es[0].after + ([','] + (ElementsText(es[1..]) + rest));
      ParseValue(Text(es[0].value) + tail, depth, ok) == Ok(NodeOf(es[0].value, ok), tail)
    ensures
      ParseElements(ElementsText(es) + rest, depth, ok, items) ==
      ParseElements(ElementsText(es[1..]) + rest, depth, ok, items + [NodeOf(es[0].value, ok)])
  {
    hide SkipWs, ParseValue, Text, Valid, NodeOf, ElementsText, Headed;
    var e, node := es[0], NodeOf(es[0].value, ok);
    var more := ElementsText(es[1..]) + rest;
    var tail := e.after + ([','] + more);
    ElementsShape(es, rest);
    AfterIsQuiet(e.after, ',', more);
    ElementsSkip(e.before, Text(e.value) + tail, depth, ok, items);
    assert ([','] + more)[1..] == more;
    FirstElement(es[1..], rest);
    ElementsSkip(es[1].before, SkipWs(more), depth, ok, items + [node]);
  }

  lemma {:induction false} ElementsComplete(es: seq<Element>, rest: string, depth: nat, ok: string -> bool, items: seq<Node>)
    requires es != [] && ValidElements(es, ok) && depth + ElementsDepth(es) <= MAX_JSON_DEPTH
    ensures ParseElements(ElementsText(es) + rest, depth, ok, items) == Ok(items + NodesOf(es, ok), rest)
    decreases es, 0
  {
    hide SkipWs, ParseValue, ParseElements, Text, Continues, Valid, NodeOf, Depth, ElementsText, Headed;
    var e := es[0];
    if |es| == 1 {
      AfterIsQuiet(e.after, ']', rest);
      ValueComplete(e.value, e.after + ([']'] + rest), depth, ok);
      LastElement(es, rest, depth, ok, items);
    } else {
      var more := ElementsText(es[1..]) + rest;
      var node := NodeOf(e.value, ok);
      AfterIsQuiet(e.after, ',', more);
      ValueComplete(e.value, e.after + ([','] + more), depth, ok);
      FirstBefore(es[1..], ok);
      MoreElements(es, rest, depth, ok, items);
      ElementsComplete(es[1..], rest, depth, ok, items + [node]);
      assert items + NodesOf(es, ok) == items + [node] + NodesOf(es[1..], ok);
    }
  }

  // ---- Objects ----

  predicate ValidMember(m: Member, ok: string -> bool) {
    && AllWs(m.before) && ValidItems(m.key) && WellFormed(ItemsUnits(m.key))
    && AllWs(m.mid) && AllWs(m.pre) && Valid(m.value, ok) && AllWs(m.after)
  }

  function MemberText(m: Member, tail: string): string {
    m.before + (StringText(m.key) + (m.mid + ([':'] + (m.pre + (Text(m.value) + (m.after + tail))))))
  }

  lemma FirstMember(ms: seq<Member>, rest: string)
    requires ms != [] && AllWs(ms[0].before)
    ensures
      var s1 := SkipWs(MembersText(ms) + rest);
      && s1 != [] && s1[0] == '"'
      && MembersText(ms) + rest == ms[0].before + s1
  {
    hide Text, MembersText, StringText, SkipWs, Valid, ItemsUnits, WellFormed, ValidItems;
    var m := ms[0];
    MembersShape(ms, rest);
    var tail := m.after + (if |ms| == 1 then ['}'] + rest else [','] + (MembersText(ms[1..]) + rest));
    var s := StringText(m.key) + (m.mid + ([':'] + (m.pre + (Text(m.value) + tail))));
    StartsWithQuote(m.key, m.mid + ([':'] + (m.pre + (Text(m.value) + tail))));
    SkipWsOver(m.before, s);
    SkipNone(s);
  }

  lemma StartsWithQuote(items: seq<StrItem>, rest: string)
    ensures (StringText(items) + rest)[0] == '"'
  {
  }

  lemma ObjectFromMembers(t: Tree, rest: string, depth: nat, ok: string -> bool)
    requires t.TObject? && t.members != [] && Valid(t, ok) && depth < MAX_JSON_DEPTH
    requires ParseMembers(MembersText(t.members) + rest, depth + 1, ok, []) == Ok([] + EntriesOf(t.members, ok), rest)
    ensures ParseValue(Text(t) + rest, depth, ok) == Ok(NodeOf(t, ok), rest)
  {
    hide SkipWs, ParseMembers, Literal, ParseStringRest, ParseArray, ParseNumber, MembersText, EntriesOf, ValidMembers;
    var s := Text(t) + rest;
    SkipNone(s);
    var body := MembersText(t.members) + rest;
    assert s[1..] == body;
    MembersStart(t.members, ok);
    FirstMember(t.members, rest);
    MembersSkip(t.members[0].before, SkipWs(body), depth + 1, ok, []);
    assert [] + EntriesOf(t.members, ok) == EntriesOf(t.members, ok);
  }

  /** One member up to what follows its value. */
  lemma MemberComplete(m: Member, tail: string, depth: nat, ok: string -> bool)
    requires AllWs(m.before) && ValidItems(m.key) && WellFormed(ItemsUnits(m.key)) && AllWs(m.mid) && AllWs(m.pre)
    requires Valid(m.value, ok)
    requires ParseValue(Text(m.value) + tail, depth, ok) == Ok(NodeOf(m.value, ok), tail)
    ensures
      var s := m.before + (StringText(m.key) + (m.mid + ([':'] + (m.pre + (Text(m.value) + tail)))));
      ParseMember(s, depth, ok) == Ok(Entry(ItemsUnits(m.key), NodeOf(m.value, ok)), tail)
  {
    hide SkipWs, ParseValue, ParseStringRest, Text, Valid, NodeOf, StringText, ItemsUnits, WellFormed;
    var v := Text(m.value) + tail;
    var afterKey := m.mid + ([':'] + (m.pre + v));
    var s0 := StringText(m.key) + afterKey;
    MemberSkips(m.before, s0, depth, ok);
    QuotedComplete(m.key, afterKey);
    SkipNone(s0);
    SkipWsOver(m.mid, [':'] + (m.pre + v));
    SkipNone([':'] + (m.pre + v));
    assert ([':'] + (m.pre + v))[1..] == m.pre + v;
    ValueSkips(m.pre, v, depth, ok);
  }

  lemma MembersShape(ms: seq<Member>, rest: string)
    requires ms != []
    ensures
      var m := ms[0];
      var tail := m.after + (if |ms| == 1 then ['}'] + rest else [','] + (MembersText(ms[1..]) + rest));
      MembersText(ms) + rest == m.before + (StringText(m.key) + (m.mid + ([':'] + (m.pre + (Text(m.value) + tail)))))
  {
    hide Text, StringText;
    var m := ms[0];
    var end := if |ms| == 1 then ['}'] else [','] + MembersText(ms[1..]);
    var y6 := m.after + end;
    var y5 := Text(m.value) + y6;
    var y4 := m.pre + y5;
    var y3 := [':'] + y4;
    var y2 := m.mid + y3;
    var y1 := StringText(m.key) + y2;
    assert MembersText(ms) == m.before + y1;
    Assoc(m.before, y1, rest);
    Assoc(StringText(m.key), y2, rest);
    Assoc(m.mid, y3, rest);
    Assoc([':'], y4, rest);
    Assoc(m.pre, y5, rest);
    Assoc(Text(m.value), y6, rest);
    Assoc(m.after, end, rest);
    if |ms| > 1 {
      Assoc([','], MembersText(ms[1..]), rest);
    }
  }

  lemma Assoc(a: string, b: string, c: string)
    ensures (a + b) + c == a + (b + c)
  {
  }

  lemma LastMember(ms: seq<Member>, rest: string, depth: nat, ok: string -> bool, entries: seq<Entry>)
    requires |ms| == 1 && ValidMembers(ms, ok)
    requires
      var tail := ms[0].after + (['}'] + rest);
      ParseValue(Text(ms[0].value) + tail, depth, ok) == Ok(NodeOf(ms[0].value, ok), tail)
    ensures ParseMembers(MembersText(ms) + rest, depth, ok, entries) == Ok(entries + EntriesOf(ms, ok), rest)
  {
    hide SkipWs, ParseValue, ParseMember, Text, Valid, NodeOf, StringText, ItemsUnits, WellFormed, ValidItems, MembersText;
    var m := ms[0];
    var tail := m.after + (['}'] + rest);
    MembersShape(ms, rest);
    AfterIsQuiet(m.after, '}', rest);
    MemberComplete(m, tail, depth, ok);
    assert (['}'] + rest)[1..] == rest;
    assert EntriesOf(ms, ok) == [Entry(ItemsUnits(m.key), NodeOf(m.value, ok))];
  }

  lemma MembersStart(ms: seq<Member>, ok: string -> bool)
    requires ms != [] && ValidMembers(ms, ok)
    ensures ValidMember(ms[0], ok) && ValidMembers(ms[1..], ok)
    ensures AllWs(ms[0].before)
  {
  }

  lemma MoreMembers(ms: seq<Member>, rest: string, depth: nat, ok: string -> bool, entries: seq<Entry>)
    requires |ms| > 1 && ValidMember(ms[0], ok) && AllWs(ms[1].before)
    requires
      var tail := ms[0].after + ([','] + (MembersText(ms[1..]) + rest));
      ParseValue(Text(ms[0].value) + tail, depth, ok) == Ok(NodeOf(ms[0].value, ok), tail)
    ensures
      var entry := Entry(ItemsUnits(ms[0].key), NodeOf(ms[0].value, ok));
      ParseMembers(MembersText(ms) + rest, depth, ok, entries) ==
      ParseMembers(MembersText(ms[1..]) + rest, depth, ok, entries + [entry])
  {
    hide SkipWs, ParseValue, ParseMember, Text, Valid, NodeOf, StringText, ItemsUnits, WellFormed, ValidItems, MembersText;
    var m := ms[0];
    var entry := Entry(ItemsUnits(m.key), NodeOf(m.value, ok));
    var more := MembersText(ms[1..]) + rest;
    var tail := m.after + ([','] + more);
    MembersShape(ms, rest);
    AfterIsQuiet(m.after, ',', more);
    MemberComplete(m, tail, depth, ok);
    assert ([','] + more)[1..] == more;
    FirstMember(ms[1..], rest);
    MembersSkip(ms[1].before, SkipWs(more), depth, ok, entries + [entry]);
  }

  lemma {:induction false} MembersComplete(ms: seq<Member>, rest: string, depth: nat, ok: string -> bool, entries: seq<Entry>)
    requires ms != [] && ValidMembers(ms, ok) && depth + MembersDepth(ms) <= MAX_JSON_DEPTH
    ensures ParseMembers(MembersText(ms) + rest, depth, ok, entries) == Ok(entries + EntriesOf(ms, ok), rest)
    decreases ms, 0
  {
    hide SkipWs, ParseValue, ParseMembers, Text, Continues, Valid, NodeOf, Depth, ItemsUnits, WellFormed, ValidItems, MembersText;
    var m := ms[0];
    if |ms| == 1 {
      AfterIsQuiet(m.after, '}', rest);
      ValueComplete(m.value, m.after + (['}'] + rest), depth, ok);
      LastMember(ms, rest, depth, ok, entries);
    } else {
      var more := MembersText(ms[1..]) + rest;
      var entry := Entry(ItemsUnits(m.key), NodeOf(m.value, ok));
      AfterIsQuiet(m.after, ',', more);
      ValueComplete(m.value, m.after + ([','] + more), depth, ok);
      MembersStart(ms, ok);
      MembersStart(ms[1..], ok);
      MoreMembers(ms, rest, depth, ok, entries);
      MembersComplete(ms[1..], rest, depth, ok, entries + [entry]);
      assert entries + EntriesOf(ms, ok) == entries + [entry] + EntriesOf(ms[1..], ok);
    }
  }

  lemma ValidHead(t: Tree, ok: string -> bool)
    requires Valid(t, ok)
    ensures Headed(t)
  {
  }

  /** Every text of the grammar within the depth limit is accepted. */
  lemma TextComplete(before: string, t: Tree, after: string, ok: string -> bool)
    requires AllWs(before) && Valid(t, ok) && AllWs(after) && Depth(t) <= MAX_JSON_DEPTH
    ensures Parse(before + (Text(t) + after), ok) == Ok(NodeOf(t, ok), [])
  {
    hide SkipWs, ParseValue, Text, Valid, NodeOf, Depth;
    var s := Text(t) + after;
    assert !Continues(after);
    ValidHead(t, ok);
    TextHead(t);
    assert s[0] == Text(t)[0];
    SkipWsOver(before, s);
    SkipNone(s);
    ValueComplete(t, after, 0, ok);
    assert after + [] == after;
    SkipWsOver(after, []);
    SkipNone([]);
  }
}
