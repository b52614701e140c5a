/** Soundness: whatever the parser accepts is the text of a valid derivation tree
    within the depth limit, and the result is the node of that tree. */
module JsonSound {
  import opened Basics
  import opened Utf16
  import opened JsonGrammar
  import opened JsonParse
  import opened JsonComplete

  lemma {:induction false} SkipWsSound(s: string) returns (ws: string)
    ensures AllWs(ws) && s == ws + SkipWs(s)
    ensures SkipWs(s) != [] ==> !IsWs(SkipWs(s)[0])
  {
    if s != [] && IsWs(s[0]) {
      ws := SkipWsSound(s[1..]);
      ws := [s[0]] + ws;
    } else {
      ws := [];
    }
  }

  lemma {:induction false} SkipDigitsSound(s: string) returns (ds: string)
    ensures AllDigits(ds) && s == ds + SkipDigits(s)
    ensures AtDigit(s) ==> ds != [] && ds[0] == s[0]
    ensures !AtDigit(SkipDigits(s))
  {
    if AtDigit(s) {
      ds := SkipDigitsSound(s[1..]);
      ds := [s[0]] + ds;
    } else {
      ds := [];
    }
  }

  // ---- Numbers ----

  lemma IntSound(s: string) returns (whole: string)
    requires SkipInt(s).Some?
    ensures ValidInt(whole) && s == whole + SkipInt(s).value
  {
    if s[0] == '0' {
      whole := "0";
    } else {
      whole := SkipDigitsSound(s);
    }
  }

  lemma FracSound(s: string) returns (f: Option<string>)
    requires SkipFrac(s).Some?
    ensures (f.Some? ==> Digits(f.value)) && s == FracText(f) + SkipFrac(s).value
  {
    if s != [] && s[0] == '.' {
      var ds := SkipDigitsSound(s[1..]);
      f := Some(ds);
      assert s == [s[0]] + s[1..];
    } else {
      f := None;
    }
  }

  lemma ExpSound(s: string) returns (x: Option<Exponent>)
    requires SkipExp(s).Some?
    ensures x.Some? ==>
      && (x.value.e == 'e' || x.value.e == 'E')
      && (x.value.sign.Some? ==> x.value.sign.value == '+' || x.value.sign.value == '-')
      && Digits(x.value.digits)
    ensures s == ExpText(x) + SkipExp(s).value
  {
    hide SkipDigits;
    if s != [] && (s[0] == 'e' || s[0] == 'E') {
      var s1 := s[1..];
      if s1 != [] && (s1[0] == '+' || s1[0] == '-') {
        var ds := SkipDigitsSound(s1[1..]);
        x := Some(Exponent(s[0], Some(s1[0]), ds));
        Assoc([s[0]] + [s1[0]], ds, SkipExp(s).value);
        assert s == ([s[0]] + [s1[0]]) + s1[1..];
      } else {
        var ds := SkipDigitsSound(s1);
        x := Some(Exponent(s[0], None, ds));
        assert ExpText(x) == [s[0]] + ds;
        Assoc([s[0]], ds, SkipExp(s).value);
        assert s == [s[0]] + s1;
      }
    } else {
      x := None;
    }
  }

  lemma NumberSound(s: string) returns (n: Number)
    requires SkipNumber(s).Some?
    ensures ValidNumber(n) && s == NumberText(n) + SkipNumber(s).value
  {
    hide SkipInt, SkipFrac, SkipExp, FracText, ExpText, NumberText, ValidInt, Digits;
    var minus := s != [] && s[0] == '-';
    var s1 := if minus then s[1..] else s;
    var s2 := SkipInt(s1).value;
    var s3 := SkipFrac(s2).value;
    var s4 := SkipExp(s3).value;
    var whole := IntSound(s1);
    var f := FracSound(s2);
    var x := ExpSound(s3);
    n := Number(minus, whole, f, x);
    NumberSpelled(n, s4);
    if minus {
      assert s == ['-'] + s1;
    }
  }

  // ---- Strings ----

  lemma Hex4Sound(s: string)
    requires ParseHex4(s).Ok?
    ensures |s| >= 4 && IsHex4(s[..4]) && ParseHex4(s) == Ok(HexValue(s[..4]), s[4..])
  {
    HexRunLength(s, 0, 0);
    assert s == s[..4] + s[4..];
    HexRunDigits(s);
    Hex4Complete(s[..4], s[4..]);
  }

  lemma {:induction false} HexRunLength(s: string, k: nat, v: nat)
    requires k <= 4 && v < (if k == 0 then 1 else if k == 1 then 16 else if k == 2 then 256 else if k == 3 then 4096 else 0x1_0000)
    requires HexRun(s, k, v).Ok?
    ensures |s| >= 4 - k
    decreases 4 - k
  {
  }

  lemma HexRunDigits(s: string)
    requires ParseHex4(s).Ok? && |s| >= 4
    ensures IsHex4(s[..4])
  {
    var a := HexDigit(s[0]);
    assert HexRun(s, 0, 0) == HexRun(s[1..], 1, a);
    assert IsHexDigit(s[1..][0]);
    var b := a * 16 + HexDigit(s[1]);
    assert HexRun(s[1..], 1, a) == HexRun(s[1..][1..], 2, b);
    assert IsHexDigit(s[1..][1..][0]);
    var c := b * 16 + HexDigit(s[2]);
    assert HexRun(s[1..][1..], 2, b) == HexRun(s[1..][1..][1..], 3, c);
    assert IsHexDigit(s[1..][1..][1..][0]);
  }

  lemma PairText(hi: string, lo: string, rest: string)
    ensures "\\u" + (hi + ("\\u" + (lo + rest))) == ItemText(HexPair(hi, lo)) + rest
  {
    Assoc("\\u" + hi + "\\u", lo, rest);
    Assoc("\\u" + hi, "\\u", lo + rest);
    Assoc("\\u", hi, "\\u" + (lo + rest));
  }

  /** What follows `\u`, as an item. */
  lemma UnicodeSound(s: string) returns (it: StrItem)
    requires ParseUnicodeEscape(s).Ok?
    ensures ValidItem(it) && (it.Hex? || it.HexPair?)
    ensures "\\u" + s == ItemText(it) + ParseUnicodeEscape(s).rest
    ensures ItemUnits(it) == [ParseUnicodeEscape(s).value % 0x1_0000]
  {
    hide ParseHex4, HexValue, IsHex4;
    Hex4Sound(s);
    var hi := s[..4];
    var s1 := s[4..];
    assert s == hi + s1;
    if IsHigh(HexValue(hi)) {
      var s2 := s1[2..];
      Hex4Sound(s2);
      var lo := s2[..4];
      it := HexPair(hi, lo);
      assert s2 == lo + s2[4..];
      assert s1 == "\\u" + s2;
      PairText(hi, lo, s2[4..]);
    } else {
      it := Hex(hi);
      Assoc("\\u", hi, s1);
    }
  }

  /** One character of a string, whatever its spelling. */
  lemma ItemSound(s: string, units: seq<Unit>) returns (it: StrItem, rest: string)
    requires ParseStringRest(s, units).Ok? && s[0] != '"'
    ensures ValidItem(it) && s == ItemText(it) + rest && |rest| < |s|
    ensures ParseStringRest(s, units) == ParseStringRest(rest, units + ItemUnits(it))
  {
    hide ParseUnicodeEscape, WellFormed, EncodeChar, HexValue, PairValue;
    if s[0] == '\\' {
      var s1 := s[1..];
      if s1[0] == 'u' {
        it := UnicodeSound(s1[1..]);
        rest := ParseUnicodeEscape(s1[1..]).rest;
        assert s == "\\u" + s1[1..];
      } else {
        it := Escape(s1[0]);
        rest := s1[1..];
        assert s == ['\\', s1[0]] + rest;
      }
    } else {
      it := Plain(s[0]);
      rest := s[1..];
      assert s == [s[0]] + rest;
    }
  }

  lemma StringStarts(s: string, units: seq<Unit>)
    requires ParseStringRest(s, units).Ok?
    ensures s != []
    ensures
      var r := ParseStringRest(s, units);
      s[0] == '"' ==> r.value == units && WellFormed(units) && s == ['"'] + r.rest
  {
    hide WellFormed;
    assert s[0] == '"' ==> s == ['"'] + s[1..];
  }

  lemma {:induction false} StringSound(s: string, units: seq<Unit>) returns (items: seq<StrItem>)
    requires ParseStringRest(s, units).Ok?
    ensures ValidItems(items)
    ensures
      var r := ParseStringRest(s, units);
      r.value == units + ItemsUnits(items) && WellFormed(r.value) && s == ItemsText(items) + (['"'] + r.rest)
    decreases |s|
  {
    hide ParseStringRest, WellFormed, ItemUnits, ItemText, ValidItem;
    StringStarts(s, units);
    if s[0] == '"' {
      items := [];
      assert units + ItemsUnits([]) == units;
      assert ItemsText([]) + s == s;
    } else {
      var it, rest := ItemSound(s, units);
      var more := StringSound(rest, units + ItemUnits(it));
      items := [it] + more;
      ConsItems(it, more);
      assert units + ItemsUnits(items) == (units + ItemUnits(it)) + ItemsUnits(more);
      Assoc(ItemText(it), ItemsText(more), ['"'] + ParseStringRest(s, units).rest);
    }
  }

  lemma ConsItems(it: StrItem, more: seq<StrItem>)
    requires ValidItem(it) && ValidItems(more)
    ensures ValidItems([it] + more)
    ensures ItemsUnits([it] + more) == ItemUnits(it) + ItemsUnits(more)
    ensures ItemsText([it] + more) == ItemText(it) + ItemsText(more)
  {
    hide ItemUnits, ItemText, ValidItem;
    assert ([it] + more)[1..] == more;
  }

  // ---- Putting whitespace in front ----

  lemma WsConcat(a: string, b: string)
    requires AllWs(a) && AllWs(b)
    ensures AllWs(a + b)
  {
  }

  lemma PrependElements(ws: string, es: seq<Element>, ok: string -> bool) returns (es': seq<Element>)
    requires es != [] && AllWs(ws) && ValidElements(es, ok)
    ensures es' != [] && ValidElements(es', ok)
    ensures ElementsText(es') == ws + ElementsText(es)
    ensures NodesOf(es', ok) == NodesOf(es, ok) && ElementsDepth(es') == ElementsDepth(es)
  {
    hide Text, Valid, NodeOf, Depth;
    var e := es[0];
    WsConcat(ws, e.before);
    es' := [e.(before := ws + e.before)] + es[1..];
    assert es'[1..] == es[1..];
    var tail := Text(e.value) + (e.after + (if |es| == 1 then [']'] else [','] + ElementsText(es[1..])));
    assert ElementsText(es) == e.before + tail;
    assert ElementsText(es') == (ws + e.before) + tail;
  }

  lemma PrependMembers(ws: string, ms: seq<Member>, ok: string -> bool) returns (ms': seq<Member>)
    requires ms != [] && AllWs(ws) && ValidMembers(ms, ok)
    ensures ms' != [] && ValidMembers(ms', ok)
    ensures MembersText(ms') == ws + MembersText(ms)
    ensures EntriesOf(ms', ok) == EntriesOf(ms, ok) && MembersDepth(ms') == MembersDepth(ms)
  {
    hide Text, Valid, NodeOf, Depth, StringText, ItemsUnits, WellFormed, ValidItems;
    var m := ms[0];
    WsConcat(ws, m.before);
    ms' := [m.(before := ws + m.before)] + ms[1..];
    assert ms'[1..] == ms[1..];
    var tail := StringText(m.key) + (m.mid + ([':'] + (m.pre + (Text(m.value) + (m.after +
                (if |ms| == 1 then ['}'] else [','] + MembersText(ms[1..])))))));
    assert MembersText(ms) == m.before + tail;
    assert MembersText(ms') == (ws + m.before) + tail;
  }

  // ---- Values ----

  /** A value with its leading whitespace. */
  ghost predicate IsValue(s: string, depth: nat, ok: string -> bool, ws: string, t: Tree) {
    var r := ParseValue(s, depth, ok);
    && r.Ok?
    && AllWs(ws) && Valid(t, ok)
    && s == ws + (Text(t) + r.rest)
    && r.value == NodeOf(t, ok)
    && depth + Depth(t) <= MAX_JSON_DEPTH
  }

  lemma {:induction false} ValueSound(s: string, depth: nat, ok: string -> bool) returns (ws: string, t: Tree)
    requires ParseValue(s, depth, ok).Ok? && depth <= MAX_JSON_DEPTH
    ensures IsValue(s, depth, ok, ws, t)
    decreases |s|, 1
  {
    hide ParseNumber, ParseStringRest, ParseArray, ParseObject, SkipWs, Literal;
    ws := SkipWsSound(s);
    var s1 := SkipWs(s);
    var c := s1[0];
    if c == 'n' {
      t := TNull;
      LiteralSound(s1, "null", KNull);
    } else if c == 't' {
      t := TTrue;
      LiteralSound(s1, "true", KBool(true));
    } else if c == 'f' {
      t := TFalse;
      LiteralSound(s1, "false", KBool(false));
    } else if c == '"' {
      t := QuotedSound(s1, ok);
    } else if c == '[' {
      t := ArraySound(s1[1..], depth + 1, ok);
      assert s1 == ['['] + s1[1..];
      Assoc(['['], Text(t)[1..], ParseArray(s1[1..], depth + 1, ok).rest);
    } else if c == '{' {
      t := ObjectSound(s1[1..], depth + 1, ok);
      assert s1 == ['{'] + s1[1..];
      Assoc(['{'], Text(t)[1..], ParseObject(s1[1..], depth + 1, ok).rest);
    } else {
      t := TokenSound(s1, ok);
    }
  }

  lemma LiteralSound(s: string, word: string, kind: Kind)
    requires word != [] && Literal(s, word, kind).Ok?
    ensures Literal(s, word, kind).value == Node(kind, Some(word)) && s == word + Literal(s, word, kind).rest
  {
  }

  lemma TokenSound(s: string, ok: string -> bool) returns (t: Tree)
    requires ParseNumber(s, ok).Ok?
    ensures t.TNumber? && Valid(t, ok) && NodeOf(t, ok) == ParseNumber(s, ok).value
    ensures s == Text(t) + ParseNumber(s, ok).rest
  {
    hide SkipNumber, NumberText, ValidNumber;
    var n := NumberSound(s);
    t := TNumber(n);
    assert Slice(s, SkipNumber(s).value) == NumberText(n);
  }

  lemma QuotedSound(s: string, ok: string -> bool) returns (t: Tree)
    requires s != [] && s[0] == '"' && ParseStringRest(s[1..], []).Ok?
    ensures t.TString? && Valid(t, ok)
    ensures
      var r := ParseStringRest(s[1..], []);
      s == Text(t) + r.rest && |r.rest| <= |s| && NodeOf(t, ok) == Node(KString(r.value), Some(Slice(s, r.rest)))
  {
    hide ParseStringRest, WellFormed, ItemsUnits, ItemsText, ValidItems;
    var items := StringSound(s[1..], []);
    t := TString(items);
    var rest := ParseStringRest(s[1..], []).rest;
    assert [] + ItemsUnits(items) == ItemsUnits(items);
    Assoc(ItemsText(items), ['"'], rest);
    Assoc(['"'], ItemsText(items) + ['"'], rest);
    assert s == ['"'] + s[1..];
    assert Slice(s, rest) == StringText(items);
  }

  // ---- Arrays ----

  lemma {:induction false} ArraySound(s: string, depth: nat, ok: string -> bool) returns (t: Tree)
    requires ParseArray(s, depth, ok).Ok? && depth <= MAX_JSON_DEPTH
    ensures t.TArray? && Valid(t, ok) && Text(t)[0] == '['
    ensures s == Text(t)[1..] + ParseArray(s, depth, ok).rest
    ensures NodeOf(t, ok) == Node(KArray(ParseArray(s, depth, ok).value), None)
    ensures depth + Depth(t) <= MAX_JSON_DEPTH + 1
    decreases |s|, 3
  {
    hide ParseElements, SkipWs, ElementsText, ElementsDepth, ValidElements, NodesOf;
    var ws := SkipWsSound(s);
    var s1 := SkipWs(s);
    if s1 != [] && s1[0] == ']' {
      t := TArray(ws, []);
      EmptyFacts(ws, ok);
      assert s1 == [']'] + s1[1..];
      assert Text(t)[1..] == ws + [']'];
      Assoc(ws, [']'], s1[1..]);
    } else {
      var es := ElementsSound(s1, depth, ok, []);
      var es' := PrependElements(ws, es, ok);
      t := TArray("", es');
      assert Text(t)[1..] == ElementsText(es');
      Assoc(ws, ElementsText(es), ParseElements(s1, depth, ok, []).rest);
      assert [] + NodesOf(es, ok) == NodesOf(es, ok);
    }
  }

  lemma EmptyFacts(ws: string, ok: string -> bool)
    ensures ValidElements([], ok) && NodesOf([], ok) == [] && ElementsDepth([]) == 0
    ensures ValidMembers([], ok) && EntriesOf([], ok) == [] && MembersDepth([]) == 0
  {
  }

  lemma {:induction false} ElementsSound(s: string, depth: nat, ok: string -> bool, items: seq<Node>) returns (es: seq<Element>)
    requires ParseElements(s, depth, ok, items).Ok? && depth <= MAX_JSON_DEPTH
    ensures es != [] && ValidElements(es, ok)
    ensures s == ElementsText(es) + ParseElements(s, depth, ok, items).rest
    ensures ParseElements(s, depth, ok, items).value == items + NodesOf(es, ok)
    ensures depth + ElementsDepth(es) <= MAX_JSON_DEPTH
    decreases |s|, 2
  {
    hide ParseValue, SkipWs, ElementsText, ElementsDepth, ValidElements, NodesOf;
    var before, v := ValueSound(s, depth, ok);
    var r := ParseValue(s, depth, ok);
    var after := SkipWsSound(r.rest);
    var s1 := SkipWs(r.rest);
    var e := Element(before, v, after);
    if s1[0] == ',' {
      var ws := SkipWsSound(s1[1..]);
      var s2 := SkipWs(s1[1..]);
      var more := ElementsSound(s2, depth, ok, items + [r.value]);
      var rest := ParseElements(s2, depth, ok, items + [r.value]).rest;
      more := PrependElementsTo(ws, more, ok, s1[1..], s2, rest);
      es := [e] + more;
      ConsElement(e, more, ok, rest);
      assert s1 == [','] + s1[1..];
      assert items + [r.value] + NodesOf(more, ok) == items + ([r.value] + NodesOf(more, ok));
    } else {
      es := [e];
      OneElement(e, ok, s1[1..]);
      assert s1 == [']'] + s1[1..];
    }
  }

  lemma PrependElementsTo(ws: string, es: seq<Element>, ok: string -> bool, s1: string, s2: string, rest: string)
      returns (es': seq<Element>)
    requires es != [] && AllWs(ws) && ValidElements(es, ok)
    requires s1 == ws + s2 && s2 == ElementsText(es) + rest
    ensures es' != [] && ValidElements(es', ok)
    ensures s1 == ElementsText(es') + rest
    ensures NodesOf(es', ok) == NodesOf(es, ok) && ElementsDepth(es') == ElementsDepth(es)
  {
    hide ElementsText, ElementsDepth, ValidElements, NodesOf;
    es' := PrependElements(ws, es, ok);
    Assoc(ws, ElementsText(es), rest);
  }

  lemma OneElement(e: Element, ok: string -> bool, rest: string)
    requires AllWs(e.before) && Valid(e.value, ok) && AllWs(e.after)
    ensures ValidElements([e], ok) && NodesOf([e], ok) == [NodeOf(e.value, ok)]
    ensures ElementsDepth([e]) == Depth(e.value)
    ensures ElementsText([e]) + rest == e.before + (Text(e.value) + (e.after + ([']'] + rest)))
  {
    hide Text, Valid, NodeOf, Depth;
    var es := [e];
    assert es[1..] == [];
    assert ElementsText(es) == e.before + (Text(e.value) + (e.after + [']']));
    Assoc(e.before, Text(e.value) + (e.after + [']']), rest);
    Assoc(Text(e.value), e.after + [']'], rest);
    Assoc(e.after, [']'], rest);
  }

  lemma ConsElement(e: Element, more: seq<Element>, ok: string -> bool, rest: string)
    requires AllWs(e.before) && Valid(e.value, ok) && AllWs(e.after)
    requires more != [] && ValidElements(more, ok)
    ensures ValidElements([e] + more, ok) && NodesOf([e] + more, ok) == [NodeOf(e.value, ok)] + NodesOf(more, ok)
    ensures ElementsDepth([e] + more) == Max(Depth(e.value), ElementsDepth(more))
    ensures ElementsText([e] + more) + rest ==
            e.before + (Text(e.value) + (e.after + ([','] + (ElementsText(more) + rest))))
  {
    hide Text, Valid, NodeOf, Depth;
    var es := [e] + more;
    assert es[1..] == more;
    var end := [','] + ElementsText(more);
    assert ElementsText(es) == e.before + (Text(e.value) + (e.after + end));
    Assoc(e.before, Text(e.value) + (e.after + end), rest);
    Assoc(Text(e.value), e.after + end, rest);
    Assoc(e.after, end, rest);
    Assoc([','], ElementsText(more), rest);
  }

  // ---- Objects ----

  lemma {:induction false} ObjectSound(s: string, depth: nat, ok: string -> bool) returns (t: Tree)
    requires ParseObject(s, depth, ok).Ok? && depth <= MAX_JSON_DEPTH
    ensures t.TObject? && Valid(t, ok) && Text(t)[0] == '{'
    ensures s == Text(t)[1..] + ParseObject(s, depth, ok).rest
    ensures NodeOf(t, ok) == Node(KObject(ParseObject(s, depth, ok).value), None)
    ensures depth + Depth(t) <= MAX_JSON_DEPTH + 1
    decreases |s|, 3
  {
    hide ParseMembers, SkipWs, MembersText, MembersDepth, ValidMembers, EntriesOf;
    var ws := SkipWsSound(s);
    var s1 := SkipWs(s);
    if s1 != [] && s1[0] == '}' {
      t := TObject(ws, []);
      EmptyFacts(ws, ok);
      assert s1 == ['}'] + s1[1..];
      assert Text(t)[1..] == ws + ['}'];
      Assoc(ws, ['}'], s1[1..]);
    } else {
      var ms := MembersSound(s1, depth, ok, []);
      var ms' := PrependMembers(ws, ms, ok);
      t := TObject("", ms');
      assert Text(t)[1..] == MembersText(ms');
      Assoc(ws, MembersText(ms), ParseMembers(s1, depth, ok, []).rest);
      assert [] + EntriesOf(ms, ok) == EntriesOf(ms, ok);
    }
  }

  /** One member up to the end of its value. */
  lemma {:induction false} MemberSound(s: string, depth: nat, ok: string -> bool) returns (m: Member)
    requires ParseMember(s, depth, ok).Ok? && depth <= MAX_JSON_DEPTH
    ensures ValidMember(m, ok) && m.after == "" && depth + Depth(m.value) <= MAX_JSON_DEPTH
    ensures s == MemberText(m, ParseMember(s, depth, ok).rest)
    ensures ParseMember(s, depth, ok).value == Entry(ItemsUnits(m.key), NodeOf(m.value, ok))
    decreases |s|, 1
  {
    hide ParseValue, ParseStringRest, SkipWs, ItemsUnits, WellFormed, ItemsText, ValidItems;
    var before := SkipWsSound(s);
    var s1 := SkipWs(s);
    var key := StringSound(s1[1..], []);
    assert [] + ItemsUnits(key) == ItemsUnits(key);
    var rest := ParseStringRest(s1[1..], []).rest;
    assert s1 == ['"'] + s1[1..];
    Assoc(ItemsText(key), ['"'], rest);
    Assoc(['"'], ItemsText(key) + ['"'], rest);
    assert s1 == StringText(key) + rest;
    var mid := SkipWsSound(rest);
    var s2 := SkipWs(rest);
    assert s2 == [':'] + s2[1..];
    var pre, v := ValueSound(s2[1..], depth, ok);
    m := Member(before, key, mid, pre, v, "");
    assert "" + ParseValue(s2[1..], depth, ok).rest == ParseValue(s2[1..], depth, ok).rest;
  }

  lemma {:induction false} MembersSound(s: string, depth: nat, ok: string -> bool, entries: seq<Entry>) returns (ms: seq<Member>)
    requires ParseMembers(s, depth, ok, entries).Ok? && depth <= MAX_JSON_DEPTH
    ensures ms != [] && ValidMembers(ms, ok)
    ensures s == MembersText(ms) + ParseMembers(s, depth, ok, entries).rest
    ensures ParseMembers(s, depth, ok, entries).value == entries + EntriesOf(ms, ok)
    ensures depth + MembersDepth(ms) <= MAX_JSON_DEPTH
    decreases |s|, 2
  {
    hide ParseMember, SkipWs, MembersText, MembersDepth, ValidMembers, EntriesOf, MemberText, ValidMember;
    var m0 := MemberSound(s, depth, ok);
    var r := ParseMember(s, depth, ok);
    var after := SkipWsSound(r.rest);
    var tail := SkipWs(r.rest);
    var m := m0.(after := after);
    MoveAfter(m0, after, tail, ok);
    if tail[0] == ',' {
      var ws := SkipWsSound(tail[1..]);
      var s2 := SkipWs(tail[1..]);
      var more := MembersSound(s2, depth, ok, entries + [r.value]);
      var rest := ParseMembers(s2, depth, ok, entries + [r.value]).rest;
      more := PrependMembersTo(ws, more, ok, tail[1..], s2, rest);
      ms := [m] + more;
      ConsMember(m, more, ok, rest);
      assert tail == [','] + tail[1..];
      assert entries + [r.value] + EntriesOf(more, ok) == entries + ([r.value] + EntriesOf(more, ok));
    } else {
      ms := [m];
      OneMember(m, ok, tail[1..]);
      assert tail == ['}'] + tail[1..];
    }
  }

  /** Whitespace after a value belongs to its member. */
  lemma MoveAfter(m: Member, after: string, tail: string, ok: string -> bool)
    requires ValidMember(m, ok) && m.after == "" && AllWs(after)
    ensures ValidMember(m.(after := after), ok)
    ensures MemberText(m.(after := after), tail) == MemberText(m, after + tail)
    ensures ValidItems(m.key) && Valid(m.value, ok)
  {
    hide Text, Valid, StringText, ItemsUnits, WellFormed, ValidItems;
    assert "" + (after + tail) == after + tail;
  }

  lemma PrependMembersTo(ws: string, ms: seq<Member>, ok: string -> bool, s1: string, s2: string, rest: string)
      returns (ms': seq<Member>)
    requires ms != [] && AllWs(ws) && ValidMembers(ms, ok)
    requires s1 == ws + s2 && s2 == MembersText(ms) + rest
    ensures ms' != [] && ValidMembers(ms', ok)
    ensures s1 == MembersText(ms') + rest
    ensures EntriesOf(ms', ok) == EntriesOf(ms, ok) && MembersDepth(ms') == MembersDepth(ms)
  {
    hide MembersText, MembersDepth, ValidMembers, EntriesOf;
    ms' := PrependMembers(ws, ms, ok);
    Assoc(ws, MembersText(ms), rest);
  }

  lemma OneMember(m: Member, ok: string -> bool, rest: string)
    requires ValidMember(m, ok)
    ensures ValidMembers([m], ok) && EntriesOf([m], ok) == [Entry(ItemsUnits(m.key), NodeOf(m.value, ok))]
    ensures MembersDepth([m]) == Depth(m.value)
    ensures MembersText([m]) + rest == MemberText(m, ['}'] + rest)
  {
    hide Text, Valid, NodeOf, Depth, ItemsUnits, WellFormed, StringText, ValidItems, MembersText;
    var ms := [m];
    assert ms[1..] == [];
    MembersShape(ms, rest);
  }

  lemma ConsMember(m: Member, more: seq<Member>, ok: string -> bool, rest: string)
    requires ValidMember(m, ok) && more != [] && ValidMembers(more, ok)
    ensures ValidMembers([m] + more, ok)
    ensures EntriesOf([m] + more, ok) == [Entry(ItemsUnits(m.key), NodeOf(m.value, ok))] + EntriesOf(more, ok)
    ensures MembersDepth([m] + more) == Max(Depth(m.value), MembersDepth(more))
    ensures MembersText([m] + more) + rest == MemberText(m, [','] + (MembersText(more) + rest))
  {
    hide Text, Valid, NodeOf, Depth, ItemsUnits, WellFormed, StringText, ValidItems, MembersText;
    var ms := [m] + more;
    assert ms[1..] == more;
    MembersShape(ms, rest);
  }

  // ---- The language of the parser ----

  /** The texts of RFC 8259 nested at most 128 deep whose number tokens are in
      range and whose strings decode to well-formed UTF-16. */
  ghost predicate InLanguage(text: string, ok: string -> bool) {
    exists before, t, after :: Derives(text, before, t, after, ok)
  }

  ghost predicate Derives(text: string, before: string, t: Tree, after: string, ok: string -> bool) {
    && AllWs(before) && Valid(t, ok) && AllWs(after)
    && Depth(t) <= MAX_JSON_DEPTH
    && text == before + (Text(t) + after)
  }

  lemma ParseSound(text: string, ok: string -> bool) returns (before: string, t: Tree, after: string)
    requires Parse(text, ok).Ok?
    ensures Derives(text, before, t, after, ok)
    ensures Parse(text, ok).value == NodeOf(t, ok)
  {
    hide ParseValue, SkipWs, Text, Valid, NodeOf, Depth;
    var ws := SkipWsSound(text);
    var s := SkipWs(text);
    var ws2, t' := ValueSound(s, 0, ok);
    t := t';
    before := ws + ws2;
    WsConcat(ws, ws2);
    after := SkipWsSound(ParseValue(s, 0, ok).rest);
    assert after + [] == after;
    Assoc(ws, ws2, Text(t) + after);
  }

  /** The parser accepts exactly the language, and the value it returns is that of
      any derivation of the text. */
  lemma AcceptsExactlyTheLanguage(text: string, ok: string -> bool)
    ensures Parse(text, ok).Ok? <==> InLanguage(text, ok)
    ensures forall before, t, after :: Derives(text, before, t, after, ok) ==>
              Parse(text, ok) == Ok(NodeOf(t, ok), [])
  {
    hide Text, Valid, NodeOf, Depth, Parse;
    if Parse(text, ok).Ok? {
      var before, t, after := ParseSound(text, ok);
    }
    forall before, t, after | Derives(text, before, t, after, ok)
      ensures Parse(text, ok) == Ok(NodeOf(t, ok), [])
    {
      TextComplete(before, t, after, ok);
    }
  }

  // ---- Sources ----

  /** Every primitive in the node carries a source that parses, on its own, to the
      very same node. */
  ghost predicate SourcesExact(n: Node, ok: string -> bool)
    decreases n, 1
  {
    match n.kind
    case KArray(items) => n.source.None? && forall i :: 0 <= i < |items| ==> SourcesExact(items[i], ok)
    case KObject(entries) => n.source.None? && forall i :: 0 <= i < |entries| ==> SourcesExact(entries[i].value, ok)
    case _ => n.source.Some? && Parse(n.source.value, ok) == Ok(n, [])
  }

  lemma PrimitiveReparses(t: Tree, ok: string -> bool)
    requires Valid(t, ok) && !t.TArray? && !t.TObject?
    ensures Parse(Text(t), ok) == Ok(NodeOf(t, ok), [])
  {
    assert "" + (Text(t) + "") == Text(t);
    TextComplete("", t, "", ok);
  }

  lemma {:induction false} TreeSources(t: Tree, ok: string -> bool)
    requires Valid(t, ok)
    ensures SourcesExact(NodeOf(t, ok), ok)
    decreases t, 1
  {
    hide Parse, Text;
    match t
    case TArray(_, elems) => ElementSources(elems, ok);
    case TObject(_, members) => MemberSources(members, ok);
    case _ => PrimitiveReparses(t, ok);
  }

  lemma {:induction false} ElementSources(es: seq<Element>, ok: string -> bool)
    requires ValidElements(es, ok)
    ensures forall i :: 0 <= i < |NodesOf(es, ok)| ==> SourcesExact(NodesOf(es, ok)[i], ok)
    decreases es, 0
  {
    hide Parse, SourcesExact, NodeOf, Valid;
    if es != [] {
      TreeSources(es[0].value, ok);
      ElementSources(es[1..], ok);
    }
  }

  lemma {:induction false} MemberSources(ms: seq<Member>, ok: string -> bool)
    requires ValidMembers(ms, ok)
    ensures forall i :: 0 <= i < |EntriesOf(ms, ok)| ==> SourcesExact(EntriesOf(ms, ok)[i].value, ok)
    decreases ms, 0
  {
    hide Parse, SourcesExact, NodeOf, Valid;
    if ms != [] {
      TreeSources(ms[0].value, ok);
      MemberSources(ms[1..], ok);
    }
  }

  /** The source slices of whatever the parser returns are exact. */
  lemma ParsedSources(text: string, ok: string -> bool)
    requires Parse(text, ok).Ok?
    ensures SourcesExact(Parse(text, ok).value, ok)
  {
    hide Parse, SourcesExact, Text, Valid, NodeOf;
    var before, t, after := ParseSound(text, ok);
    DerivesValid(text, before, t, after, ok);
    TreeSources(t, ok);
  }

  lemma DerivesValid(text: string, before: string, t: Tree, after: string, ok: string -> bool)
    requires Derives(text, before, t, after, ok)
    ensures Valid(t, ok)
  {
  }
}
