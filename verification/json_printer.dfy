/** `JSON.stringify` on values without hooks: what is appended to the output. */
module JsonPrint {
  import opened Utf16
  import opened JsonGrammar

  /** A value as the printer sees it.  `JOmitted` is undefined, a function or a
      symbol; `JNonFinite` an infinity or NaN. */
  datatype Js =
    | JNull
    | JBool(b: bool)
    | JNumber(n: Number)
    | JNonFinite
    | JString(units: seq<Unit>)
    | JArray(items: seq<Js>)
    | JObject(props: seq<Prop>)
    | JOmitted

  datatype Prop = Prop(key: seq<Unit>, value: Js)

  // ---- Strings ----

  function LowerHex(d: nat): char
    requires d < 16
  {
    if d < 10 then (d + '0' as int) as char else (d - 10 + 'a' as int) as char
  }

  /** Four lower-case hexadecimal digits. */
  function HexText(u: Unit): string {
    [LowerHex(u / 4096), LowerHex(u / 256 % 16), LowerHex(u / 16 % 16), LowerHex(u % 16)]
  }

  predicate NeedsHex(u: Unit) {
    u <= 0x1F || 0x7F <= u <= 0x9F || IsSurrogate(u)
  }

  function EscapeUnit(u: Unit): seq<Unit> {
    if u == 0x22 then Encode("\\\"")
    else if u == 0x5C then Encode("\\\\")
    else if u == 0x08 then Encode("\\b")
    else if u == 0x0C then Encode("\\f")
    else if u == 0x0A then Encode("\\n")
    else if u == 0x0D then Encode("\\r")
    else if u == 0x09 then Encode("\\t")
    else if NeedsHex(u) then Encode("\\u" + HexText(u))
    else [u]
  }

  function QuoteBody(us: seq<Unit>): seq<Unit> {
    if us == [] then []
    else if IsHigh(us[0]) && |us| >= 2 && IsLow(us[1]) then [us[0], us[1]] + QuoteBody(us[2..])
    else EscapeUnit(us[0]) + QuoteBody(us[1..])
  }

  function Quote(us: seq<Unit>): seq<Unit> {
    [0x22] + (QuoteBody(us) + [0x22])
  }

  // ---- Indentation ----

  function Repeat(gap: seq<Unit>, n: nat): seq<Unit> {
    if n == 0 then [] else gap + Repeat(gap, n - 1)
  }

  /** Line break and indentation, or nothing when there is no gap. */
  function Indent(gap: seq<Unit>, n: nat): seq<Unit> {
    if gap == [] then [] else [0x0A] + Repeat(gap, n)
  }

  function Colon(gap: seq<Unit>): seq<Unit> {
    if gap == [] then [0x3A] else [0x3A, 0x20]
  }

  function Comma(first: bool): seq<Unit> {
    if first then [] else [0x2C]
  }

  // ---- Values ----

  function PrintValue(v: Js, gap: seq<Unit>, level: nat): seq<Unit>
    decreases v, 1
  {
    match v
    case JNull => Encode("null")
    case JBool(b) => Encode(if b then "true" else "false")
    case JNumber(n) => Encode(NumberText(n))
    case JNonFinite => Encode("null")
    case JString(us) => Quote(us)
    case JArray(items) =>
      [0x5B] + PrintItems(items, gap, level, true) + (if items == [] then [] else Indent(gap, level)) + [0x5D]
    case JObject(props) =>
      [0x7B] + PrintProps(props, gap, level, true) + (if AllOmitted(props) then [] else Indent(gap, level)) + [0x7D]
    case JOmitted => []
  }

  function PrintItems(items: seq<Js>, gap: seq<Unit>, level: nat, first: bool): seq<Unit>
    decreases items, 0
  {
    if items == [] then []
    else
      Comma(first) + (Indent(gap, level + 1) +
      ((if items[0].JOmitted? then Encode("null") else PrintValue(items[0], gap, level + 1)) +
       PrintItems(items[1..], gap, level, false)))
  }

  predicate AllOmitted(props: seq<Prop>) {
    forall i :: 0 <= i < |props| ==> props[i].value.JOmitted?
  }

  function PrintProps(props: seq<Prop>, gap: seq<Unit>, level: nat, first: bool): seq<Unit>
    decreases props, 0
  {
    if props == [] then []
    else if props[0].value.JOmitted? then PrintProps(props[1..], gap, level, first)
    else
      Comma(first) + (Indent(gap, level + 1) + (Quote(props[0].key) + (Colon(gap) +
      (PrintValue(props[0].value, gap, level + 1) + PrintProps(props[1..], gap, level, false)))))
  }
}

/** The printer with its output buffer. */
module JsonPrinterObject {
  import opened Utf16
  import opened JsonGrammar
  import opened JsonPrint

  function PropText(p: Prop, gap: seq<Unit>, level: nat, first: bool): seq<Unit> {
    Comma(first) + Indent(gap, level + 1) + Quote(p.key) + Colon(gap) + PrintValue(p.value, gap, level + 1)
  }

  lemma Bracketed(out: seq<Unit>, open: Unit, body: seq<Unit>, end: seq<Unit>, close: Unit)
    ensures ((out + [open]) + body) + end + [close] == out + ([open] + body + end + [close])
  {
  }

  function ArrayItemText(item: Js, gap: seq<Unit>, level: nat, first: bool): seq<Unit> {
    Comma(first) + Indent(gap, level + 1) +
    (if item.JOmitted? then Encode("null") else PrintValue(item, gap, level + 1))
  }

  lemma ItemsStep(items: seq<Js>, gap: seq<Unit>, level: nat, first: bool, out: seq<Unit>)
    requires items != []
    ensures (out + ArrayItemText(items[0], gap, level, first)) + PrintItems(items[1..], gap, level, false)
            == out + PrintItems(items, gap, level, first)
  {
    hide Indent, PrintValue, Comma, Encode;
  }

  lemma NoItems(gap: seq<Unit>, level: nat, first: bool)
    ensures PrintItems([], gap, level, first) == []
  {
  }

  lemma PropsStep(props: seq<Prop>, gap: seq<Unit>, level: nat, first: bool, out: seq<Unit>)
    requires props != [] && !props[0].value.JOmitted?
    ensures (out + PropText(props[0], gap, level, first)) + PrintProps(props[1..], gap, level, false)
            == out + PrintProps(props, gap, level, first)
  {
    hide Indent, Quote, Colon, PrintValue, Comma;
  }

  lemma OmittedStep(props: seq<Prop>, gap: seq<Unit>, level: nat, first: bool)
    ensures props == [] ==> PrintProps(props, gap, level, first) == []
    ensures props != [] && props[0].value.JOmitted? ==>
              PrintProps(props[1..], gap, level, first) == PrintProps(props, gap, level, first)
  {
    hide Indent, Quote, Colon, PrintValue, Comma;
  }

  class Printer {
    const gap: seq<Unit>
    var out: seq<Unit>

    constructor (gap: seq<Unit>)
      ensures this.gap == gap && out == []
    {
      this.gap, out := gap, [];
    }

    method Push(text: string)
      modifies this
      ensures out == old(out) + Encode(text)
    {
      out := out + Encode(text);
    }

    method PushIndent(n: nat)
      modifies this
      ensures out == old(out) + Indent(gap, n)
    {
      if gap == [] {
        return;
      }
      out := out + [0x0A];
      ghost var before := out;
      var k := n;
      while k > 0
        invariant 0 <= k <= n
        invariant out + Repeat(gap, k) == before + Repeat(gap, n)
      {
        assert (out + gap) + Repeat(gap, k - 1) == out + Repeat(gap, k);
        out := out + gap;
        k := k - 1;
      }
      assert old(out) + [0x0A] + Repeat(gap, n) == old(out) + Indent(gap, n);
    }

    method PushQuoted(us: seq<Unit>)
      modifies this
      ensures out == old(out) + Quote(us)
    {
      hide EscapeUnit;
      out := out + [0x22];
      ghost var before := out;
      var i := 0;
      assert us[0..] == us;
      while i < |us|
        invariant 0 <= i <= |us|
        invariant out + QuoteBody(us[i..]) == before + QuoteBody(us)
      {
        var u := us[i];
        ghost var rest := us[i..];
        if IsHigh(u) && i + 1 < |us| && IsLow(us[i + 1]) {
          assert rest[2..] == us[i + 2..];
          assert (out + [u, us[i + 1]]) + QuoteBody(rest[2..]) == out + QuoteBody(rest);
          out := out + [u, us[i + 1]];
          i := i + 2;
        } else {
          assert rest[1..] == us[i + 1..];
          assert (out + EscapeUnit(u)) + QuoteBody(rest[1..]) == out + QuoteBody(rest);
          out := out + EscapeUnit(u);
          i := i + 1;
        }
      }
      assert us[i..] == [];
      assert before + QuoteBody(us) + [0x22] == old(out) + Quote(us);
      out := out + [0x22];
    }

    method PrintJs(v: Js, level: nat)
      modifies this
      ensures out == old(out) + PrintValue(v, gap, level)
      decreases v, 1
    {
      match v
      case JNull => Push("null");
      case JBool(b) => Push(if b then "true" else "false");
      case JNumber(n) => Push(NumberText(n));
      case JNonFinite => Push("null");
      case JString(us) => PushQuoted(us);
      case JArray(items) => PrintArray(v, level);
      case JObject(props) => PrintObject(v, level);
      case JOmitted =>
    }

    method PrintArray(v: Js, level: nat)
      requires v.JArray?
      modifies this
      ensures out == old(out) + PrintValue(v, gap, level)
      decreases v, 0
    {
      hide Indent, PrintItems, ArrayItemText;
      var items := v.items;
      out := out + [0x5B];
      ghost var before := out;
      ghost var total := PrintItems(items, gap, level, true);
      var i := 0;
      assert items[0..] == items;
      while i < |items|
        invariant 0 <= i <= |items|
        invariant out + PrintItems(items[i..], gap, level, i == 0) == before + total
      {
        ItemsStep(items[i..], gap, level, i == 0, out);
        assert items[i..][1..] == items[i + 1..];
        PrintItem(items[i], level, i == 0);
        i := i + 1;
      }
      assert items[i..] == [] && PrintItems([], gap, level, i == 0) == [] by {
        NoItems(gap, level, i == 0);
      }
      assert out == before + total;
      if items != [] {
        PushIndent(level);
      }
      Bracketed(old(out), 0x5B, total, if items == [] then [] else Indent(gap, level), 0x5D);
      out := out + [0x5D];
    }

    method PrintItem(item: Js, level: nat, first: bool)
      modifies this
      ensures out == old(out) + ArrayItemText(item, gap, level, first)
      decreases item, 2
    {
      hide Indent, PrintValue, Encode;
      if !first {
        out := out + [0x2C];
      }
      PushIndent(level + 1);
      if item.JOmitted? {
        Push("null");
      } else {
        PrintJs(item, level + 1);
      }
    }

    method PrintObject(v: Js, level: nat)
      requires v.JObject?
      modifies this
      ensures out == old(out) + PrintValue(v, gap, level)
      decreases v, 0
    {
      hide Indent, Quote, Colon, PrintProps, PropText;
      var props := v.props;
      out := out + [0x7B];
      ghost var before := out;
      ghost var total := PrintProps(props, gap, level, true);
      var i := 0;
      var first := true;
      assert props[0..] == props;
      while i < |props|
        invariant 0 <= i <= |props|
        invariant first <==> AllOmitted(props[..i])
        invariant out + PrintProps(props[i..], gap, level, first) == before + total
      {
        ghost var start := out;
        assert props[i..][1..] == props[i + 1..];
        assert props[..i + 1] == props[..i] + [props[i]];
        var p := props[i];
        OmittedStep(props[i..], gap, level, first);
        if !p.value.JOmitted? {
          PrintProp(p, level, first);
          PropsStep(props[i..], gap, level, first, start);
          first := false;
        }
        i := i + 1;
      }
      assert props[i..] == [] && props[..i] == props;
      OmittedStep(props[i..], gap, level, first);
      assert out == before + total;
      if !first {
        PushIndent(level);
      }
      Bracketed(old(out), 0x7B, total, if first then [] else Indent(gap, level), 0x7D);
      out := out + [0x7D];
    }

    method PrintProp(p: Prop, level: nat, first: bool)
      modifies this
      ensures out == old(out) + PropText(p, gap, level, first)
      decreases p, 0
    {
      hide Indent, Quote, Colon, PrintValue;
      if !first {
        out := out + [0x2C];
      }
      PushIndent(level + 1);
      PushQuoted(p.key);
      out := out + Colon(gap);
      PrintJs(p.value, level + 1);
    }
  }
}
