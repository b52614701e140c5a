/** UTF-16: strings as sequences of Unicode scalar values and as code units. */
module Utf16 {

  type Unit = u: nat | u < 0x1_0000

  predicate IsHigh(u: nat) { 0xD800 <= u <= 0xDBFF }

  predicate IsLow(u: nat) { 0xDC00 <= u <= 0xDFFF }

  predicate IsSurrogate(u: nat) { 0xD800 <= u <= 0xDFFF }

  function EncodeChar(c: char): (r: seq<Unit>)
    ensures 1 <= |r| <= 2
  {
    var n := c as int;
    if n < 0x1_0000 then [n] else [0xD800 + (n - 0x1_0000) / 0x400, 0xDC00 + (n - 0x1_0000) % 0x400]
  }

  function Encode(s: string): seq<Unit> {
    if s == [] then [] else EncodeChar(s[0]) + Encode(s[1..])
  }

  /** No surrogate without its partner. */
  predicate WellFormed(us: seq<Unit>) {
    us == [] ||
    (if IsHigh(us[0]) then |us| >= 2 && IsLow(us[1]) && WellFormed(us[2..])
     else !IsLow(us[0]) && WellFormed(us[1..]))
  }

  function Join(hi: Unit, lo: Unit): char
    requires IsHigh(hi) && IsLow(lo)
  {
    (0x1_0000 + (hi - 0xD800) * 0x400 + (lo - 0xDC00)) as char
  }

  /** Decoding; a lone surrogate becomes the replacement character. */
  function Decode(us: seq<Unit>): string {
    if us == [] then []
    else if IsHigh(us[0]) && |us| >= 2 && IsLow(us[1]) then [Join(us[0], us[1])] + Decode(us[2..])
    else if IsSurrogate(us[0]) then ['\U{FFFD}'] + Decode(us[1..])
    else [us[0] as char] + Decode(us[1..])
  }

  lemma SplitJoin(c: char)
    requires c as int >= 0x1_0000
    ensures var e := EncodeChar(c); IsHigh(e[0]) && IsLow(e[1]) && Join(e[0], e[1]) == c
  {
  }

  lemma JoinSplit(hi: Unit, lo: Unit)
    requires IsHigh(hi) && IsLow(lo)
    ensures EncodeChar(Join(hi, lo)) == [hi, lo]
  {
    var n := (hi - 0xD800) * 0x400 + (lo - 0xDC00);
    assert n / 0x400 == hi - 0xD800 && n % 0x400 == lo - 0xDC00;
  }

  lemma LoneHigh()
    ensures !WellFormed([0xD800])
  {
  }

  lemma {:induction false} DecodeEncode(s: string)
    ensures WellFormed(Encode(s)) && Decode(Encode(s)) == s
  {
    if s != [] {
      var c, e := s[0], EncodeChar(s[0]);
      DecodeEncode(s[1..]);
      if c as int < 0x1_0000 {
        assert Encode(s)[1..] == Encode(s[1..]);
      } else {
        SplitJoin(c);
        assert Encode(s)[0] == e[0] && Encode(s)[1] == e[1];
        assert Encode(s)[2..] == Encode(s[1..]);
      }
    }
  }

  lemma {:induction false} EncodeConcat(a: string, b: string)
    ensures Encode(a + b) == Encode(a) + Encode(b)
  {
    if a == [] {
      assert a + b == b;
    } else {
      assert (a + b)[1..] == a[1..] + b;
      EncodeConcat(a[1..], b);
    }
  }

  /** Well-formed sequences can be put together. */
  lemma {:induction false} WellFormedConcat(a: seq<Unit>, b: seq<Unit>)
    requires WellFormed(a) && WellFormed(b)
    ensures WellFormed(a + b)
  {
    if a == [] {
      assert a + b == b;
    } else if IsHigh(a[0]) {
      assert (a + b)[2..] == a[2..] + b;
      WellFormedConcat(a[2..], b);
    } else {
      assert (a + b)[1..] == a[1..] + b;
      WellFormedConcat(a[1..], b);
    }
  }
}

/** The grammar of RFC 8259 (sections 2 to 7) as derivation trees: a tree keeps
    every choice a text makes (whitespace, escapes, digits), `Text` reads the
    text off the tree, and a text is in the language when it is the text of a
    valid tree.  `NodeOf` is the value the tree stands for. */
module JsonGrammar {
  import opened Basics
  import opened Utf16

  // ---- Whitespace and digits ----

  predicate IsWs(c: char) { c == ' ' || c == '\t' || c == '\n' || c == '\r' }

  predicate AllWs(s: string) { forall i :: 0 <= i < |s| ==> IsWs(s[i]) }

  predicate AllDigits(s: string) { forall i :: 0 <= i < |s| ==> IsDigit(s[i]) }

  predicate Digits(s: string) { s != [] && AllDigits(s) }

  predicate IsHexDigit(c: char) { IsDigit(c) || 'a' <= c <= 'f' || 'A' <= c <= 'F' }

  function HexDigit(c: char): (r: nat)
    requires IsHexDigit(c)
    ensures r < 16
  {
    if IsDigit(c) then c as int - '0' as int
    else if 'a' <= c <= 'f' then c as int - 'a' as int + 10
    else c as int - 'A' as int + 10
  }

  predicate IsHex4(d: string) {
    |d| == 4 && IsHexDigit(d[0]) && IsHexDigit(d[1]) && IsHexDigit(d[2]) && IsHexDigit(d[3])
  }

  function HexValue(d: string): (r: Unit)
    requires IsHex4(d)
  {
    ((HexDigit(d[0]) * 16 + HexDigit(d[1])) * 16 + HexDigit(d[2])) * 16 + HexDigit(d[3])
  }

  // ---- Numbers (section 6) ----

  datatype Exponent = Exponent(e: char, sign: Option<char>, digits: string)

  datatype Number = Number(minus: bool, whole: string, frac: Option<string>, exp: Option<Exponent>)

  predicate ValidInt(s: string) {
    s == "0" || (Digits(s) && s[0] != '0')
  }

  predicate ValidNumber(n: Number) {
    && ValidInt(n.whole)
    && (n.frac.Some? ==> Digits(n.frac.value))
    && (n.exp.Some? ==>
        && (n.exp.value.e == 'e' || n.exp.value.e == 'E')
        && (n.exp.value.sign.Some? ==> n.exp.value.sign.value == '+' || n.exp.value.sign.value == '-')
        && Digits(n.exp.value.digits))
  }

  function FracText(f: Option<string>): string {
    if f.Some? then "." + f.value else ""
  }

  function ExpText(x: Option<Exponent>): string {
    if x.Some? then [x.value.e] + (if x.value.sign.Some? then [x.value.sign.value] else []) + x.value.digits else ""
  }

  function NumberText(n: Number): string {
    (if n.minus then "-" else "") + (n.whole + (FracText(n.frac) + ExpText(n.exp)))
  }

  // ---- Strings (section 7) ----

  /** One character of a string, with its spelling.  A surrogate can only be
      escaped as part of a pair. */
  datatype StrItem =
    | Plain(c: char)
    | Escape(e: char)
    | Hex(d: string)
    | HexPair(hi: string, lo: string)

  predicate IsEscape(e: char) {
    e in {'"', '\\', '/', 'b', 'f', 'n', 'r', 't'}
  }

  function EscapeValue(e: char): (r: Unit)
    requires IsEscape(e)
  {
    if e == '"' then 0x22
    else if e == '\\' then 0x5C
    else if e == '/' then 0x2F
    else if e == 'b' then 0x08
    else if e == 'f' then 0x0C
    else if e == 'n' then 0x0A
    else if e == 'r' then 0x0D
    else 0x09
  }

  /** The digits and the escapes of section 7, listed. */
  lemma EscapesListed(c: char, e: char)
    requires IsHexDigit(c) && IsEscape(e)
    ensures c == "0123456789abcdef"[HexDigit(c)] || c == "0123456789ABCDEF"[HexDigit(c)]
    ensures (e, EscapeValue(e)) in [('"', 0x22), ('\\', 0x5C), ('/', 0x2F), ('b', 0x08), ('f', 0x0C), ('n', 0x0A),
                                    ('r', 0x0D), ('t', 0x09)]
  {
  }

  predicate ValidItem(it: StrItem) {
    match it
    case Plain(c) => c != '"' && c != '\\' && c as int > 0x1F
    case Escape(e) => IsEscape(e)
    case Hex(d) => IsHex4(d) && !IsSurrogate(HexValue(d))
    case HexPair(hi, lo) => IsHex4(hi) && IsHex4(lo) && IsHigh(HexValue(hi)) && IsLow(HexValue(lo))
  }

  predicate ValidItems(items: seq<StrItem>) {
    forall i :: 0 <= i < |items| ==> ValidItem(items[i])
  }

  function ItemText(it: StrItem): string {
    match it
    case Plain(c) => [c]
    case Escape(e) => ['\\', e]
    case Hex(d) => "\\u" + d
    case HexPair(hi, lo) => "\\u" + hi + "\\u" + lo
  }

  function ItemsText(items: seq<StrItem>): string {
    if items == [] then "" else ItemText(items[0]) + ItemsText(items[1..])
  }

  /** The code units the engine stores for one item: a pair of escapes is kept in
      the low 16 bits of its scalar value. */
  function ItemUnits(it: StrItem): seq<Unit>
    requires ValidItem(it)
  {
    match it
    case Plain(c) => EncodeChar(c)
    case Escape(e) => [EscapeValue(e)]
    case Hex(d) => [HexValue(d)]
    case HexPair(hi, lo) => [PairValue(HexValue(hi), HexValue(lo)) % 0x1_0000]
  }

  function PairValue(hi: Unit, lo: Unit): nat
    requires IsHigh(hi) && IsLow(lo)
  {
    0x1_0000 + (hi - 0xD800) * 0x400 + (lo - 0xDC00)
  }

  function ItemsUnits(items: seq<StrItem>): seq<Unit>
    requires ValidItems(items)
  {
    if items == [] then [] else ItemUnits(items[0]) + ItemsUnits(items[1..])
  }

  /** The code units RFC 8259 gives the item (section 7: a pair of escapes is a
      UTF-16 surrogate pair). */
  function RfcUnits(items: seq<StrItem>): seq<Unit>
    requires ValidItems(items)
  {
    if items == [] then []
    else
      (match items[0]
       case HexPair(hi, lo) => [HexValue(hi), HexValue(lo)]
       case _ => ItemUnits(items[0])) + RfcUnits(items[1..])
  }

  predicate NoEscapedPair(items: seq<StrItem>) {
    forall i :: 0 <= i < |items| ==> !items[i].HexPair?
  }

  // ---- Values (sections 2 to 5) ----

  datatype Tree =
    | TNull
    | TTrue
    | TFalse
    | TNumber(n: Number)
    | TString(items: seq<StrItem>)
    | TArray(blank: string, elems: seq<Element>)
    | TObject(blank: string, members: seq<Member>)

  datatype Element = Element(before: string, value: Tree, after: string)

  datatype Member =
    Member(before: string, key: seq<StrItem>, mid: string, pre: string, value: Tree, after: string)

  function StringText(items: seq<StrItem>): string {
    ['"'] + (ItemsText(items) + ['"'])
  }

  function Text(t: Tree): string
    decreases t, 1
  {
    match t
    case TNull => "null"
    case TTrue => "true"
    case TFalse => "false"
    case TNumber(n) => NumberText(n)
    case TString(items) => StringText(items)
    case TArray(blank, elems) => ['['] + (if elems == [] then blank + [']'] else ElementsText(elems))
    case TObject(blank, members) => ['{'] + (if members == [] then blank + ['}'] else MembersText(members))
  }

  /** The elements with their commas and the closing bracket. */
  function ElementsText(es: seq<Element>): string
    decreases es, 0
  {
    if es == [] then [']']
    else
      es[0].before + (Text(es[0].value) + (es[0].after +
      (if |es| == 1 then [']'] else [','] + ElementsText(es[1..]))))
  }

  function MembersText(ms: seq<Member>): string
    decreases ms, 0
  {
    if ms == [] then ['}']
    else
      ms[0].before + (StringText(ms[0].key) + (ms[0].mid + ([':'] + (ms[0].pre + (Text(ms[0].value) + (ms[0].after +
      (if |ms| == 1 then ['}'] else [','] + MembersText(ms[1..]))))))))
  }

  /** `ok` says which number tokens are finite doubles; strings must decode to
      well-formed UTF-16. */
  predicate Valid(t: Tree, ok: string -> bool)
    decreases t, 1
  {
    match t
    case TNull => true
    case TTrue => true
    case TFalse => true
    case TNumber(n) => ValidNumber(n) && ok(NumberText(n))
    case TString(items) => ValidItems(items) && WellFormed(ItemsUnits(items))
    case TArray(blank, elems) => AllWs(blank) && ValidElements(elems, ok)
    case TObject(blank, members) => AllWs(blank) && ValidMembers(members, ok)
  }

  predicate ValidElements(es: seq<Element>, ok: string -> bool)
    decreases es, 0
  {
    es == [] ||
    (AllWs(es[0].before) && Valid(es[0].value, ok) && AllWs(es[0].after) && ValidElements(es[1..], ok))
  }

  predicate ValidMembers(ms: seq<Member>, ok: string -> bool)
    decreases ms, 0
  {
    ms == [] ||
    (&& AllWs(ms[0].before) && ValidItems(ms[0].key) && WellFormed(ItemsUnits(ms[0].key))
     && AllWs(ms[0].mid) && AllWs(ms[0].pre) && Valid(ms[0].value, ok) && AllWs(ms[0].after)
     && ValidMembers(ms[1..], ok))
  }

  function Max(a: nat, b: nat): nat { if a < b then b else a }

  /** How deep arrays and objects nest. */
  function Depth(t: Tree): nat
    decreases t, 1
  {
    match t
    case TArray(_, elems) => 1 + ElementsDepth(elems)
    case TObject(_, members) => 1 + MembersDepth(members)
    case _ => 0
  }

  function ElementsDepth(es: seq<Element>): nat
    decreases es, 0
  {
    if es == [] then 0 else Max(Depth(es[0].value), ElementsDepth(es[1..]))
  }

  function MembersDepth(ms: seq<Member>): nat
    decreases ms, 0
  {
    if ms == [] then 0 else Max(Depth(ms[0].value), MembersDepth(ms[1..]))
  }

  // ---- Parsed values ----

  /** A parsed value with, for primitives, the exact source text. */
  datatype Node = Node(kind: Kind, source: Option<string>)

  /** A number is kept as its token: its double is not part of the model. */
  datatype Kind =
    | KNull
    | KBool(b: bool)
    | KNumber(token: string)
    | KString(units: seq<Unit>)
    | KArray(items: seq<Node>)
    | KObject(entries: seq<Entry>)

  datatype Entry = Entry(key: seq<Unit>, value: Node)

  function NodeOf(t: Tree, ok: string -> bool): Node
    requires Valid(t, ok)
    decreases t, 1
  {
    match t
    case TNull => Node(KNull, Some(Text(t)))
    case TTrue => Node(KBool(true), Some(Text(t)))
    case TFalse => Node(KBool(false), Some(Text(t)))
    case TNumber(n) => Node(KNumber(NumberText(n)), Some(Text(t)))
    case TString(items) => Node(KString(ItemsUnits(items)), Some(Text(t)))
    case TArray(_, elems) => Node(KArray(NodesOf(elems, ok)), None)
    case TObject(_, members) => Node(KObject(EntriesOf(members, ok)), None)
  }

  function NodesOf(es: seq<Element>, ok: string -> bool): seq<Node>
    requires ValidElements(es, ok)
    decreases es, 0
  {
    if es == [] then [] else [NodeOf(es[0].value, ok)] + NodesOf(es[1..], ok)
  }

  function EntriesOf(ms: seq<Member>, ok: string -> bool): seq<Entry>
    requires ValidMembers(ms, ok)
    decreases ms, 0
  {
    if ms == [] then []
    else [Entry(ItemsUnits(ms[0].key), NodeOf(ms[0].value, ok))] + EntriesOf(ms[1..], ok)
  }

  // ---- Escaped surrogate pairs ----

  /** The stored units are those of RFC 8259 exactly when the string has no
      escaped surrogate pair: each such pair loses one code unit. */
  lemma PairsAreTheOnlyLoss(items: seq<StrItem>)
    requires ValidItems(items)
    ensures ItemsUnits(items) == RfcUnits(items) <==> NoEscapedPair(items)
  {
    UnitCounts(items);
    if NoEscapedPair(items) {
      NoPairNoLoss(items);
    } else {
      var i :| 0 <= i < |items| && items[i].HexPair?;
      PairCounted(items, i);
    }
  }

  function Pairs(items: seq<StrItem>): nat {
    if items == [] then 0 else (if items[0].HexPair? then 1 else 0) + Pairs(items[1..])
  }

  lemma {:induction false} UnitCounts(items: seq<StrItem>)
    requires ValidItems(items)
    ensures |RfcUnits(items)| == |ItemsUnits(items)| + Pairs(items)
  {
    if items != [] {
      UnitCounts(items[1..]);
    }
  }

  lemma {:induction false} NoPairNoLoss(items: seq<StrItem>)
    requires ValidItems(items) && NoEscapedPair(items)
    ensures ItemsUnits(items) == RfcUnits(items)
  {
    if items != [] {
      assert !items[0].HexPair?;
      NoPairNoLoss(items[1..]);
    }
  }

  lemma {:induction false} PairCounted(items: seq<StrItem>, i: nat)
    requires i < |items| && items[i].HexPair?
    ensures Pairs(items) > 0
  {
    if i > 0 {
      PairCounted(items[1..], i - 1);
    }
  }

  /** Without escaped pairs a string always decodes to well-formed UTF-16. */
  lemma {:induction false} NoPairWellFormed(items: seq<StrItem>)
    requires ValidItems(items) && NoEscapedPair(items)
    ensures WellFormed(ItemsUnits(items))
  {
    if items != [] {
      NoPairWellFormed(items[1..]);
      var u := ItemUnits(items[0]);
      match items[0] {
        case Plain(c) =>
          if c as int >= 0x1_0000 {
            SplitJoin(c);
            assert u[2..] == [];
          } else {
            assert u[1..] == [];
          }
        case Escape(_) => assert u[1..] == [];
        case Hex(_) => assert u[1..] == [];
        case HexPair(_, _) =>
      }
      assert WellFormed(u);
      WellFormedConcat(u, ItemsUnits(items[1..]));
    }
  }
}
