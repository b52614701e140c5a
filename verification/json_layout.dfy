/** What `JSON.stringify` writes, said without the printer: the layout of a text and
    the spelling of its strings.  There is one such text for every value and gap, and
    it is the one printed. */
module JsonLayout {
  import opened Basics
  import opened Utf16
  import opened JsonGrammar
  import opened JsonPrint
  import opened JsonRoundTrip

  // ---- Spelling ----

  predicate IsShort(e: char) {
    e == '"' || e == '\\' || e == 'b' || e == 'f' || e == 'n' || e == 'r' || e == 't'
  }

  /** The units that have a short escape. */
  predicate HasShort(u: Unit) {
    u == 0x22 || u == 0x5C || u == 0x08 || u == 0x0C || u == 0x0A || u == 0x0D || u == 0x09
  }

  predicate IsControl(u: int) {
    0 <= u <= 0x1F || 0x7F <= u <= 0x9F
  }

  predicate Lower(d: string) {
    forall i :: 0 <= i < |d| ==> IsDigit(d[i]) || 'a' <= d[i] <= 'f'
  }

  /** A character that needs no escape is written as it is; one with a short escape that
      way; other controls, and surrogates, with four lower-case digits. */
  predicate Canonical(it: StrItem) {
    match it
    case Plain(c) => !IsControl(c as int) && c != '"' && c != '\\'
    case Escape(e) => IsShort(e)
    case Hex(d) => IsHex4(d) && Lower(d) && (IsControl(HexValue(d)) || IsSurrogate(HexValue(d))) && !HasShort(HexValue(d))
    case HexPair(_, _) => false
  }

  function Means(it: StrItem): seq<Unit>
    requires Canonical(it)
  {
    match it
    case Plain(c) => EncodeChar(c)
    case Escape(e) => [ShortValue(e)]
    case Hex(d) => [HexValue(d)]
  }

  function ShortValue(e: char): Unit
    requires IsShort(e)
  {
    if e == 'b' then 0x08 else if e == 't' then 0x09 else if e == 'n' then 0x0A
    else if e == 'f' then 0x0C else if e == 'r' then 0x0D
    else if e == '"' then 0x22 else 0x5C
  }

  predicate EscapedHigh(it: StrItem) { it.Hex? && IsHex4(it.d) && IsHigh(HexValue(it.d)) }

  predicate EscapedLow(it: StrItem) { it.Hex? && IsHex4(it.d) && IsLow(HexValue(it.d)) }

  /** A pair is never escaped. */
  predicate CanonicalItems(items: seq<StrItem>) {
    && (forall i :: 0 <= i < |items| ==> Canonical(items[i]))
    && forall i :: 0 <= i < |items| - 1 ==> !(EscapedHigh(items[i]) && EscapedLow(items[i + 1]))
  }

  function MeansAll(items: seq<StrItem>): seq<Unit>
    requires CanonicalItems(items)
  {
    if items == [] then [] else
      CanonicalRest(items);
      Means(items[0]) + MeansAll(items[1..])
  }

  lemma CanonicalRest(items: seq<StrItem>)
    requires items != [] && CanonicalItems(items)
    ensures CanonicalItems(items[1..]) && Canonical(items[0])
  {
    var rest := items[1..];
    assert forall i :: 0 <= i < |rest| ==> rest[i] == items[i + 1];
  }

  // ---- Layout ----

  predicate Copies(s: string, gap: string, k: nat) {
    if k == 0 then s == "" else gap <= s && Copies(s[|gap|..], gap, k - 1)
  }

  /** A new line with k copies of the gap; nothing at all without a gap. */
  predicate Break(s: string, gap: string, k: nat) {
    if gap == "" then s == "" else s != "" && s[0] == '\n' && Copies(s[1..], gap, k)
  }

  /** Every item of a container at depth k is on a line of its own at depth k + 1, the
      closing bracket on one at depth k, and a space follows each colon; without a gap
      there is no white space at all. */
  predicate LaidOut(t: Tree, gap: string, k: nat)
    decreases t, 1
  {
    match t
    case TArray(blank, elems) => (elems == [] ==> blank == "") && ElementsLaidOut(elems, gap, k)
    case TObject(blank, members) => (members == [] ==> blank == "") && MembersLaidOut(members, gap, k)
    case _ => true
  }

  predicate ElementsLaidOut(es: seq<Element>, gap: string, k: nat)
    decreases es, 0
  {
    es == [] ||
    (&& Break(es[0].before, gap, k + 1)
     && LaidOut(es[0].value, gap, k + 1)
     && (if |es| == 1 then Break(es[0].after, gap, k) else es[0].after == "")
     && ElementsLaidOut(es[1..], gap, k))
  }

  predicate MembersLaidOut(ms: seq<Member>, gap: string, k: nat)
    decreases ms, 0
  {
    ms == [] ||
    (&& Break(ms[0].before, gap, k + 1)
     && ms[0].mid == ""
     && ms[0].pre == (if gap == "" then "" else " ")
     && LaidOut(ms[0].value, gap, k + 1)
     && (if |ms| == 1 then Break(ms[0].after, gap, k) else ms[0].after == "")
     && MembersLaidOut(ms[1..], gap, k))
  }

  // ---- What a tree says ----

  predicate SaysString(items: seq<StrItem>, us: seq<Unit>) {
    CanonicalItems(items) && MeansAll(items) == us
  }

  /** The tree says what the value says: what is no JSON is null, and omitted properties
      are left out. */
  predicate Says(t: Tree, v: Js)
    decreases v, 1
  {
    match v
    case JNull => t == TNull
    case JBool(b) => t == if b then TTrue else TFalse
    case JNumber(m) => t.TNumber? && NumberText(t.n) == NumberText(m)
    case JNonFinite => t == TNull
    case JString(us) => t.TString? && SaysString(t.items, us)
    case JArray(items) => t.TArray? && SaysItems(t.elems, items)
    case JObject(props) => t.TObject? && SaysProps(t.members, props)
    case JOmitted => t == TNull
  }

  predicate SaysItems(es: seq<Element>, items: seq<Js>)
    decreases items, 0
  {
    if items == [] then es == []
    else es != [] && Says(es[0].value, items[0]) && SaysItems(es[1..], items[1..])
  }

  predicate SaysProps(ms: seq<Member>, props: seq<Prop>)
    decreases props, 0
  {
    if props == [] then ms == []
    else if props[0].value.JOmitted? then SaysProps(ms, props[1..])
    else
      ms != [] && SaysString(ms[0].key, props[0].key) && Says(ms[0].value, props[0].value) && SaysProps(ms[1..], props[1..])
  }

  // ---- The printed spelling ----

  lemma LowerHexText(u: Unit)
    ensures Lower(HexText(u)) && IsHex4(HexText(u)) && HexValue(HexText(u)) == u
  {
    HexTextValue(u);
  }

  lemma ItemOfCanonical(u: Unit)
    ensures Canonical(ItemOf(u)) && Means(ItemOf(u)) == [u]
    ensures EscapedHigh(ItemOf(u)) <==> IsHigh(u)
    ensures EscapedLow(ItemOf(u)) <==> IsLow(u)
  {
    hide HexText, HexValue, IsHex4, Lower;
    LowerHexText(u);
  }

  lemma PairCanonical(hi: Unit, lo: Unit)
    requires IsHigh(hi) && IsLow(lo)
    ensures Canonical(Plain(Join(hi, lo))) && Means(Plain(Join(hi, lo))) == [hi, lo]
  {
    JoinSplit(hi, lo);
  }

  lemma {:induction false} ItemsOfCanonical(us: seq<Unit>)
    ensures SaysString(ItemsOf(us), us)
    ensures us != [] ==> ItemsOf(us) != [] && (EscapedLow(ItemsOf(us)[0]) ==> IsLow(us[0]))
  {
    hide Canonical, Means, ItemOf, EscapedHigh, EscapedLow;
    if us != [] {
      if IsHigh(us[0]) && |us| >= 2 && IsLow(us[1]) {
        var it := Plain(Join(us[0], us[1]));
        ItemsOfCanonical(us[2..]);
        PairCanonical(us[0], us[1]);
        PlainIsNotEscaped(Join(us[0], us[1]));
        ConsCanonical(it, ItemsOf(us[2..]));
        assert us == [us[0], us[1]] + us[2..];
      } else {
        ItemsOfCanonical(us[1..]);
        ItemOfCanonical(us[0]);
        ConsCanonical(ItemOf(us[0]), ItemsOf(us[1..]));
        assert us == [us[0]] + us[1..];
      }
    }
  }

  lemma PlainIsNotEscaped(c: char)
    ensures !EscapedHigh(Plain(c)) && !EscapedLow(Plain(c))
  {
  }

  lemma ConsCanonical(it: StrItem, items: seq<StrItem>)
    requires Canonical(it) && CanonicalItems(items)
    requires items != [] ==> !(EscapedHigh(it) && EscapedLow(items[0]))
    ensures CanonicalItems([it] + items) && MeansAll([it] + items) == Means(it) + MeansAll(items)
  {
    hide Canonical, Means, EscapedHigh, EscapedLow;
    var all := [it] + items;
    assert all[1..] == items;
    assert forall i :: 1 <= i < |all| ==> all[i] == items[i - 1];
  }

  lemma LowerHexBack(c: char)
    requires IsHexDigit(c) && (IsDigit(c) || 'a' <= c <= 'f')
    ensures LowerHex(HexDigit(c)) == c
  {
  }

  lemma HexTextBack(d: string)
    requires IsHex4(d) && Lower(d)
    ensures HexText(HexValue(d)) == d
  {
    hide LowerHex, HexDigit;
    LowerHexBack(d[0]);
    LowerHexBack(d[1]);
    LowerHexBack(d[2]);
    LowerHexBack(d[3]);
    FourHex(HexDigit(d[0]), HexDigit(d[1]), HexDigit(d[2]), HexDigit(d[3]));
  }

  lemma FourHex(a: nat, b: nat, c: nat, d: nat)
    requires a < 16 && b < 16 && c < 16 && d < 16
    ensures
      var u := ((a * 16 + b) * 16 + c) * 16 + d;
      u / 4096 == a && u / 256 % 16 == b && u / 16 % 16 == c && u % 16 == d
  {
  }

  lemma CanonicalIsItemOf(it: StrItem)
    requires Canonical(it) && |Means(it)| == 1
    ensures it == ItemOf(Means(it)[0])
  {
    hide HexText, HexValue, IsHex4, Lower;
    if it.Hex? {
      HexTextBack(it.d);
    }
  }

  /** There is one canonical spelling of a string, the printed one. */
  lemma {:induction false} SpellingUnique(items: seq<StrItem>, us: seq<Unit>)
    requires SaysString(items, us)
    ensures items == ItemsOf(us)
    decreases |items|
  {
    hide ItemOf, Canonical, Means, EscapedHigh, EscapedLow;
    if items != [] {
      CanonicalRest(items);
      var it, rest, tail := items[0], items[1..], MeansAll(items[1..]);
      SpellingUnique(rest, tail);
      FirstMeans(it);
      if |Means(it)| == 2 {
        assert us[2..] == tail;
        assert items == [it] + rest;
      } else {
        CanonicalIsItemOf(it);
        assert us[1..] == tail;
        if rest != [] {
          CanonicalRest(rest);
          FirstMeans(rest[0]);
          assert us[1] == Means(rest[0])[0] && rest[0] == items[1];
        }
        assert items == [it] + rest;
      }
    }
  }

  lemma FirstMeans(it: StrItem)
    requires Canonical(it)
    ensures 1 <= |Means(it)| <= 2
    ensures |Means(it)| == 2 ==> IsHigh(Means(it)[0]) && IsLow(Means(it)[1]) && it == Plain(Join(Means(it)[0], Means(it)[1]))
    ensures |Means(it)| == 1 ==> (IsHigh(Means(it)[0]) ==> EscapedHigh(it)) && (IsLow(Means(it)[0]) ==> EscapedLow(it))
  {
    if it.Plain? && it.c as int >= 0x1_0000 {
      SplitJoin(it.c);
    }
  }

  // ---- The printed layout ----

  lemma {:induction false} RepeatIsCopies(gap: string, k: nat)
    ensures Copies(RepeatText(gap, k), gap, k)
  {
    if k > 0 {
      RepeatIsCopies(gap, k - 1);
      assert RepeatText(gap, k)[|gap|..] == RepeatText(gap, k - 1);
    }
  }

  lemma {:induction false} CopiesAreRepeat(s: string, gap: string, k: nat)
    requires Copies(s, gap, k)
    ensures s == RepeatText(gap, k)
  {
    if k > 0 {
      CopiesAreRepeat(s[|gap|..], gap, k - 1);
      assert s == gap + s[|gap|..];
    }
  }

  lemma BreakIsIndent(s: string, gap: string, k: nat)
    ensures Break(s, gap, k) <==> s == IndentText(gap, k)
  {
    hide Copies, RepeatText;
    RepeatIsCopies(gap, k);
    if gap != "" {
      if Break(s, gap, k) {
        CopiesAreRepeat(s[1..], gap, k);
        assert s == ['\n'] + s[1..];
      }
      if s == IndentText(gap, k) {
        assert s[1..] == RepeatText(gap, k);
      }
    }
  }

  lemma {:induction false} TreeLaidOut(v: Js, gap: string, k: nat)
    ensures LaidOut(TreeOf(v, gap, k), gap, k) && Says(TreeOf(v, gap, k), v)
    decreases v, 1
  {
    hide ItemsOf, SaysString;
    match v
    case JString(us) => ItemsOfCanonical(us);
    case JArray(items) => ElemsLaidOut(items, gap, k);
    case JObject(props) => MembsLaidOut(props, gap, k);
    case _ =>
  }

  lemma {:induction false} ElemsLaidOut(items: seq<Js>, gap: string, k: nat)
    ensures ElementsLaidOut(ElemsOf(items, gap, k), gap, k) && SaysItems(ElemsOf(items, gap, k), items)
    decreases items, 0
  {
    hide TreeOf, Says, LaidOut, Break, IndentText;
    if items != [] {
      TreeLaidOut(items[0], gap, k + 1);
      ElemsLaidOut(items[1..], gap, k);
      BreakIsIndent(IndentText(gap, k + 1), gap, k + 1);
      BreakIsIndent(IndentText(gap, k), gap, k);
      assert ElemsOf(items, gap, k)[1..] == ElemsOf(items[1..], gap, k);
    }
  }

  lemma {:induction false} MembsLaidOut(props: seq<Prop>, gap: string, k: nat)
    ensures MembersLaidOut(MembersOf(props, gap, k), gap, k) && SaysProps(MembersOf(props, gap, k), props)
    decreases props, 0
  {
    hide TreeOf, Says, LaidOut, Break, IndentText, ItemsOf, SaysString;
    if props != [] {
      MembsLaidOut(props[1..], gap, k);
      if !props[0].value.JOmitted? {
        TreeLaidOut(props[0].value, gap, k + 1);
        ItemsOfCanonical(props[0].key);
        BreakIsIndent(IndentText(gap, k + 1), gap, k + 1);
        BreakIsIndent(IndentText(gap, k), gap, k);
        assert MembersOf(props, gap, k)[1..] == MembersOf(props[1..], gap, k);
      }
    }
  }

  /** A tree so laid out that says the value has the text of the printed one. */
  lemma {:induction false} LayoutUnique(t: Tree, v: Js, gap: string, k: nat)
    requires LaidOut(t, gap, k) && Says(t, v)
    ensures Text(t) == Text(TreeOf(v, gap, k))
    decreases v, 1
  {
    hide ItemsOf, SaysString, NumberText, StringText, ElementsText, MembersText, ElemsOf, MembersOf;
    match v
    case JString(us) => SpellingUnique(t.items, us);
    case JArray(items) =>
      ElementsUnique(t.elems, items, gap, k);
    case JObject(props) =>
      MembersUnique(t.members, props, gap, k);
    case _ =>
  }

  lemma {:induction false} ElementsUnique(es: seq<Element>, items: seq<Js>, gap: string, k: nat)
    requires ElementsLaidOut(es, gap, k) && SaysItems(es, items)
    ensures |es| == |items| && ElementsText(es) == ElementsText(ElemsOf(items, gap, k))
    decreases items, 0
  {
    hide TreeOf, Says, LaidOut, Break, IndentText, Text;
    if items != [] {
      LayoutUnique(es[0].value, items[0], gap, k + 1);
      ElementsUnique(es[1..], items[1..], gap, k);
      BreakIsIndent(es[0].before, gap, k + 1);
      BreakIsIndent(es[0].after, gap, k);
      assert ElemsOf(items, gap, k)[1..] == ElemsOf(items[1..], gap, k);
    }
  }

  lemma {:induction false} MembersUnique(ms: seq<Member>, props: seq<Prop>, gap: string, k: nat)
    requires MembersLaidOut(ms, gap, k) && SaysProps(ms, props)
    ensures |ms| == |MembersOf(props, gap, k)| && MembersText(ms) == MembersText(MembersOf(props, gap, k))
    decreases props, 0
  {
    hide TreeOf, Says, LaidOut, Break, IndentText, Text, ItemsOf, SaysString, StringText;
    if props != [] {
      if props[0].value.JOmitted? {
        MembersUnique(ms, props[1..], gap, k);
      } else {
        LayoutUnique(ms[0].value, props[0].value, gap, k + 1);
        SpellingUnique(ms[0].key, props[0].key);
        MembersUnique(ms[1..], props[1..], gap, k);
        BreakIsIndent(ms[0].before, gap, k + 1);
        BreakIsIndent(ms[0].after, gap, k);
        assert MembersOf(props, gap, k)[1..] == MembersOf(props[1..], gap, k);
      }
    }
  }

  /** For every value and gap, what is printed is the text of every tree laid out so that
      says the value, and there is one. */
  lemma PrintedLayout(v: Js, gap: string)
    requires !v.JOmitted?
    ensures exists t :: LaidOut(t, gap, 0) && Says(t, v)
    ensures forall t :: LaidOut(t, gap, 0) && Says(t, v) ==> PrintValue(v, Encode(gap), 0) == Encode(Text(t))
  {
    hide LaidOut, Says, PrintValue, Encode, Text, TreeOf;
    TreeLaidOut(v, gap, 0);
    PrintIsText(v, gap, 0);
    forall t | LaidOut(t, gap, 0) && Says(t, v)
      ensures PrintValue(v, Encode(gap), 0) == Encode(Text(t))
    {
      LayoutUnique(t, v, gap, 0);
    }
  }
}
