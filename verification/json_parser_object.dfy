/** The parser as the engine runs it: a cursor over the text and a depth counter,
    both moved in place.  Every method computes the function of the same name in
    `JsonParse` on the text from the cursor on, and keeps the cursor in bounds. */
module JsonParserObject {
  import opened Basics
  import opened Utf16
  import opened JsonGrammar
  import opened JsonParse

  datatype Outcome<+T> = Value(value: T) | SyntaxError(msg: string) | Aborted

  /** `r` is what the specification says, and `left` the text it leaves. */
  ghost predicate Agrees<T>(r: Outcome<T>, spec: Parsed<T>, left: string) {
    match spec
    case Ok(v, rest) => r == Value(v) && left == rest
    case Err(m) => r == SyntaxError(m)
    case Abort => r == Aborted
  }

  class JsonParser {
    const text: string
    const ok: string -> bool
    var pos: nat
    var depth: nat

    constructor (text: string, ok: string -> bool)
      ensures this.text == text && this.ok == ok && pos == 0 && depth == 0
    {
      this.text, this.ok, pos, depth := text, ok, 0, 0;
    }

    /** The text from the cursor on. */
    ghost function Left(): string
      reads this
      requires pos <= |text|
    {
      text[pos..]
    }

    predicate At(c: char)
      reads this
      requires pos <= |text|
    {
      pos < |text| && text[pos] == c
    }

    method SkipWs()
      requires pos <= |text|
      modifies this`pos
      ensures old(pos) <= pos <= |text| && Left() == JsonParse.SkipWs(old(Left()))
    {
      while pos < |text| && IsWs(text[pos])
        invariant old(pos) <= pos <= |text|
        invariant JsonParse.SkipWs(Left()) == JsonParse.SkipWs(old(Left()))
      {
        assert Left()[1..] == text[pos + 1..];
        pos := pos + 1;
      }
    }

    method ExpectWord(word: string, kind: Kind) returns (r: Outcome<Node>)
      requires pos <= |text| && word != []
      modifies this`pos
      ensures old(pos) <= pos <= |text|
      ensures Agrees(r, Literal(old(Left()), word, kind), Left())
    {
      if word <= text[pos..] {
        assert Left()[|word|..] == text[pos + |word|..];
        pos := pos + |word|;
        r := Value(Node(kind, Some(word)));
      } else {
        r := SyntaxError("invalid literal");
      }
    }

    method SkipDigits()
      requires pos <= |text|
      modifies this`pos
      ensures old(pos) <= pos <= |text| && Left() == JsonParse.SkipDigits(old(Left()))
    {
      while pos < |text| && IsDigit(text[pos])
        invariant old(pos) <= pos <= |text|
        invariant JsonParse.SkipDigits(Left()) == JsonParse.SkipDigits(old(Left()))
      {
        assert Left()[1..] == text[pos + 1..];
        pos := pos + 1;
      }
    }

    method SkipInt() returns (found: bool)
      requires pos <= |text|
      modifies this`pos
      ensures old(pos) <= pos <= |text|
      ensures found <==> JsonParse.SkipInt(old(Left())).Some?
      ensures found ==> JsonParse.SkipInt(old(Left())) == Some(Left())
    {
      ghost var s := Left();
      found := true;
      if At('0') {
        pos := pos + 1;
        assert s[1..] == Left();
      } else if pos < |text| && '1' <= text[pos] <= '9' {
        SkipDigits();
      } else {
        found := false;
      }
    }

    method SkipFrac() returns (found: bool)
      requires pos <= |text|
      modifies this`pos
      ensures old(pos) <= pos <= |text|
      ensures found <==> JsonParse.SkipFrac(old(Left())).Some?
      ensures found ==> JsonParse.SkipFrac(old(Left())) == Some(Left())
    {
      hide JsonParse.SkipDigits;
      ghost var s := Left();
      found := true;
      if At('.') {
        pos := pos + 1;
        assert s[1..] == Left();
        if pos < |text| && IsDigit(text[pos]) {
          SkipDigits();
        } else {
          found := false;
        }
      }
    }

    method SkipExp() returns (found: bool)
      requires pos <= |text|
      modifies this`pos
      ensures old(pos) <= pos <= |text|
      ensures found <==> JsonParse.SkipExp(old(Left())).Some?
      ensures found ==> JsonParse.SkipExp(old(Left())) == Some(Left())
    {
      hide JsonParse.SkipDigits;
      ghost var s := Left();
      found := true;
      if At('e') || At('E') {
        pos := pos + 1;
        ghost var s1 := Left();
        assert s[1..] == s1;
        if At('+') || At('-') {
          pos := pos + 1;
          assert s1[1..] == Left();
        }
        if pos < |text| && IsDigit(text[pos]) {
          SkipDigits();
        } else {
          found := false;
        }
      }
    }

    method ParseNumber() returns (r: Outcome<Node>)
      requires pos <= |text|
      modifies this`pos
      ensures old(pos) <= pos <= |text|
      ensures Agrees(r, JsonParse.ParseNumber(old(Left()), ok), Left())
    {
      hide JsonParse.SkipInt, JsonParse.SkipFrac, JsonParse.SkipExp;
      ghost var s := Left();
      var start := pos;
      if At('-') {
        pos := pos + 1;
        assert s[1..] == Left();
      }
      var found := SkipInt();
      if found {
        found := SkipFrac();
      }
      if found {
        found := SkipExp();
      }
      if !found {
        return SyntaxError("invalid number");
      }
      var token := text[start..pos];
      assert Slice(s, Left()) == token;
      r := if ok(token) then Value(Node(KNumber(token), Some(token))) else SyntaxError("number out of range");
    }

    method ParseHex4() returns (r: Outcome<Unit>)
      requires pos <= |text|
      modifies this`pos
      ensures old(pos) <= pos <= |text|
      ensures Agrees(r, JsonParse.ParseHex4(old(Left())), Left())
    {
      var v: nat := 0;
      var k := 0;
      while k < 4
        invariant 0 <= k <= 4 && old(pos) <= pos <= |text|
        invariant v < (if k == 0 then 1 else if k == 1 then 16 else if k == 2 then 256 else if k == 3 then 4096 else 0x1_0000)
        invariant HexRun(Left(), k, v) == JsonParse.ParseHex4(old(Left()))
      {
        if pos == |text| {
          return SyntaxError("unexpected end of hex escape");
        }
        if !IsHexDigit(text[pos]) {
          return SyntaxError("invalid hex digit");
        }
        assert Left()[1..] == text[pos + 1..];
        v := v * 16 + HexDigit(text[pos]);
        pos := pos + 1;
        k := k + 1;
      }
      r := Value(v);
    }

    method ParseUnicodeEscape() returns (r: Outcome<nat>)
      requires pos <= |text|
      modifies this`pos
      ensures old(pos) <= pos <= |text|
      ensures Agrees(r, JsonParse.ParseUnicodeEscape(old(Left())), Left())
    {
      hide JsonParse.ParseHex4;
      var h := ParseHex4();
      if h.SyntaxError? {
        return SyntaxError(h.msg);
      }
      if h.Aborted? {
        return Aborted;
      }
      var hi := h.value;
      if IsHigh(hi) {
        ghost var s1 := Left();
        if "\\u" <= text[pos..] {
          pos := pos + 2;
          assert s1[2..] == Left();
          var l := ParseHex4();
          if l.SyntaxError? {
            return SyntaxError(l.msg);
          }
          if l.Aborted? {
            return Aborted;
          }
          if IsLow(l.value) {
            return Value(PairValue(hi, l.value));
          }
          return SyntaxError("invalid surrogate pair");
        }
        return SyntaxError("lone leading surrogate in hex escape");
      }
      if IsLow(hi) {
        return SyntaxError("lone leading surrogate in hex escape");
      }
      r := Value(hi);
    }

    method ParseEscape() returns (r: Outcome<Unit>)
      requires pos <= |text|
      modifies this`pos
      ensures old(pos) <= pos <= |text|
      ensures Agrees(r, JsonParse.ParseEscape(old(Left())), Left())
    {
      hide JsonParse.ParseUnicodeEscape;
      ghost var s := Left();
      if pos == |text| {
        return SyntaxError("unterminated escape");
      }
      var e := text[pos];
      pos := pos + 1;
      assert s[1..] == Left();
      if e == 'u' {
        var u := ParseUnicodeEscape();
        match u
        case SyntaxError(m) => r := SyntaxError(m);
        case Aborted => r := Aborted;
        case Value(v) => r := Value(v % 0x1_0000);
      } else if IsEscape(e) {
        r := Value(EscapeValue(e));
      } else {
        r := SyntaxError("invalid escape");
      }
    }

    method ParseString() returns (r: Outcome<seq<Unit>>)
      requires pos < |text| && text[pos] == '"'
      modifies this`pos
      ensures old(pos) < pos <= |text|
      ensures Agrees(r, ParseStringRest(old(Left())[1..], []), Left())
    {
      hide JsonParse.ParseEscape, WellFormed, EncodeChar;
      ghost var s0 := Left()[1..];
      pos := pos + 1;
      assert s0 == Left();
      var units: seq<Unit> := [];
      while true
        invariant old(pos) < pos <= |text|
        invariant ParseStringRest(Left(), units) == ParseStringRest(s0, [])
        decreases |text| - pos
      {
        if pos == |text| {
          return SyntaxError("unterminated string");
        }
        ghost var s := Left();
        var c := text[pos];
        assert s[1..] == text[pos + 1..];
        if c == '"' {
          pos := pos + 1;
          return if WellFormed(units) then Value(units) else Aborted;
        } else if c == '\\' {
          pos := pos + 1;
          var u := ParseEscape();
          if u.SyntaxError? {
            return SyntaxError(u.msg);
          }
          if u.Aborted? {
            return Aborted;
          }
          units := units + [u.value];
        } else {
          if c as int <= 0x1F {
            return SyntaxError("unescaped control character in string");
          }
          units := units + EncodeChar(c);
          pos := pos + 1;
        }
      }
    }

    method ParseValue() returns (r: Outcome<Node>)
      requires pos <= |text|
      modifies this
      ensures old(pos) <= pos <= |text|
      ensures r.Value? ==> pos > old(pos) && depth == old(depth)
      ensures Agrees(r, JsonParse.ParseValue(old(Left()), old(depth), ok), Left())
      decreases |text| - pos, 1
    {
      hide JsonParse.SkipWs, Literal, ParseStringRest, JsonParse.ParseNumber, JsonParse.ParseArray, JsonParse.ParseObject;
      SkipWs();
      var start := pos;
      ghost var s1 := Left();
      if pos == |text| {
        return SyntaxError("unexpected end of input");
      }
      var c := text[pos];
      if c == 'n' {
        r := ExpectWord("null", KNull);
      } else if c == 't' {
        r := ExpectWord("true", KBool(true));
      } else if c == 'f' {
        r := ExpectWord("false", KBool(false));
      } else if c == '"' {
        var u := ParseString();
        match u
        case SyntaxError(m) => r := SyntaxError(m);
        case Aborted => r := Aborted;
        case Value(units) =>
          assert Slice(s1, Left()) == text[start..pos];
          r := Value(Node(KString(units), Some(text[start..pos])));
      } else if c == '[' {
        depth := depth + 1;
        if depth > MAX_JSON_DEPTH {
          depth := depth - 1;
          return SyntaxError("recursion limit exceeded");
        }
        var a := ParseArray();
        match a
        case SyntaxError(m) => r := SyntaxError(m);
        case Aborted => r := Aborted;
        case Value(items) =>
          depth := depth - 1;
          r := Value(Node(KArray(items), None));
      } else if c == '{' {
        depth := depth + 1;
        if depth > MAX_JSON_DEPTH {
          depth := depth - 1;
          return SyntaxError("recursion limit exceeded");
        }
        var o := ParseObject();
        match o
        case SyntaxError(m) => r := SyntaxError(m);
        case Aborted => r := Aborted;
        case Value(entries) =>
          depth := depth - 1;
          r := Value(Node(KObject(entries), None));
      } else if c == '-' || IsDigit(c) {
        r := ParseNumber();
      } else {
        r := SyntaxError("expected value");
      }
    }

    method ParseArray() returns (r: Outcome<seq<Node>>)
      requires pos < |text| && text[pos] == '['
      modifies this
      ensures old(pos) < pos <= |text|
      ensures r.Value? ==> depth == old(depth)
      ensures Agrees(r, JsonParse.ParseArray(old(Left())[1..], old(depth), ok), Left())
      decreases |text| - pos, 0
    {
      hide JsonParse.SkipWs, JsonParse.ParseElements;
      ghost var s0 := Left()[1..];
      pos := pos + 1;
      assert s0 == Left();
      SkipWs();
      ghost var s1 := Left();
      if At(']') {
        pos := pos + 1;
        assert s1[1..] == Left();
        return Value([]);
      }
      r := ParseElements();
    }

    method ParseElements() returns (r: Outcome<seq<Node>>)
      requires pos <= |text|
      modifies this
      ensures old(pos) <= pos <= |text|
      ensures r.Value? ==> depth == old(depth)
      ensures Agrees(r, JsonParse.ParseElements(old(Left()), old(depth), ok, []), Left())
      decreases |text| - pos, 3
    {
      hide JsonParse.SkipWs, JsonParse.ParseValue;
      var items: seq<Node> := [];
      while true
        invariant old(pos) <= pos <= |text| && depth == old(depth)
        invariant JsonParse.ParseElements(Left(), depth, ok, items) == JsonParse.ParseElements(old(Left()), depth, ok, [])
        decreases |text| - pos
      {
        var v := ParseValue();
        if v.SyntaxError? {
          return SyntaxError(v.msg);
        }
        if v.Aborted? {
          return Aborted;
        }
        SkipWs();
        ghost var s2 := Left();
        if At(',') {
          pos := pos + 1;
          assert s2[1..] == Left();
          SkipWs();
          if At(']') {
            return SyntaxError("trailing comma");
          }
          items := items + [v.value];
        } else if At(']') {
          pos := pos + 1;
          assert s2[1..] == Left();
          return Value(items + [v.value]);
        } else {
          return SyntaxError("expected ',' or ']'");
        }
      }
    }

    method ParseMember() returns (r: Outcome<Entry>)
      requires pos <= |text|
      modifies this
      ensures old(pos) <= pos <= |text|
      ensures r.Value? ==> depth == old(depth) && pos > old(pos)
      ensures Agrees(r, JsonParse.ParseMember(old(Left()), old(depth), ok), Left())
      decreases |text| - pos, 2
    {
      hide JsonParse.SkipWs, JsonParse.ParseValue, ParseStringRest;
      SkipWs();
      if !At('"') {
        return SyntaxError("expected property name");
      }
      var k := ParseString();
      if k.SyntaxError? {
        return SyntaxError(k.msg);
      }
      if k.Aborted? {
        return Aborted;
      }
      SkipWs();
      ghost var s2 := Left();
      if !At(':') {
        return SyntaxError("expected ':'");
      }
      pos := pos + 1;
      assert s2[1..] == Left();
      var v := ParseValue();
      match v
      case SyntaxError(m) => r := SyntaxError(m);
      case Aborted => r := Aborted;
      case Value(node) => r := Value(Entry(k.value, node));
    }

    method ParseObject() returns (r: Outcome<seq<Entry>>)
      requires pos < |text| && text[pos] == '{'
      modifies this
      ensures old(pos) < pos <= |text|
      ensures r.Value? ==> depth == old(depth)
      ensures Agrees(r, JsonParse.ParseObject(old(Left())[1..], old(depth), ok), Left())
      decreases |text| - pos, 0
    {
      hide JsonParse.SkipWs, JsonParse.ParseMembers;
      ghost var s0 := Left()[1..];
      pos := pos + 1;
      assert s0 == Left();
      SkipWs();
      ghost var s1 := Left();
      if At('}') {
        pos := pos + 1;
        assert s1[1..] == Left();
        return Value([]);
      }
      r := ParseMembers();
    }

    method ParseMembers() returns (r: Outcome<seq<Entry>>)
      requires pos <= |text|
      modifies this
      ensures old(pos) <= pos <= |text|
      ensures r.Value? ==> depth == old(depth)
      ensures Agrees(r, JsonParse.ParseMembers(old(Left()), old(depth), ok, []), Left())
      decreases |text| - pos, 3
    {
      hide JsonParse.SkipWs, JsonParse.ParseMember;
      var entries: seq<Entry> := [];
      while true
        invariant old(pos) <= pos <= |text| && depth == old(depth)
        invariant JsonParse.ParseMembers(Left(), depth, ok, entries) == JsonParse.ParseMembers(old(Left()), depth, ok, [])
        decreases |text| - pos
      {
        var m := ParseMember();
        if m.SyntaxError? {
          return SyntaxError(m.msg);
        }
        if m.Aborted? {
          return Aborted;
        }
        SkipWs();
        ghost var s2 := Left();
        if At(',') {
          pos := pos + 1;
          assert s2[1..] == Left();
          SkipWs();
          if At('}') {
            return SyntaxError("trailing comma");
          }
          entries := entries + [m.value];
        } else if At('}') {
          pos := pos + 1;
          assert s2[1..] == Left();
          return Value(entries + [m.value]);
        } else {
          return SyntaxError("expected ',' or '}'");
        }
      }
    }
  }

  /** `JSON.parse` up to the construction of engine values. */
  method ParseJson(text: string, ok: string -> bool) returns (r: Outcome<Node>)
    ensures Agrees(r, Parse(text, ok), [])
  {
    hide JsonParse.SkipWs, JsonParse.ParseValue;
    var p := new JsonParser(text, ok);
    assert text[0..] == text;
    p.SkipWs();
    r := p.ParseValue();
    if r.Value? {
      p.SkipWs();
      if p.pos != |text| {
        return SyntaxError("trailing characters");
      }
    }
  }
}
