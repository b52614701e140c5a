/** The recursive-descent parser as functions of the text that is left. */
module JsonParse {
  import opened Basics
  import opened Utf16
  import opened JsonGrammar

  /** Success with the text that is left, a SyntaxError, or an abort of the
      engine (a decoded string that is not well-formed UTF-16). */
  datatype Parsed<+T> = Ok(value: T, rest: string) | Err(msg: string) | Abort

  const MAX_JSON_DEPTH: nat := 128

  /** The text between a position and a later one. */
  function Slice(s: string, rest: string): string
    requires |rest| <= |s|
  {
    s[..|s| - |rest|]
  }

  function SkipWs(s: string): (r: string)
    ensures |r| <= |s|
  {
    if s != [] && IsWs(s[0]) then SkipWs(s[1..]) else s
  }

  function Literal(s: string, word: string, kind: Kind): (r: Parsed<Node>)
    requires word != []
    ensures r.Ok? ==> |r.rest| < |s|
  {
    if word <= s then Ok(Node(kind, Some(word)), s[|word|..]) else Err("invalid literal")
  }

  // ---- Numbers ----

  function SkipDigits(s: string): (r: string)
    ensures |r| <= |s|
    ensures s != [] && IsDigit(s[0]) ==> |r| < |s|
  {
    if s != [] && IsDigit(s[0]) then SkipDigits(s[1..]) else s
  }

  predicate AtDigit(s: string) { s != [] && IsDigit(s[0]) }

  function SkipInt(s: string): (r: Option<string>)
    ensures r.Some? ==> |r.value| < |s|
  {
    if s == [] then None
    else if s[0] == '0' then Some(s[1..])
    else if '1' <= s[0] <= '9' then Some(SkipDigits(s))
    else None
  }

  function SkipFrac(s: string): (r: Option<string>)
    ensures r.Some? ==> |r.value| <= |s|
  {
    if s != [] && s[0] == '.' then
      if AtDigit(s[1..]) then Some(SkipDigits(s[1..])) else None
    else Some(s)
  }

  function SkipExp(s: string): (r: Option<string>)
    ensures r.Some? ==> |r.value| <= |s|
  {
    if s != [] && (s[0] == 'e' || s[0] == 'E') then
      var s1 := s[1..];
      var s2 := if s1 != [] && (s1[0] == '+' || s1[0] == '-') then s1[1..] else s1;
      if AtDigit(s2) then Some(SkipDigits(s2)) else None
    else Some(s)
  }

  /** The text after a number token, if there is one. */
  function SkipNumber(s: string): (r: Option<string>)
    ensures r.Some? ==> |r.value| < |s|
  {
    var s1 := if s != [] && s[0] == '-' then s[1..] else s;
    var s2 := SkipInt(s1);
    if s2.None? then None
    else
      var s3 := SkipFrac(s2.value);
      if s3.None? then None else SkipExp(s3.value)
  }

  function ParseNumber(s: string, ok: string -> bool): (r: Parsed<Node>)
    ensures r.Ok? ==> |r.rest| < |s|
  {
    match SkipNumber(s)
    case None => Err("invalid number")
    case Some(rest) =>
      var token := Slice(s, rest);
      if ok(token) then Ok(Node(KNumber(token), Some(token)), rest) else Err("number out of range")
  }

  // ---- Strings ----

  function ParseHex4(s: string): (r: Parsed<Unit>)
    ensures r.Ok? ==> |r.rest| < |s|
  {
    HexRun(s, 0, 0)
  }

  function HexRun(s: string, k: nat, v: nat): (r: Parsed<Unit>)
    requires k <= 4 && v < (if k == 0 then 1 else if k == 1 then 16 else if k == 2 then 256 else if k == 3 then 4096 else 0x1_0000)
    ensures r.Ok? ==> |r.rest| + 4 - k == |s|
    decreases 4 - k
  {
    if k == 4 then Ok(v, s)
    else if s == [] then Err("unexpected end of hex escape")
    else if !IsHexDigit(s[0]) then Err("invalid hex digit")
    else HexRun(s[1..], k + 1, v * 16 + HexDigit(s[0]))
  }

  /** After `\u`: one code unit, or a pair of escapes as one scalar value. */
  function ParseUnicodeEscape(s: string): (r: Parsed<nat>)
    ensures r.Ok? ==> |r.rest| < |s|
  {
    match ParseHex4(s)
    case Err(m) => Err(m)
    case Abort => Abort
    case Ok(hi, s1) =>
      if IsHigh(hi) then
        if "\\u" <= s1 then
          match ParseHex4(s1[2..])
          case Err(m) => Err(m)
          case Abort => Abort
          case Ok(lo, s2) => if IsLow(lo) then Ok(PairValue(hi, lo), s2) else Err("invalid surrogate pair")
        else Err("lone leading surrogate in hex escape")
      else if IsLow(hi) then Err("lone leading surrogate in hex escape")
      else Ok(hi, s1)
  }

  /** After a backslash: the code unit the escape stands for. */
  function ParseEscape(s: string): (r: Parsed<Unit>)
    ensures r.Ok? ==> |r.rest| < |s|
  {
    if s == [] then Err("unterminated escape")
    else if s[0] == 'u' then
      match ParseUnicodeEscape(s[1..])
      case Err(m) => Err(m)
      case Abort => Abort
      case Ok(v, rest) => Ok(v % 0x1_0000, rest)
    else if IsEscape(s[0]) then Ok(EscapeValue(s[0]), s[1..])
    else Err("invalid escape")
  }

  /** The rest of a string after its opening quote. */
  function ParseStringRest(s: string, units: seq<Unit>): (r: Parsed<seq<Unit>>)
    ensures r.Ok? ==> |r.rest| < |s|
    decreases |s|
  {
    if s == [] then Err("unterminated string")
    else if s[0] == '"' then
      if WellFormed(units) then Ok(units, s[1..]) else Abort
    else if s[0] == '\\' then
      match ParseEscape(s[1..])
      case Err(m) => Err(m)
      case Abort => Abort
      case Ok(u, rest) => ParseStringRest(rest, units + [u])
    else if s[0] as int <= 0x1F then Err("unescaped control character in string")
    else ParseStringRest(s[1..], units + EncodeChar(s[0]))
  }

  // ---- Values ----

  function ParseValue(s: string, depth: nat, ok: string -> bool): (r: Parsed<Node>)
    ensures r.Ok? ==> |r.rest| < |s|
    decreases |s|, 1
  {
    var s1 := SkipWs(s);
    if s1 == [] then Err("unexpected end of input")
    else
      var c := s1[0];
      if c == 'n' then Literal(s1, "null", KNull)
      else if c == 't' then Literal(s1, "true", KBool(true))
      else if c == 'f' then Literal(s1, "false", KBool(false))
      else if c == '"' then
        match ParseStringRest(s1[1..], [])
        case Err(m) => Err(m)
        case Abort => Abort
        case Ok(units, rest) => Ok(Node(KString(units), Some(Slice(s1, rest))), rest)
      else if c == '[' then
        if depth + 1 > MAX_JSON_DEPTH then Err("recursion limit exceeded")
        else
          match ParseArray(s1[1..], depth + 1, ok)
          case Err(m) => Err(m)
          case Abort => Abort
          case Ok(items, rest) => Ok(Node(KArray(items), None), rest)
      else if c == '{' then
        if depth + 1 > MAX_JSON_DEPTH then Err("recursion limit exceeded")
        else
          match ParseObject(s1[1..], depth + 1, ok)
          case Err(m) => Err(m)
          case Abort => Abort
          case Ok(entries, rest) => Ok(Node(KObject(entries), None), rest)
      else if c == '-' || IsDigit(c) then ParseNumber(s1, ok)
      else Err("expected value")
  }

  /** After the opening bracket. */
  function ParseArray(s: string, depth: nat, ok: string -> bool): (r: Parsed<seq<Node>>)
    ensures r.Ok? ==> |r.rest| < |s|
    decreases |s|, 3
  {
    var s1 := SkipWs(s);
    if s1 != [] && s1[0] == ']' then Ok([], s1[1..])
    else ParseElements(s1, depth, ok, [])
  }

  function ParseElements(s: string, depth: nat, ok: string -> bool, items: seq<Node>): (r: Parsed<seq<Node>>)
    ensures r.Ok? ==> |r.rest| < |s|
    decreases |s|, 2
  {
    match ParseValue(s, depth, ok)
    case Err(m) => Err(m)
    case Abort => Abort
    case Ok(item, rest) =>
      var s1 := SkipWs(rest);
      if s1 != [] && s1[0] == ',' then
        var s2 := SkipWs(s1[1..]);
        if s2 != [] && s2[0] == ']' then Err("trailing comma")
        else ParseElements(s2, depth, ok, items + [item])
      else if s1 != [] && s1[0] == ']' then Ok(items + [item], s1[1..])
      else Err("expected ',' or ']'")
  }

  /** After the opening brace. */
  function ParseObject(s: string, depth: nat, ok: string -> bool): (r: Parsed<seq<Entry>>)
    ensures r.Ok? ==> |r.rest| < |s|
    decreases |s|, 3
  {
    var s1 := SkipWs(s);
    if s1 != [] && s1[0] == '}' then Ok([], s1[1..])
    else ParseMembers(s1, depth, ok, [])
  }

  function ParseMember(s: string, depth: nat, ok: string -> bool): (r: Parsed<Entry>)
    ensures r.Ok? ==> |r.rest| < |s|
    decreases |s|, 1
  {
    var s1 := SkipWs(s);
    if !(s1 != [] && s1[0] == '"') then Err("expected property name")
    else
      match ParseStringRest(s1[1..], [])
      case Err(m) => Err(m)
      case Abort => Abort
      case Ok(key, rest) =>
        var s2 := SkipWs(rest);
        if !(s2 != [] && s2[0] == ':') then Err("expected ':'")
        else
          match ParseValue(s2[1..], depth, ok)
          case Err(m) => Err(m)
          case Abort => Abort
          case Ok(val, rest2) => Ok(Entry(key, val), rest2)
  }

  function ParseMembers(s: string, depth: nat, ok: string -> bool, entries: seq<Entry>): (r: Parsed<seq<Entry>>)
    ensures r.Ok? ==> |r.rest| < |s|
    decreases |s|, 2
  {
    match ParseMember(s, depth, ok)
    case Err(m) => Err(m)
    case Abort => Abort
    case Ok(entry, rest) =>
      var s1 := SkipWs(rest);
      if s1 != [] && s1[0] == ',' then
        var s2 := SkipWs(s1[1..]);
        if s2 != [] && s2[0] == '}' then Err("trailing comma")
        else ParseMembers(s2, depth, ok, entries + [entry])
      else if s1 != [] && s1[0] == '}' then Ok(entries + [entry], s1[1..])
      else Err("expected ',' or '}'")
  }

  /** The whole text: one value with whitespace around it. */
  function Parse(text: string, ok: string -> bool): (r: Parsed<Node>)
    ensures r.Ok? ==> r.rest == []
  {
    match ParseValue(SkipWs(text), 0, ok)
    case Err(m) => Err(m)
    case Abort => Abort
    case Ok(node, rest) =>
      if SkipWs(rest) == [] then Ok(node, []) else Err("trailing characters")
  }
}
