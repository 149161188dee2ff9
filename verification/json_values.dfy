/** JSON values and what the parser makes of a text, as functions of the buffer and the place in it. */
module JsonValues {
  import opened Decimal
  import opened JsonLexer

  /** Real keeps the text of a floating-point number; its value is not modelled. */
  datatype Json =
    | Null
    | Bool(b: bool)
    | Int(n: int)
    | Real(negative: bool, text: string)
    | Str(s: string)
    | Array(items: seq<Json>)
    | Object(pairs: seq<Pair>)

  datatype Pair = Pair(key: string, value: Json)

  const BACKSPACE: char := 8 as char
  const FORMFEED: char := 12 as char

  datatype Parsed = Ok(v: Json, end: nat) | Bad

  datatype PairParsed = PairOk(p: Pair, end: nat) | PairBad

  function TokenText(buf: string, t: Token): string
    requires t.start + t.length <= |buf|
  {
    buf[t.start..t.start + t.length]
  }

  // ---------- Strings and keys ----------

  function Unescaped(e: char): Option<char> {
    if e == 'b' then Some(BACKSPACE)
    else if e == 'f' then Some(FORMFEED)
    else if e == 'n' then Some('\n')
    else if e == 'r' then Some('\r')
    else if e == 't' then Some('\t')
    else if e == '"' || e == '\\' || e == '/' then Some(e)
    else None
  }

  function Onto(s: string, r: Option<string>): Option<string> {
    if r.None? then None else Some(s + r.value)
  }

  /** json_parse_string_token from pos on: ends at the first bare quote. */
  function StringFrom(text: string, pos: nat): Option<string>
    requires pos <= |text|
    decreases |text| - pos
  {
    if pos == |text| then None
    else if text[pos] == '"' then Some([])
    else if text[pos] != '\\' then Onto([text[pos]], StringFrom(text, pos + 1))
    else if pos + 1 == |text| || Unescaped(text[pos + 1]).None? then None
    else Onto([Unescaped(text[pos + 1]).value], StringFrom(text, pos + 2))
  }

  lemma OntoNext(s: string, c: char, r: Option<string>)
    ensures Onto(s, Onto([c], r)) == Onto(s + [c], r)
  {
    if r.Some? {
      assert s + ([c] + r.value) == s + [c] + r.value;
    }
  }

  predicate NotNul(c: char) { c != '\0' }

  /** string_from_literal_length: stops at a NUL, and a length of 0 sets no other limit. */
  function Literal(buf: string, start: nat, length: nat): string
    requires start + length <= |buf|
  {
    var end := if length == 0 then |buf| else start + length;
    buf[start..Span(NotNul, buf[..end], start)]
  }

  // ---------- Numbers ----------

  predicate IsFloat(text: string) {
    exists i :: 0 <= i < |text| && (text[i] == '.' || text[i] == 'e' || text[i] == 'E')
  }

  predicate ExponentComplete(s: string, pos: nat)
    requires pos <= |s|
  {
    if pos < |s| && (s[pos] == 'e' || s[pos] == 'E') then
      var q := if pos + 1 < |s| && (s[pos + 1] == '+' || s[pos + 1] == '-') then pos + 2 else pos + 1;
      q < |s| && IsDigit(s[q]) && Span(IsDigit, s, q) == |s|
    else pos == |s|
  }

  /** The texts parse_double_literal accepts. */
  predicate IsDouble(s: string) {
    s != [] && IsDigit(s[0]) &&
    var a := Span(IsDigit, s, 0);
    ExponentComplete(s, if a + 1 < |s| && s[a] == '.' && IsDigit(s[a + 1]) then Span(IsDigit, s, a + 1) else a)
  }

  function NumberValue(text: string, negative: bool): Option<Json> {
    if !IsFloat(text) then Some(Int(if negative then ToInt64(0 - Int64Of(text)) else Int64Of(text)))
    else if IsDouble(text) then Some(Real(negative, text))
    else None
  }

  predicate IsMinus(buf: string, t: Token)
    requires t.start + t.length <= |buf|
  {
    t.kind == Operator && TokenText(buf, t) == "-"
  }

  /** json_parse_number_tokens. */
  function ParseNumber(buf: string, pos: nat): (r: Parsed)
    requires pos <= |buf|
    ensures r.Ok? ==> pos < r.end <= |buf|
  {
    match Next(buf, pos)
    case Failed => Bad
    case Lexed(a, e) =>
      if IsMinus(buf, a) then
        match Next(buf, e)
        case Failed => Bad
        case Lexed(b, f) => if b.kind == Number then Numeral(buf, b, true, f) else Bad
      else if a.kind == Number then Numeral(buf, a, false, e) else Bad
  }

  function Numeral(buf: string, t: Token, negative: bool, end: nat): (r: Parsed)
    requires t.start + t.length <= |buf|
    ensures r.Ok? ==> r.end == end
  {
    match NumberValue(TokenText(buf, t), negative)
    case None => Bad
    case Some(v) => Ok(v, end)
  }

  // ---------- Values ----------

  /** json_parse_value. */
  function ParseValue(buf: string, pos: nat): (r: Parsed)
    requires pos <= |buf|
    ensures r.Ok? ==> pos < r.end <= |buf|
    decreases |buf| - pos, 1
  {
    match Next(buf, pos)
    case Failed => Bad
    case Lexed(t, e) =>
      var text := TokenText(buf, t);
      if t.kind == Text then
        if |text| < 2 || text[0] != '"' || text[|text| - 1] != '"' then Bad
        else match StringFrom(text, 1)
          case None => Bad
          case Some(s) => Ok(Str(s), e)
      else if t.kind == Number || IsMinus(buf, t) then ParseNumber(buf, pos)
      else if t.kind == LBrace then ParseObject(buf, e)
      else if t.kind == LBracket then ParseArray(buf, e)
      else if t.kind == Identifier && text == "true" then Ok(Bool(true), e)
      else if t.kind == Identifier && text == "false" then Ok(Bool(false), e)
      else if t.kind == Identifier && text == "null" then Ok(Null, e)
      else Bad
  }

  /** json_parse_array from behind the opening bracket. */
  function ParseArray(buf: string, pos: nat): (r: Parsed)
    requires pos <= |buf|
    ensures r.Ok? ==> pos < r.end <= |buf|
    decreases |buf| - pos, 3
  {
    match Next(buf, pos)
    case Failed => Bad
    case Lexed(t, e) => if t.kind == RBracket then Ok(Array([]), e) else ParseItems(buf, pos, [])
  }

  function ParseItems(buf: string, pos: nat, items: seq<Json>): (r: Parsed)
    requires pos <= |buf|
    ensures r.Ok? ==> pos < r.end <= |buf|
    decreases |buf| - pos, 2
  {
    match ParseValue(buf, pos)
    case Bad => Bad
    case Ok(v, e) =>
      match Next(buf, e)
      case Failed => Bad
      case Lexed(t, f) =>
        if t.kind == RBracket then Ok(Array(items + [v]), f)
        else if t.kind == Comma then ParseItems(buf, f, items + [v])
        else Bad
  }

  /** json_parse_object from behind the opening brace. */
  function ParseObject(buf: string, pos: nat): (r: Parsed)
    requires pos <= |buf|
    ensures r.Ok? ==> pos < r.end <= |buf|
    decreases |buf| - pos, 4
  {
    match Next(buf, pos)
    case Failed => Bad
    case Lexed(t, e) => if t.kind == RBrace then Ok(Object([]), e) else ParsePairs(buf, pos, [])
  }

  /** One key, colon and value. */
  function ParsePair(buf: string, pos: nat): (r: PairParsed)
    requires pos <= |buf|
    ensures r.PairOk? ==> pos < r.end <= |buf|
    decreases |buf| - pos, 2
  {
    match Next(buf, pos)
    case Failed => PairBad
    case Lexed(k, e) =>
      if k.kind != Text || k.length < 2 then PairBad
      else match Next(buf, e)
        case Failed => PairBad
        case Lexed(c, f) =>
          if c.kind != Colon then PairBad
          else match ParseValue(buf, f)
            case Bad => PairBad
            case Ok(v, g) => PairOk(Pair(Literal(buf, k.start + 1, k.length - 2), v), g)
  }

  function ParsePairs(buf: string, pos: nat, pairs: seq<Pair>): (r: Parsed)
    requires pos <= |buf|
    ensures r.Ok? ==> pos < r.end <= |buf|
    decreases |buf| - pos, 3
  {
    match ParsePair(buf, pos)
    case PairBad => Bad
    case PairOk(p, e) =>
      match Next(buf, e)
      case Failed => Bad
      case Lexed(t, f) =>
        if t.kind == RBrace then Ok(Object(pairs + [p]), f)
        else if t.kind == Comma then ParsePairs(buf, f, pairs + [p])
        else Bad
  }

  /** json_parse: one value and nothing behind it. */
  function Parse(buf: string): Option<Json> {
    match ParseValue(buf, 0)
    case Bad => None
    case Ok(v, e) => if Next(buf, e).Lexed? && Next(buf, e).tok.kind == Eof then Some(v) else None
  }
}
