/** The token stream and the recursive-descent parser over it. */
module JsonParser {
  import opened Decimal
  import opened JsonLexer
  import opened JsonValues
  import JsonGrammar
  import JsonTexts

  datatype JsonError = JsonOk | JsonInvalid

  /** One token of lookahead over a tokenizer. */
  class TokenStream {
    const tz: Tokenizer
    var hasCur: bool
    var cur: Token
    ghost var from: nat

    ghost predicate Valid()
      reads this, tz
    {
      && tz.pos <= |tz.buf| && from <= |tz.buf|
      && (hasCur ==> !tz.failed && Next(tz.buf, from) == Lexed(cur, tz.pos))
    }

    /** Where the next token is looked for. */
    ghost function Place(): (p: nat)
      reads this, tz
    {
      if hasCur then from else tz.pos
    }

    constructor (tz: Tokenizer)
      requires tz.pos <= |tz.buf|
      ensures this.tz == tz && Valid() && !hasCur
    {
      this.tz, hasCur, cur, from := tz, false, Token(Eof, 0, 0), 0;
    }

    /** ts_peek: the next token, which stays next. */
    method Peek() returns (ok: bool, t: Token)
      requires Valid()
      modifies this, tz
      ensures Valid() && ok == (!old(tz.failed) && Next(tz.buf, old(Place())).Lexed?)
      ensures ok ==> !tz.failed && hasCur && t == Next(tz.buf, old(Place())).tok && Place() == old(Place())
    {
      t := cur;
      if !hasCur {
        from := tz.pos;
        ok, t := tz.NextToken();
        if !ok {
          return;
        }
        cur := t;
        hasCur := true;
      }
      ok, t := true, cur;
    }

    /** ts_next: the next token, which is taken. */
    method Take() returns (ok: bool, t: Token)
      requires Valid()
      modifies this, tz
      ensures Valid() && ok == (!old(tz.failed) && Next(tz.buf, old(Place())).Lexed?)
      ensures ok ==> !tz.failed && t == Next(tz.buf, old(Place())).tok && Place() == Next(tz.buf, old(Place())).end
    {
      if hasCur {
        t := cur;
        hasCur := false;
        return true, t;
      }
      ok, t := tz.NextToken();
    }

    /** ts_expect: takes the next token and checks its kind. */
    method Expect(k: Kind) returns (ok: bool, t: Token)
      requires Valid()
      modifies this, tz
      ensures Valid() && ok == (!old(tz.failed) && Next(tz.buf, old(Place())).Lexed? && Next(tz.buf, old(Place())).tok.kind == k)
      ensures ok ==> !tz.failed && t == Next(tz.buf, old(Place())).tok && Place() == Next(tz.buf, old(Place())).end
    {
      ok, t := Take();
      ok := ok && t.kind == k;
    }
  }

  /** json_parse_string_token. */
  method ParseStringToken(buf: string) returns (e: JsonError, v: Json)
    ensures var r := if |buf| < 2 || buf[0] != '"' || buf[|buf| - 1] != '"' then None else StringFrom(buf, 1);
      e == (if r.Some? then JsonOk else JsonInvalid) && (r.Some? ==> v == Str(r.value))
  {
    v := Null;
    if |buf| < 2 || buf[0] != '"' || buf[|buf| - 1] != '"' {
      return JsonInvalid, v;
    }
    var pos := 1;
    var s := "";
    assert StringFrom(buf, 1).Some? ==> "" + StringFrom(buf, 1).value == StringFrom(buf, 1).value;
    while pos < |buf|
      invariant 1 <= pos <= |buf|
      invariant StringFrom(buf, 1) == Onto(s, StringFrom(buf, pos))
    {
      var c := buf[pos];
      pos := pos + 1;
      if c == '"' {
        return JsonOk, Str(s);
      }
      if c == '\\' {
        if pos >= |buf| {
          return JsonInvalid, v;
        }
        var r := Unescaped(buf[pos]);
        pos := pos + 1;
        if r.None? {
          return JsonInvalid, v;
        }
        OntoNext(s, r.value, StringFrom(buf, pos));
        s := s + [r.value];
      } else {
        OntoNext(s, c, StringFrom(buf, pos));
        s := s + [c];
      }
    }
    e := JsonInvalid;
  }

  /** The value of a number token. */
  method NumberOf(text: string, negative: bool) returns (e: JsonError, v: Json)
    ensures e == if NumberValue(text, negative).Some? then JsonOk else JsonInvalid
    ensures e == JsonOk ==> NumberValue(text, negative) == Some(v)
  {
    v := Null;
    var isInt := true;
    var i := 0;
    while i < |text|
      invariant i <= |text| && isInt && forall j :: 0 <= j < i ==> text[j] != '.' && text[j] != 'e' && text[j] != 'E'
    {
      if text[i] == '.' || text[i] == 'e' || text[i] == 'E' {
        isInt := false;
        break;
      }
      i := i + 1;
    }
    assert isInt == !IsFloat(text);
    if isInt {
      var iv := ParseInt64(text);
      if negative {
        iv := ToInt64(0 - iv);
      }
      return JsonOk, Int(iv);
    }
    if !IsDouble(text) {
      return JsonInvalid, v;
    }
    e, v := JsonOk, Real(negative, text);
  }

  /** json_parse_number_tokens. */
  method ParseNumberTokens(ts: TokenStream) returns (e: JsonError, v: Json)
    requires ts.Valid() && !ts.tz.failed
    modifies ts, ts.tz
    ensures ts.Valid()
    ensures e == if ParseNumber(ts.tz.buf, old(ts.Place())).Ok? then JsonOk else JsonInvalid
    ensures e == JsonOk ==> !ts.tz.failed && Ok(v, ts.Place()) == ParseNumber(ts.tz.buf, old(ts.Place()))
  {
    v := Null;
    var negative := false;
    var ok, num := ts.Peek();
    if !ok {
      return JsonInvalid, v;
    }
    if IsMinus(ts.tz.buf, num) {
      ok, num := ts.Take();
      negative := true;
    }
    ok, num := ts.Take();
    if !ok || num.kind != Number {
      return JsonInvalid, v;
    }
    e, v := NumberOf(TokenText(ts.tz.buf, num), negative);
  }

  /** json_parse_array. */
  method ParseArrayTokens(ts: TokenStream) returns (e: JsonError, v: Json)
    requires ts.Valid() && !ts.tz.failed && Next(ts.tz.buf, ts.Place()).Lexed? && Next(ts.tz.buf, ts.Place()).tok.kind == LBracket
    modifies ts, ts.tz
    ensures ts.Valid()
    ensures e == if ParseArray(ts.tz.buf, Next(ts.tz.buf, old(ts.Place())).end).Ok? then JsonOk else JsonInvalid
    ensures e == JsonOk ==> !ts.tz.failed && Ok(v, ts.Place()) == ParseArray(ts.tz.buf, Next(ts.tz.buf, old(ts.Place())).end)
    decreases |ts.tz.buf| - ts.Place(), 0
  {
    v := Null;
    var ok, t := ts.Expect(LBracket);
    if !ok {
      return JsonInvalid, v;
    }
    ghost var start := ts.Place();
    var items: seq<Json> := [];
    ok, t := ts.Peek();
    if !ok {
      return JsonInvalid, v;
    }
    if t.kind == RBracket {
      ok, t := ts.Take();
      return JsonOk, Array([]);
    }
    while true
      invariant ts.Valid() && !ts.tz.failed && start <= ts.Place()
      invariant ParseArray(ts.tz.buf, start) == ParseItems(ts.tz.buf, ts.Place(), items)
      decreases |ts.tz.buf| - ts.Place()
    {
      var elem;
      e, elem := ParseValueTokens(ts);
      if e != JsonOk {
        return;
      }
      items := items + [elem];
      ok, t := ts.Peek();
      if !ok {
        return JsonInvalid, v;
      }
      if t.kind == RBracket {
        ok, t := ts.Take();
        return JsonOk, Array(items);
      }
      ok, t := ts.Expect(Comma);
      if !ok {
        return JsonInvalid, v;
      }
    }
  }

  /** The part of json_parse_object that reads one member. */
  method ParsePairTokens(ts: TokenStream) returns (e: JsonError, p: Pair)
    requires ts.Valid() && !ts.tz.failed
    modifies ts, ts.tz
    ensures ts.Valid()
    ensures e == if ParsePair(ts.tz.buf, old(ts.Place())).PairOk? then JsonOk else JsonInvalid
    ensures e == JsonOk ==> !ts.tz.failed && PairOk(p, ts.Place()) == ParsePair(ts.tz.buf, old(ts.Place()))
    decreases |ts.tz.buf| - ts.Place(), 2
  {
    hide Next, ParseValue, Literal;
    p := Pair("", Null);
    var ok, keytok := ts.Expect(Text);
    if !ok || keytok.length < 2 {
      return JsonInvalid, p;
    }
    var key := Literal(ts.tz.buf, keytok.start + 1, keytok.length - 2);
    var t, val;
    ok, t := ts.Expect(Colon);
    if !ok {
      return JsonInvalid, p;
    }
    e, val := ParseValueTokens(ts);
    p := Pair(key, val);
  }

  /** json_parse_object. */
  method ParseObjectTokens(ts: TokenStream) returns (e: JsonError, v: Json)
    requires ts.Valid() && !ts.tz.failed && Next(ts.tz.buf, ts.Place()).Lexed? && Next(ts.tz.buf, ts.Place()).tok.kind == LBrace
    modifies ts, ts.tz
    ensures ts.Valid()
    ensures e == if ParseObject(ts.tz.buf, Next(ts.tz.buf, old(ts.Place())).end).Ok? then JsonOk else JsonInvalid
    ensures e == JsonOk ==> !ts.tz.failed && Ok(v, ts.Place()) == ParseObject(ts.tz.buf, Next(ts.tz.buf, old(ts.Place())).end)
    decreases |ts.tz.buf| - ts.Place(), 0
  {
    v := Null;
    var ok, t := ts.Expect(LBrace);
    if !ok {
      return JsonInvalid, v;
    }
    ghost var start := ts.Place();
    var pairs: seq<Pair> := [];
    ok, t := ts.Peek();
    if !ok {
      return JsonInvalid, v;
    }
    if t.kind == RBrace {
      ok, t := ts.Take();
      return JsonOk, Object([]);
    }
    while true
      invariant ts.Valid() && !ts.tz.failed && start <= ts.Place()
      invariant ParseObject(ts.tz.buf, start) == ParsePairs(ts.tz.buf, ts.Place(), pairs)
      decreases |ts.tz.buf| - ts.Place()
    {
      var pair;
      e, pair := ParsePairTokens(ts);
      if e != JsonOk {
        return;
      }
      pairs := pairs + [pair];
      ok, t := ts.Peek();
      if !ok {
        return JsonInvalid, v;
      }
      if t.kind == RBrace {
        ok, t := ts.Take();
        return JsonOk, Object(pairs);
      }
      ok, t := ts.Expect(Comma);
      if !ok {
        return JsonInvalid, v;
      }
    }
  }

  /** json_parse_value. */
  method ParseValueTokens(ts: TokenStream) returns (e: JsonError, v: Json)
    requires ts.Valid() && !ts.tz.failed
    modifies ts, ts.tz
    ensures ts.Valid()
    ensures e == if ParseValue(ts.tz.buf, old(ts.Place())).Ok? then JsonOk else JsonInvalid
    ensures e == JsonOk ==> !ts.tz.failed && Ok(v, ts.Place()) == ParseValue(ts.tz.buf, old(ts.Place()))
    decreases |ts.tz.buf| - ts.Place(), 1
  {
    v := Null;
    var ok, t := ts.Peek();
    if !ok {
      return JsonInvalid, v;
    }
    var text := TokenText(ts.tz.buf, t);
    if t.kind == Text {
      ok, t := ts.Take();
      e, v := ParseStringToken(text);
      return;
    }
    if t.kind == Number || IsMinus(ts.tz.buf, t) {
      e, v := ParseNumberTokens(ts);
      return;
    }
    if t.kind == LBrace {
      e, v := ParseObjectTokens(ts);
      return;
    }
    if t.kind == LBracket {
      e, v := ParseArrayTokens(ts);
      return;
    }
    if t.kind == Identifier && text == "true" {
      ok, t := ts.Take();
      return JsonOk, Bool(true);
    }
    if t.kind == Identifier && text == "false" {
      ok, t := ts.Take();
      return JsonOk, Bool(false);
    }
    if t.kind == Identifier && text == "null" {
      ok, t := ts.Take();
      return JsonOk, Null;
    }
    e := JsonInvalid;
  }

  /** json_parse. */
  method JsonParse(buf: string) returns (e: JsonError, v: Json)
    ensures e == if Parse(buf).Some? then JsonOk else JsonInvalid
    ensures e == JsonOk ==> Parse(buf) == Some(v)
    ensures if e == JsonOk then JsonGrammar.Spells(buf, v) else forall w: Json :: !JsonGrammar.Spells(buf, w)
  {
    forall w: Json ensures Parse(buf) == Some(w) <==> JsonGrammar.Spells(buf, w) {
      JsonTexts.ParseIff(buf, w);
    }
    var tz := new Tokenizer(buf);
    var ts := new TokenStream(tz);
    e, v := ParseValueTokens(ts);
    if e != JsonOk {
      return;
    }
    var ok, t := ts.Peek();
    if !ok || t.kind != Eof {
      e := JsonInvalid;
    }
  }
}
