/** Parsing a printed value gives the value back exactly when its keys need no escaping. */
module JsonRoundTrip {
  import opened Decimal
  import opened JsonLexer
  import opened JsonValues
  import opened JsonForm
  import opened JsonPrinter
  import opened JsonParser

  /** The buffer reads text at pos. */
  ghost predicate Spells(buf: string, pos: nat, text: string) {
    pos + |text| <= |buf| && forall k :: 0 <= k < |text| ==> buf[pos + k] == text[k]
  }

  lemma SpellsSplit(buf: string, pos: nat, a: string, b: string)
    requires Spells(buf, pos, a + b)
    ensures Spells(buf, pos, a) && Spells(buf, pos + |a|, b)
  {
    forall k | 0 <= k < |a| ensures buf[pos + k] == a[k] {
      assert (a + b)[k] == a[k];
    }
    forall k | 0 <= k < |b| ensures buf[pos + |a| + k] == b[k] {
      assert (a + b)[|a| + k] == b[k];
    }
  }

  /** What may follow a value: the end, a comma, a closing bracket or a line break. */
  ghost predicate Ends(buf: string, pos: nat) {
    pos == |buf| || (pos < |buf| && (buf[pos] == ',' || buf[pos] == ']' || buf[pos] == '}' || buf[pos] == '\n'))
  }

  // ---------- Tokens ----------

  ghost predicate Blank(s: string) {
    forall i :: 0 <= i < |s| ==> IsBlank(s[i])
  }

  /** Blanks before a token do not matter. */
  lemma {:induction false} SkipBlanks(buf: string, pos: nat, s: string, q: nat)
    requires Spells(buf, pos, s) && Blank(s) && q == pos + |s|
    ensures pos <= q <= |buf| && Next(buf, pos) == Next(buf, q)
  {
    hide Span, TokenAt, IsBlank;
    var e := Span(IsBlank, buf, q);
    forall i | pos <= i < e ensures IsBlank(buf[i]) {
      if i < pos + |s| {
        assert buf[pos + (i - pos)] == s[i - pos];
      }
    }
    SpanIs(IsBlank, buf, pos, e);
  }

  lemma WordNext(buf: string, pos: nat, w: string, e: nat)
    requires Spells(buf, pos, w) && w != [] && e == pos + |w| && Ends(buf, e) && forall i :: 0 <= i < |w| ==> IsAlpha(w[i])
    ensures pos < e <= |buf| && Next(buf, pos) == Lexed(Token(Identifier, pos, |w|), e) && TokenText(buf, Token(Identifier, pos, |w|)) == w
  {
    assert buf[pos] == w[0];
    NextHere(buf, pos);
    forall i | pos + 1 <= i < e ensures IsWord(buf[i]) {
      assert buf[pos + (i - pos)] == w[i - pos];
    }
    SpanIs(IsWord, buf, pos + 1, e);
  }

  lemma PlainNumber(buf: string, start: nat, e: nat)
    requires start < e <= |buf| && Ends(buf, e)
    requires if buf[start] == '-' then start + 1 < e && forall i :: start < i < e ==> IsDigit(buf[i]) else forall i :: start <= i < e ==> IsDigit(buf[i])
    ensures (buf[start] == '-' || IsDigit(buf[start])) && NumberEnd(buf, start) == Some(e)
  {
    SpanIs(IsDigit, buf, if buf[start] == '-' then start + 1 else start, e);
    assert start + 1 < e ==> IsDigit(buf[start + 1]);
  }

  lemma SpelledText(buf: string, pos: nat, w: string, k: Kind)
    requires Spells(buf, pos, w)
    ensures TokenText(buf, Token(k, pos, |w|)) == w
  {}

  /** The characters of a printed number as they lie in the buffer. */
  lemma NumberCharacters(buf: string, pos: nat, n: int, e: nat)
    requires Spells(buf, pos, Signed(n)) && e == pos + |Signed(n)|
    ensures pos < e <= |buf|
    ensures if n < 0 then buf[pos] == '-' && pos + 1 < e && forall i :: pos < i < e ==> IsDigit(buf[i]) else forall i :: pos <= i < e ==> IsDigit(buf[i])
  {
    var w := Signed(n);
    var d := if n < 0 then Dec(0 - n) else Dec(n);
    var from := if n < 0 then pos + 1 else pos;
    assert n < 0 ==> buf[pos + 0] == w[0];
    forall i | from <= i < e ensures IsDigit(buf[i]) {
      assert buf[pos + (i - pos)] == w[i - pos] == d[i - from];
    }
  }

  lemma NumberNext(buf: string, pos: nat, n: int, e: nat)
    requires Spells(buf, pos, Signed(n)) && e == pos + |Signed(n)| && Ends(buf, e)
    ensures pos < e <= |buf| && Next(buf, pos) == Lexed(Token(Number, pos, |Signed(n)|), e)
    ensures TokenText(buf, Token(Number, pos, |Signed(n)|)) == Signed(n)
  {
    hide Spells, NumberEnd, OperatorLength, Signed, Dec, Next;
    NumberCharacters(buf, pos, n, e);
    SpelledText(buf, pos, Signed(n), Number);
    NextHere(buf, pos);
    PlainNumber(buf, pos, e);
    if n < 0 {
      NoMinus(buf, pos);
    } else {
      NoOperator(buf, pos);
    }
  }

  // ---------- Strings ----------

  /** One character of a printed string, escaped or not. */
  lemma EscapeStep(buf: string, pos: nat, c: char, next: nat)
    requires Spells(buf, pos, EscapeOf(c)) && next == pos + |EscapeOf(c)|
    ensures next <= |buf| && StringEnd(buf, pos) == StringEnd(buf, next)
    ensures StringFrom(buf, pos) == Onto([c], StringFrom(buf, next))
  {
    var esc := EscapeOf(c);
    assert buf[pos + 0] == esc[0];
    assert |esc| == 2 ==> buf[pos + 1] == esc[1];
  }

  lemma EscapedFront(buf: string, pos: nat, s: string, next: nat)
    requires s != [] && Spells(buf, pos, Escaped(s) + "\"") && next == pos + |EscapeOf(s[0])|
    ensures Spells(buf, pos, EscapeOf(s[0])) && Spells(buf, next, Escaped(s[1..]) + "\"")
    ensures pos + |Escaped(s)| == next + |Escaped(s[1..])|
  {
    hide Spells, EscapeOf;
    Regroup(EscapeOf(s[0]), Escaped(s[1..]), "\"");
    SpellsSplit(buf, pos, EscapeOf(s[0]), Escaped(s[1..]) + "\"");
  }

  lemma BareQuote(buf: string, pos: nat)
    requires Spells(buf, pos, Escaped("") + "\"")
    ensures pos < |buf| && StringEnd(buf, pos) == Some(pos + |Escaped("")| + 1) && StringFrom(buf, pos) == Some("")
  {
    assert Escaped("") + "\"" == "\"";
    assert buf[pos + 0] == "\""[0];
  }

  lemma {:induction false} StringEnds(buf: string, pos: nat, s: string)
    requires Spells(buf, pos, Escaped(s) + "\"")
    ensures pos <= |buf| && StringEnd(buf, pos) == Some(pos + |Escaped(s)| + 1)
    ensures StringFrom(buf, pos) == Some(s)
    decreases s
  {
    hide Spells, StringEnd, StringFrom, EscapeOf, Escaped;
    if s == [] {
      BareQuote(buf, pos);
    } else {
      var next := pos + |EscapeOf(s[0])|;
      EscapedFront(buf, pos, s, next);
      EscapeStep(buf, pos, s[0], next);
      StringEnds(buf, next, s[1..]);
      assert [s[0]] + s[1..] == s;
    }
  }

  lemma QuotedNext(buf: string, pos: nat, s: string, e: nat)
    requires Spells(buf, pos, Quoted(s)) && e == pos + |Quoted(s)|
    ensures pos < e <= |buf| && Next(buf, pos) == Lexed(Token(Text, pos, |Quoted(s)|), e)
    ensures TokenText(buf, Token(Text, pos, |Quoted(s)|)) == Quoted(s)
  {
    var rest := Escaped(s) + "\"";
    assert Quoted(s) == "\"" + rest;
    SpelledText(buf, pos, Quoted(s), Text);
    SpellsSplit(buf, pos, "\"", rest);
    assert buf[pos + 0] == "\""[0];
    hide Spells, StringEnd, OperatorLength, Escaped, Quoted, Next;
    StringEnds(buf, pos + 1, s);
    NextHere(buf, pos);
    NoOperator(buf, pos);
  }

  lemma QuotedReads(s: string)
    ensures StringFrom(Quoted(s), 1) == Some(s)
    ensures |Quoted(s)| >= 2 && Quoted(s)[0] == '"' && Quoted(s)[|Quoted(s)| - 1] == '"'
  {
    var rest := Escaped(s) + "\"";
    assert Quoted(s) == "\"" + rest;
    StringEnds(Quoted(s), 1, s);
  }

  // ---------- Keys ----------

  /** Keys the parser, which takes them raw, reads back. */
  predicate PlainKey(k: string) {
    k != [] && forall i :: 0 <= i < |k| ==> k[i] != '\0' && EscapeOf(k[i]) == [k[i]]
  }

  predicate PlainKeys(v: Json) {
    match v
    case Array(items) => forall x :: x in items ==> PlainKeys(x)
    case Object(pairs) => forall p :: p in pairs ==> PlainKey(p.key) && PlainKeys(p.value)
    case _ => true
  }

  predicate NoEscapes(k: string) {
    forall i :: 0 <= i < |k| ==> EscapeOf(k[i]) == [k[i]]
  }

  lemma NoEscapesFront(k: string)
    requires k != []
    ensures NoEscapes(k) <==> EscapeOf(k[0]) == [k[0]] && NoEscapes(k[1..])
  {
    if EscapeOf(k[0]) == [k[0]] && NoEscapes(k[1..]) {
      forall i | 0 <= i < |k| ensures EscapeOf(k[i]) == [k[i]] {
        assert i > 0 ==> k[1..][i - 1] == k[i];
      }
    }
  }

  lemma {:induction false} EscapedSame(k: string)
    ensures |Escaped(k)| >= |k|
    ensures Escaped(k) == k <==> NoEscapes(k)
  {
    if k != [] {
      var c, r := EscapeOf(k[0]), Escaped(k[1..]);
      EscapedSame(k[1..]);
      NoEscapesFront(k);
      assert Escaped(k) == c + r && k == [k[0]] + k[1..];
      assert |c| == 1 ==> c == [k[0]];
      hide EscapeOf, Escaped, NoEscapes;
      if Escaped(k) == k {
        assert |c| == 1;
        assert (c + r)[1..] == r;
      }
    }
  }

  lemma {:induction false} EscapedNul(k: string)
    requires '\0' !in k
    ensures '\0' !in Escaped(k)
  {
    if k != [] {
      EscapedNul(k[1..]);
      assert '\0' !in EscapeOf(k[0]);
    }
  }

  lemma RawIsPlain(k: string, s: string, j: nat)
    requires k != [] && s == Escaped(k) && j == Span(NotNul, s, 0)
    ensures s[..j] == k <==> PlainKey(k)
  {
    EscapedSame(k);
    if s[..j] == k {
      assert forall i :: 0 <= i < |k| ==> k[i] == s[i];
      EscapedNul(k);
      forall i | 0 <= i < |s| ensures s[i] != '\0' {
        assert s[i] in s;
      }
      NoNulEnd(s);
    }
    if PlainKey(k) {
      NoNulEnd(s);
    }
  }

  /** A raw key is the key itself exactly if it is plain. */
  lemma KeyReads(buf: string, pos: nat, k: string)
    requires Spells(buf, pos, Quoted(k))
    ensures Literal(buf, pos + 1, |Quoted(k)| - 2) == k <==> PlainKey(k)
  {
    var s := Escaped(k);
    var rest := s + "\"";
    assert Quoted(k) == "\"" + rest;
    SpellsSplit(buf, pos, "\"", rest);
    SpellsSplit(buf, pos + 1, s, "\"");
    hide Spells, Span, Escaped, Literal;
    if k == [] {
      assert s == [] by {
        EmptyEscaped();
      }
      EmptyKey(buf, pos + 1);
    } else {
      EscapedSame(k);
      RawKey(buf, pos + 1, s);
      RawIsPlain(k, s, Span(NotNul, s, 0));
    }
  }

  lemma EmptyEscaped()
    ensures Escaped("") == ""
  {}

  /** An empty key is read on to the end of the buffer, its closing quote included. */
  lemma EmptyKey(buf: string, pos: nat)
    requires Spells(buf, pos, "\"")
    ensures Literal(buf, pos, 0) != []
  {
    assert buf[pos + 0] == "\""[0];
    assert buf[..|buf|] == buf;
  }

  lemma NoNulEnd(s: string)
    requires forall i :: 0 <= i < |s| ==> s[i] != '\0'
    ensures Span(NotNul, s, 0) == |s|
  {
    SpanIs(NotNul, s, 0, |s|);
  }

  /** A longer key is what stands between the quotes, up to a NUL. */
  lemma RawKey(buf: string, pos: nat, s: string)
    requires Spells(buf, pos, s) && s != []
    ensures Literal(buf, pos, |s|) == s[..Span(NotNul, s, 0)]
  {
    var e := Span(NotNul, s, 0);
    var cut := buf[..pos + |s|];
    forall i | pos <= i < pos + e ensures NotNul(cut[i]) {
      assert buf[pos + (i - pos)] == s[i - pos];
    }
    assert e < |s| ==> buf[pos + e] == s[e];
    SpanIs(NotNul, cut, pos, pos + e);
    forall i | 0 <= i < e ensures buf[pos..pos + e][i] == s[..e][i] {
      assert buf[pos + i] == s[i];
    }
  }

  // ---------- Values ----------

  /** The parser reads the value printed at pos, up to the raw reading of keys. */
  ghost predicate Reads(buf: string, pos: nat, v: Json, w: Json, end: nat)
    requires pos <= |buf|
  {
    ParseValue(buf, pos) == Ok(w, end) && (w == v <==> PlainKeys(v))
  }

  lemma WordReads(buf: string, pos: nat, v: Json, w: string, e: nat)
    requires (v == Null && w == "null") || (v == Bool(true) && w == "true") || (v == Bool(false) && w == "false")
    requires Spells(buf, pos, w) && e == pos + |w| && Ends(buf, e)
    ensures pos < e <= |buf| && Reads(buf, pos, v, v, e)
  {
    WordNext(buf, pos, w, e);
  }

  lemma {:induction false} NotFloat(n: int)
    ensures !IsFloat(Signed(n)) && |Signed(n)| > 0
  {
    var w := Signed(n);
    var d := if n < 0 then Dec(0 - n) else Dec(n);
    forall i | 0 <= i < |w| ensures IsDigit(w[i]) || w[i] == '-' {
      assert n < 0 && i > 0 ==> w[i] == d[i - 1];
    }
  }

  lemma NumberReads(buf: string, pos: nat, n: int, e: nat)
    requires 0 - I64 <= n < I64 && Spells(buf, pos, Signed(n)) && e == pos + |Signed(n)| && Ends(buf, e)
    ensures pos < e <= |buf| && Reads(buf, pos, Int(n), Int(n), e)
  {
    hide Spells, Ends, Next, Signed, Int64Of, IsFloat;
    NumberNext(buf, pos, n, e);
    NotFloat(n);
    Int64RoundTrip(n);
  }

  lemma StringReads(buf: string, pos: nat, s: string, e: nat)
    requires Spells(buf, pos, Quoted(s)) && e == pos + |Quoted(s)|
    ensures pos < e <= |buf| && Reads(buf, pos, Str(s), Str(s), e)
  {
    hide Spells, Next, Quoted, StringFrom;
    QuotedNext(buf, pos, s, e);
    QuotedReads(s);
  }

  /** A value is looked for from its first token on. */
  lemma SameNext(buf: string, p: nat, q: nat)
    requires p <= |buf| && q <= |buf| && Next(buf, p) == Next(buf, q)
    ensures ParseValue(buf, p) == ParseValue(buf, q)
  {
    hide Next;
  }

  lemma BreakBlank(indent: nat, level: nat)
    ensures Blank(Break(indent)) && Blank(Margin(indent, level)) && Blank(Gap(indent)) && Blank(Break(indent) + Margin(indent, level))
  {}

  /** A value never starts with a closing bracket or a colon. */
  lemma NotClosing(buf: string, p: nat)
    requires p <= |buf| && ParseValue(buf, p).Ok?
    ensures Next(buf, p).Lexed? && Next(buf, p).tok.kind != RBracket && Next(buf, p).tok.kind != RBrace
  {
    hide Next;
  }

  lemma FirstCharacter(v: Json, indent: nat, level: nat)
    requires Exact(v)
    ensures TextOf(v, indent, level) != "" && TextOf(v, indent, level)[0] != ':'
  {
    if v.Int? && v.n < 0 {
      assert Signed(v.n)[0] == '-';
    }
  }

  // ---------- Arrays ----------

  lemma ItemLayout(m: string, t: string, s: string, b: string, rest: string, close: string)
    ensures ((m + t + s + b) + rest) + close == m + (t + (s + (b + (rest + close))))
  {}

  /** Where the pieces of an element's line lie. */
  lemma ItemPieces(buf: string, pos: nat, m: string, t: string, s: string, b: string, rest: string, close: string, p1: nat, p2: nat, p3: nat, p4: nat)
    requires Spells(buf, pos, ((m + t + s + b) + rest) + close)
    requires p1 == pos + |m| && p2 == p1 + |t| && p3 == p2 + |s| && p4 == p3 + |b|
    ensures Spells(buf, pos, m) && Spells(buf, p1, t) && Spells(buf, p2, s) && Spells(buf, p3, b) && Spells(buf, p4, rest + close)
  {
    hide Spells;
    ItemLayout(m, t, s, b, rest, close);
    SpellsSplit(buf, pos, m, t + (s + (b + (rest + close))));
    SpellsSplit(buf, p1, t, s + (b + (rest + close)));
    SpellsSplit(buf, p2, s, b + (rest + close));
    SpellsSplit(buf, p3, b, rest + close);
  }

  /** The text between the last element and the closing bracket. */
  function Closing(indent: nat, level: nat, bracket: string): string {
    Margin(indent, level) + bracket
  }

  /** What stands right behind an element ends it. */
  lemma ItemEnds(buf: string, p2: nat, more: bool, indent: nat, level: nat, rest: string, bracket: string, p3: nat, p4: nat)
    requires Spells(buf, p2, Separator(more)) && p3 == p2 + |Separator(more)| && Spells(buf, p3, Break(indent)) && p4 == p3 + |Break(indent)|
    requires Spells(buf, p4, rest + Closing(indent, level, bracket)) && (!more ==> rest == "") && (bracket == "]" || bracket == "}")
    ensures Ends(buf, p2)
  {
    if more {
      assert buf[p2 + 0] == ","[0];
    } else if indent > 0 {
      assert buf[p3 + 0] == "\n"[0];
    } else {
      assert rest + Closing(indent, level, bracket) == bracket;
      assert buf[p4 + 0] == bracket[0];
    }
  }

  lemma ClosePieces(buf: string, q: nat, indent: nat, level: nat, bracket: string, e: nat)
    requires Spells(buf, q, "" + Closing(indent, level, bracket)) && |bracket| == 1 && e == q + |Margin(indent, level)|
    ensures Spells(buf, q, Margin(indent, level)) && e < |buf| && buf[e] == bracket[0] && q + |Closing(indent, level, bracket)| == e + 1
  {
    assert "" + Closing(indent, level, bracket) == Margin(indent, level) + bracket;
    SpellsSplit(buf, q, Margin(indent, level), bracket);
    assert buf[e + 0] == bracket[0];
  }

  /** The closing bracket is found behind the last line break and margin. */
  lemma CloseNext(buf: string, p: nat, indent: nat, level: nat, bracket: string, k: Kind, q: nat, end: nat)
    requires Spells(buf, p, Break(indent)) && q == p + |Break(indent)| && Spells(buf, q, "" + Closing(indent, level, bracket))
    requires (bracket == "]" && k == RBracket) || (bracket == "}" && k == RBrace)
    requires end == q + |Closing(indent, level, bracket)|
    ensures p <= end <= |buf| && Next(buf, p).Lexed? && Next(buf, p).tok.kind == k && Next(buf, p).end == end
  {
    hide Spells, Next, Closing, Break, Margin, Blank;
    var e := q + |Margin(indent, level)|;
    ClosePieces(buf, q, indent, level, bracket, e);
    BreakBlank(indent, level);
    SkipBlanks(buf, p, Break(indent), q);
    SkipBlanks(buf, q, Margin(indent, level), e);
    DelimNext(buf, e, bracket[0], k, end);
  }

  lemma CommaNext(buf: string, p: nat, e: nat)
    requires Spells(buf, p, ",") && e == p + 1
    ensures p < e <= |buf| && Next(buf, p) == Lexed(Token(Comma, p, 1), e)
  {
    assert buf[p + 0] == ","[0];
    DelimNext(buf, p, ',', Comma, e);
  }

  ghost predicate AllPlain(items: seq<Json>) {
    forall x :: x in items ==> PlainKeys(x)
  }

  lemma AllPlainNext(items: seq<Json>, w: Json, ws: seq<Json>)
    requires items != [] && (w == items[0] <==> PlainKeys(items[0])) && (ws == items[1..] <==> AllPlain(items[1..]))
    ensures [w] + ws == items <==> AllPlain(items)
  {
    assert items == [items[0]] + items[1..];
    if [w] + ws == items {
      assert ([w] + ws)[0] == w && ([w] + ws)[1..] == ws;
    }
  }

  lemma SameItems(buf: string, p: nat, q: nat, acc: seq<Json>)
    requires p <= |buf| && q <= |buf| && Next(buf, p) == Next(buf, q)
    ensures ParseItems(buf, p, acc) == ParseItems(buf, q, acc)
  {
    SameNext(buf, p, q);
    hide Next, ParseValue;
  }

  lemma ItemsClose(buf: string, pos: nat, acc: seq<Json>, w: Json, e: nat, end: nat)
    requires pos <= |buf| && ParseValue(buf, pos) == Ok(w, e) && e <= |buf|
    requires Next(buf, e).Lexed? && Next(buf, e).tok.kind == RBracket && Next(buf, e).end == end
    ensures ParseItems(buf, pos, acc) == Ok(Array(acc + [w]), end)
  {
    hide Next, ParseValue;
  }

  lemma ItemsComma(buf: string, pos: nat, acc: seq<Json>, w: Json, e: nat, f: nat)
    requires pos <= |buf| && ParseValue(buf, pos) == Ok(w, e) && e <= |buf| && f <= |buf|
    requires Next(buf, e).Lexed? && Next(buf, e).tok.kind == Comma && Next(buf, f) == Next(buf, Next(buf, e).end)
    ensures ParseItems(buf, pos, acc) == ParseItems(buf, f, acc + [w])
  {
    SameItems(buf, f, Next(buf, e).end, acc + [w]);
    hide Next, ParseValue;
  }

  /** The first element's line and where its pieces lie. */
  lemma FirstItem(buf: string, pos: nat, items: seq<Json>, indent: nat, level: nat, p1: nat, p2: nat, p3: nat, p4: nat)
    requires items != [] && forall x :: x in items ==> Exact(x)
    requires Spells(buf, pos, ItemsText(items, indent, level) + Closing(indent, level, "]"))
    requires p1 == pos + |Margin(indent, level + 1)| && p2 == p1 + |TextOf(items[0], indent, level + 1)|
    requires p3 == p2 + |Separator(|items| > 1)| && p4 == p3 + |Break(indent)|
    ensures Spells(buf, p1, TextOf(items[0], indent, level + 1)) && Spells(buf, p2, Separator(|items| > 1)) && Spells(buf, p3, Break(indent))
    ensures Spells(buf, p4, ItemsText(items[1..], indent, level) + Closing(indent, level, "]"))
    ensures Next(buf, pos) == Next(buf, p1) && Ends(buf, p2)
    ensures Exact(items[0]) && forall x :: x in items[1..] ==> Exact(x)
    ensures if |items| > 1 then Separator(true) == "," else Separator(false) == "" && ItemsText(items[1..], indent, level) == ""
    ensures pos + |ItemsText(items, indent, level) + Closing(indent, level, "]")| == p4 + |ItemsText(items[1..], indent, level) + Closing(indent, level, "]")|
  {
    var m, t, s, b := Margin(indent, level + 1), TextOf(items[0], indent, level + 1), Separator(|items| > 1), Break(indent);
    var rest, close := ItemsText(items[1..], indent, level), Closing(indent, level, "]");
    assert ItemsText(items, indent, level) == (m + t + s + b) + rest;
    hide Spells, Next, TextOf, Margin, Break, Closing, Separator;
    ItemPieces(buf, pos, m, t, s, b, rest, close, p1, p2, p3, p4);
    ItemEnds(buf, p2, |items| > 1, indent, level, rest, "]", p3, p4);
    BreakBlank(indent, level + 1);
    SkipBlanks(buf, pos, m, p1);
  }

  /** Behind an element that is not the last: a comma, and the next line. */
  lemma CommaRest(buf: string, p2: nat, b: string, p3: nat, p4: nat)
    requires Spells(buf, p2, ",") && p3 == p2 + 1 && Spells(buf, p3, b) && p4 == p3 + |b| && Blank(b)
    ensures p2 < p3 <= p4 <= |buf|
    ensures Next(buf, p2) == Lexed(Token(Comma, p2, 1), p3) && Next(buf, p4) == Next(buf, p3)
  {
    hide Next, Blank;
    CommaNext(buf, p2, p3);
    SkipBlanks(buf, p3, b, p4);
  }

  /** The first element is read; p2 is where it ends, p4 where the next line begins. */
  lemma {:induction false} FirstRead(buf: string, pos: nat, items: seq<Json>, indent: nat, level: nat, p2: nat, p3: nat, p4: nat) returns (w: Json)
    requires items != [] && forall x :: x in items ==> Exact(x)
    requires Spells(buf, pos, ItemsText(items, indent, level) + Closing(indent, level, "]"))
    requires p2 == pos + |Margin(indent, level + 1)| + |TextOf(items[0], indent, level + 1)|
    requires p3 == p2 + |Separator(|items| > 1)| && p4 == p3 + |Break(indent)|
    ensures pos < p2 <= |buf| && ParseValue(buf, pos) == Ok(w, p2) && (w == items[0] <==> PlainKeys(items[0]))
    ensures Spells(buf, p2, Separator(|items| > 1)) && Spells(buf, p3, Break(indent))
    ensures Spells(buf, p4, ItemsText(items[1..], indent, level) + Closing(indent, level, "]"))
    ensures if |items| > 1 then Separator(true) == "," else Separator(false) == "" && ItemsText(items[1..], indent, level) == ""
    ensures pos + |ItemsText(items, indent, level) + Closing(indent, level, "]")| == p4 + |ItemsText(items[1..], indent, level) + Closing(indent, level, "]")|
    decreases items, 0
  {
    hide Spells, Next, ParseValue, TextOf, ItemsText, Margin, Break, Closing, Separator, PlainKeys, Ends, Exact;
    var p1 := pos + |Margin(indent, level + 1)|;
    FirstItem(buf, pos, items, indent, level, p1, p2, p3, p4);
    w := Reread(buf, p1, items[0], indent, level + 1, p2);
    SameNext(buf, pos, p1);
  }

  lemma LastItem(buf: string, pos: nat, items: seq<Json>, acc: seq<Json>, indent: nat, level: nat, w: Json, p2: nat, q: nat, end: nat)
    requires |items| == 1 && pos <= |buf| && ParseValue(buf, pos) == Ok(w, p2) && (w == items[0] <==> PlainKeys(items[0]))
    requires Spells(buf, p2, Break(indent)) && q == p2 + |Break(indent)| && Spells(buf, q, "" + Closing(indent, level, "]"))
    requires end == q + |"" + Closing(indent, level, "]")|
    ensures ParseItems(buf, pos, acc) == Ok(Array(acc + [w]), end) && ([w] == items <==> AllPlain(items))
  {
    hide Spells, Next, ParseValue, ParseItems, Margin, Break, Closing, PlainKeys;
    assert "" + Closing(indent, level, "]") == Closing(indent, level, "]");
    CloseNext(buf, p2, indent, level, "]", RBracket, q, end);
    ItemsClose(buf, pos, acc, w, p2, end);
    AllPlainNext(items, w, []);
  }

  lemma NextItem(buf: string, pos: nat, acc: seq<Json>, w: Json, b: string, p2: nat, p3: nat, p4: nat)
    requires pos <= |buf| && ParseValue(buf, pos) == Ok(w, p2) && Spells(buf, p2, ",") && p3 == p2 + 1
    requires Spells(buf, p3, b) && p4 == p3 + |b| && Blank(b)
    ensures p4 <= |buf| && ParseItems(buf, pos, acc) == ParseItems(buf, p4, acc + [w])
  {
    hide Next, ParseValue, ParseItems, Blank;
    CommaRest(buf, p2, b, p3, p4);
    ItemsComma(buf, pos, acc, w, p2, p4);
  }

  lemma {:induction false} RereadItems(buf: string, pos: nat, items: seq<Json>, acc: seq<Json>, indent: nat, level: nat, end: nat) returns (ws: seq<Json>)
    requires items != [] && forall x :: x in items ==> Exact(x)
    requires Spells(buf, pos, ItemsText(items, indent, level) + Closing(indent, level, "]"))
    requires end == pos + |ItemsText(items, indent, level) + Closing(indent, level, "]")|
    ensures pos < end <= |buf| && ParseItems(buf, pos, acc) == Ok(Array(acc + ws), end) && (ws == items <==> AllPlain(items))
    ensures ParseValue(buf, pos).Ok?
    decreases items, 1
  {
    hide Spells, ParseValue, ParseItems, TextOf, ItemsText, Margin, Break, Closing, Separator, PlainKeys, AllPlain, Exact, Blank;
    var more := |items| > 1;
    var p2 := pos + |Margin(indent, level + 1)| + |TextOf(items[0], indent, level + 1)|;
    var p3 := p2 + |Separator(more)|;
    var p4 := p3 + |Break(indent)|;
    var w := FirstRead(buf, pos, items, indent, level, p2, p3, p4);
    if more {
      BreakBlank(indent, level);
      NextItem(buf, pos, acc, w, Break(indent), p2, p3, p4);
      ws := RereadItems(buf, p4, items[1..], acc + [w], indent, level, end);
      AllPlainNext(items, w, ws);
      assert acc + [w] + ws == acc + ([w] + ws);
      ws := [w] + ws;
    } else {
      LastItem(buf, pos, items, acc, indent, level, w, p2, p4, end);
      ws := [w];
    }
  }

  /** The leaves of a value. */
  lemma LeafReads(buf: string, pos: nat, v: Json, indent: nat, level: nat, e: nat)
    requires Exact(v) && !v.Array? && !v.Object? && Spells(buf, pos, TextOf(v, indent, level)) && e == pos + |TextOf(v, indent, level)| && Ends(buf, e)
    ensures pos < e <= |buf| && Reads(buf, pos, v, v, e)
  {
    hide Spells, Ends, Reads, Signed, Quoted;
    match v
    case Null => WordReads(buf, pos, v, "null", e);
    case Bool(x) => WordReads(buf, pos, v, if x then "true" else "false", e);
    case Int(n) => NumberReads(buf, pos, n, e);
    case Str(s) => StringReads(buf, pos, s, e);
  }

  lemma {:induction false} Reread(buf: string, pos: nat, v: Json, indent: nat, level: nat, e: nat) returns (w: Json)
    requires Exact(v) && Spells(buf, pos, TextOf(v, indent, level)) && e == pos + |TextOf(v, indent, level)| && Ends(buf, e)
    ensures pos < e <= |buf| && Reads(buf, pos, v, w, e)
    decreases v, 1
  {
    hide Exact, Spells, Ends, TextOf, Reads;
    if v.Array? {
      w := RereadArray(buf, pos, v, indent, level, e);
    } else if v.Object? {
      w := RereadObject(buf, pos, v, indent, level, e);
    } else {
      LeafReads(buf, pos, v, indent, level, e);
      w := v;
    }
  }

  /** Where the pieces of a printed array lie. */
  lemma ArrayPieces(buf: string, pos: nat, v: Json, indent: nat, level: nat, p: nat, q: nat, e: nat)
    requires v.Array? && Exact(v) && v.items != [] && Spells(buf, pos, TextOf(v, indent, level)) && e == pos + |TextOf(v, indent, level)|
    requires p == pos + 1 && q == p + |Break(indent)|
    ensures forall x :: x in v.items ==> Exact(x)
    ensures Spells(buf, pos, "[") && Spells(buf, p, Break(indent)) && Blank(Break(indent))
    ensures Spells(buf, q, ItemsText(v.items, indent, level) + Closing(indent, level, "]"))
    ensures e == q + |ItemsText(v.items, indent, level) + Closing(indent, level, "]")|
  {
    BreakBlank(indent, level);
    var b, all, m := Break(indent), ItemsText(v.items, indent, level), Margin(indent, level);
    assert TextOf(v, indent, level) == "[" + b + all + m + "]";
    hide Spells, TextOf, ItemsText, Break, Margin;
    Opened(buf, pos, "[", b, all, m, "]", p, q);
  }

  lemma {:induction false} RereadArray(buf: string, pos: nat, v: Json, indent: nat, level: nat, e: nat) returns (w: Json)
    requires v.Array? && Exact(v) && Spells(buf, pos, TextOf(v, indent, level)) && e == pos + |TextOf(v, indent, level)|
    ensures pos < e <= |buf| && Reads(buf, pos, v, w, e)
    decreases v, 0
  {
    if v.items == [] {
      assert TextOf(v, indent, level) == "[]";
      EmptyArray(buf, pos, e);
      w := v;
    } else {
      hide Spells, ParseItems, ParseValue, PlainKeys, TextOf, ItemsText, Break, Closing, AllPlain, Exact, Blank;
      var p := pos + 1;
      var q := p + |Break(indent)|;
      ArrayPieces(buf, pos, v, indent, level, p, q, e);
      var ws := RereadItems(buf, q, v.items, [], indent, level, e);
      ArrayOpens(buf, pos, Break(indent), p, q);
      assert [] + ws == ws;
      w := Array(ws);
      ArrayPlain(v.items, ws);
    }
  }

  lemma ArrayPlain(items: seq<Json>, ws: seq<Json>)
    requires ws == items <==> AllPlain(items)
    ensures Array(ws) == Array(items) <==> PlainKeys(Array(items))
  {}

  lemma EmptyArray(buf: string, pos: nat, e: nat)
    requires Spells(buf, pos, "[]") && e == pos + 2
    ensures e <= |buf| && ParseValue(buf, pos) == Ok(Array([]), e)
  {
    var p := pos + 1;
    assert buf[pos + 0] == "[]"[0] && buf[p] == "[]"[1];
    hide Spells, Next;
    DelimNext(buf, pos, '[', LBracket, p);
    DelimNext(buf, p, ']', RBracket, e);
  }

  lemma Opened(buf: string, pos: nat, bracket: string, b: string, all: string, margin: string, close: string, p: nat, q: nat)
    requires |bracket| == 1 && Spells(buf, pos, bracket + b + all + margin + close) && p == pos + 1 && q == p + |b|
    ensures Spells(buf, pos, bracket) && Spells(buf, p, b) && Spells(buf, q, all + (margin + close))
  {
    hide Spells;
    assert bracket + b + all + margin + close == bracket + (b + (all + (margin + close)));
    SpellsSplit(buf, pos, bracket, b + (all + (margin + close)));
    SpellsSplit(buf, p, b, all + (margin + close));
  }

  lemma BracketNext(buf: string, pos: nat, bracket: string, k: Kind, p: nat)
    requires Spells(buf, pos, bracket) && ((bracket == "[" && k == LBracket) || (bracket == "{" && k == LBrace)) && p == pos + 1
    ensures pos < p <= |buf| && Next(buf, pos) == Lexed(Token(k, pos, 1), p)
  {
    assert buf[pos + 0] == bracket[0];
    DelimNext(buf, pos, bracket[0], k, p);
  }

  /** An opening bracket, a line break, and then the elements. */
  lemma ArrayOpens(buf: string, pos: nat, b: string, p: nat, q: nat)
    requires Spells(buf, pos, "[") && p == pos + 1 && Spells(buf, p, b) && Blank(b) && q == p + |b| && q <= |buf| && ParseValue(buf, q).Ok?
    ensures pos < p <= |buf| && ParseValue(buf, pos) == ParseItems(buf, q, [])
  {
    BracketNext(buf, pos, "[", LBracket, p);
    hide Next, ParseItems, ParseValue, Blank, Spells;
    SkipBlanks(buf, p, b, q);
    NotClosing(buf, q);
    SameItems(buf, p, q, []);
    OpensArray(buf, pos, p);
  }

  lemma OpensArray(buf: string, pos: nat, p: nat)
    requires pos < p <= |buf| && Next(buf, pos) == Lexed(Token(LBracket, pos, 1), p)
    requires Next(buf, p).Lexed? && Next(buf, p).tok.kind != RBracket
    ensures ParseValue(buf, pos) == ParseItems(buf, p, [])
  {
    hide Next, ParseItems;
  }

  // ---------- Objects ----------

  predicate PlainPair(p: Pair) {
    PlainKey(p.key) && PlainKeys(p.value)
  }

  ghost predicate AllPlainPairs(pairs: seq<Pair>) {
    forall p :: p in pairs ==> PlainPair(p)
  }

  lemma AllPairsNext(pairs: seq<Pair>, w: Pair, ws: seq<Pair>)
    requires pairs != [] && (w == pairs[0] <==> PlainPair(pairs[0])) && (ws == pairs[1..] <==> AllPlainPairs(pairs[1..]))
    ensures [w] + ws == pairs <==> AllPlainPairs(pairs)
  {
    assert pairs == [pairs[0]] + pairs[1..];
    if [w] + ws == pairs {
      assert ([w] + ws)[0] == w && ([w] + ws)[1..] == ws;
    }
  }

  lemma SamePairs(buf: string, p: nat, q: nat, acc: seq<Pair>)
    requires p <= |buf| && q <= |buf| && Next(buf, p) == Next(buf, q)
    ensures ParsePair(buf, p) == ParsePair(buf, q) && ParsePairs(buf, p, acc) == ParsePairs(buf, q, acc)
  {
    hide Next, ParseValue;
  }

  lemma PairLayout(m: string, k: string, c: string, g: string, t: string, s: string, b: string, rest: string, close: string)
    ensures ((m + k + c + g + t + s + b) + rest) + close == m + (k + (c + (g + (t + (s + (b + (rest + close)))))))
  {}

  /** Where the pieces of a member's line lie. */
  lemma PairPieces(buf: string, pos: nat, m: string, k: string, g: string, t: string, s: string, b: string, rest: string, close: string,
                   p0: nat, p1: nat, p2: nat, p3: nat, p4: nat, p5: nat, p6: nat)
    requires Spells(buf, pos, ((m + k + ":" + g + t + s + b) + rest) + close)
    requires p0 == pos + |m| && p1 == p0 + |k| && p2 == p1 + 1 && p3 == p2 + |g| && p4 == p3 + |t| && p5 == p4 + |s| && p6 == p5 + |b|
    ensures Spells(buf, pos, m) && Spells(buf, p0, k) && Spells(buf, p1, ":") && Spells(buf, p2, g) && Spells(buf, p3, t)
    ensures Spells(buf, p4, s) && Spells(buf, p5, b) && Spells(buf, p6, rest + close)
  {
    hide Spells;
    var r6 := rest + close;
    var r5 := b + r6;
    var r4 := s + r5;
    var r3 := t + r4;
    var r2 := g + r3;
    var r1 := ":" + r2;
    PairLayout(m, k, ":", g, t, s, b, rest, close);
    SpellsSplit(buf, pos, m, k + r1);
    SpellsSplit(buf, p0, k, r1);
    SpellsSplit(buf, p1, ":", r2);
    SpellsSplit(buf, p2, g, r3);
    SpellsSplit(buf, p3, t, r4);
    SpellsSplit(buf, p4, s, r5);
    SpellsSplit(buf, p5, b, r6);
  }

  /** Where the pieces of the first member's line begin. */
  datatype Places = Places(key: nat, colon: nat, gap: nat, value: nat, end: nat, brk: nat, next: nat)

  function PlacesOf(pos: nat, p: Pair, more: bool, indent: nat, level: nat): Places
    requires Exact(p.value)
  {
    var key := pos + |Margin(indent, level + 1)|;
    var colon := key + |Quoted(p.key)|;
    var gap := colon + 1;
    var value := gap + |Gap(indent)|;
    var end := value + |TextOf(p.value, indent, level + 1)|;
    var brk := end + |Separator(more)|;
    Places(key, colon, gap, value, end, brk, brk + |Break(indent)|)
  }

  lemma FirstPair(buf: string, pos: nat, pairs: seq<Pair>, indent: nat, level: nat, x: Places)
    requires pairs != [] && forall p :: p in pairs ==> Exact(p.value)
    requires Spells(buf, pos, PairsText(pairs, indent, level) + Closing(indent, level, "}"))
    requires x == PlacesOf(pos, pairs[0], |pairs| > 1, indent, level)
    ensures Spells(buf, pos, Margin(indent, level + 1)) && x.key == pos + |Margin(indent, level + 1)|
    ensures Spells(buf, x.key, Quoted(pairs[0].key)) && x.colon == x.key + |Quoted(pairs[0].key)| && Spells(buf, x.colon, ":") && x.gap == x.colon + 1
    ensures Spells(buf, x.gap, Gap(indent)) && x.value == x.gap + |Gap(indent)|
    ensures Spells(buf, x.value, TextOf(pairs[0].value, indent, level + 1))
    ensures x.end == x.value + |TextOf(pairs[0].value, indent, level + 1)| && Ends(buf, x.end)
    ensures Spells(buf, x.end, Separator(|pairs| > 1)) && x.brk == x.end + |Separator(|pairs| > 1)|
    ensures Spells(buf, x.brk, Break(indent)) && x.next == x.brk + |Break(indent)|
    ensures Spells(buf, x.next, PairsText(pairs[1..], indent, level) + Closing(indent, level, "}"))
    ensures if |pairs| > 1 then Separator(true) == "," else Separator(false) == "" && PairsText(pairs[1..], indent, level) == ""
    ensures pos + |PairsText(pairs, indent, level) + Closing(indent, level, "}")| ==
            x.next + |PairsText(pairs[1..], indent, level) + Closing(indent, level, "}")|
  {
    var m, k, g := Margin(indent, level + 1), Quoted(pairs[0].key), Gap(indent);
    var t, s, b := TextOf(pairs[0].value, indent, level + 1), Separator(|pairs| > 1), Break(indent);
    var rest, close := PairsText(pairs[1..], indent, level), Closing(indent, level, "}");
    assert PairsText(pairs, indent, level) == (m + k + ":" + g + t + s + b) + rest;
    hide Spells, TextOf, Margin, Break, Closing, Separator, Gap, Quoted;
    PairPieces(buf, pos, m, k, g, t, s, b, rest, close, x.key, x.colon, x.gap, x.value, x.end, x.brk, x.next);
    ItemEnds(buf, x.end, |pairs| > 1, indent, level, rest, "}", x.brk, x.next);
  }

  /** A colon in an object is never the start of "::". */
  lemma ColonNext(buf: string, p: nat, q: nat, g: string, r: nat, t: string)
    requires Spells(buf, p, ":") && q == p + 1 && Spells(buf, q, g) && r == q + |g| && Spells(buf, r, t)
    requires (g == "" || g == " ") && t != "" && t[0] != ':'
    ensures p < q <= |buf| && Next(buf, p) == Lexed(Token(Colon, p, 1), q)
  {
    assert buf[p + 0] == ":"[0];
    assert buf[r + 0] == t[0];
    assert g == " " ==> buf[q + 0] == g[0];
    DelimNext(buf, p, ':', Colon, q);
  }

  /** The parts of one member put together. */
  lemma PairStep(buf: string, pos: nat, key: nat, colon: nat, gap: nat, value: nat, end: nat, w: Json, raw: string, n: nat)
    requires pos <= |buf| && key <= colon <= |buf| && gap <= |buf| && value <= |buf| && n >= 2 && key + n <= |buf|
    requires Next(buf, pos) == Lexed(Token(Text, key, n), colon) && raw == Literal(buf, key + 1, n - 2)
    requires Next(buf, colon) == Lexed(Token(Colon, colon, 1), gap) && ParseValue(buf, gap) == Ok(w, end)
    ensures ParsePair(buf, pos) == PairOk(Pair(raw, w), end)
  {
    hide Next, ParseValue, Literal;
  }

  lemma ReadKey(buf: string, key: nat, k: string, colon: nat) returns (raw: string)
    requires Spells(buf, key, Quoted(k)) && colon == key + |Quoted(k)|
    ensures |Quoted(k)| >= 2 && colon <= |buf| && raw == Literal(buf, key + 1, |Quoted(k)| - 2) && (raw == k <==> PlainKey(k))
    ensures Next(buf, key) == Lexed(Token(Text, key, |Quoted(k)|), colon)
  {
    hide Spells, Next, Literal;
    QuotedNext(buf, key, k, colon);
    KeyReads(buf, key, k);
    raw := Literal(buf, key + 1, |Quoted(k)| - 2);
  }

  /** Up to its value a member is a key and a colon. */
  lemma PairFront(buf: string, pos: nat, m: string, k: string, g: string, t: string, key: nat, colon: nat, gap: nat, value: nat) returns (raw: string)
    requires Spells(buf, pos, m) && Blank(m) && key == pos + |m| && Spells(buf, key, Quoted(k)) && colon == key + |Quoted(k)|
    requires Spells(buf, colon, ":") && gap == colon + 1 && Spells(buf, gap, g) && value == gap + |g| && Spells(buf, value, t)
    requires (g == "" || g == " ") && t != "" && t[0] != ':'
    ensures pos <= key < colon < gap <= value <= |buf| && 2 <= |Quoted(k)| && raw == Literal(buf, key + 1, |Quoted(k)| - 2) && (raw == k <==> PlainKey(k))
    ensures Next(buf, pos) == Lexed(Token(Text, key, |Quoted(k)|), colon)
    ensures Next(buf, colon) == Lexed(Token(Colon, colon, 1), gap) && Next(buf, gap) == Next(buf, value)
  {
    assert Blank(g);
    hide Spells, Next, Quoted, Literal, PlainKey, Blank;
    SkipBlanks(buf, pos, m, key);
    raw := ReadKey(buf, key, k, colon);
    ColonNext(buf, colon, gap, g, value, t);
    SkipBlanks(buf, gap, g, value);
  }

  lemma PairPlain(p: Pair, raw: string, v: Json)
    requires (raw == p.key <==> PlainKey(p.key)) && (v == p.value <==> PlainKeys(p.value))
    ensures Pair(raw, v) == p <==> PlainPair(p)
  {}

  lemma {:induction false} RereadPair(buf: string, pos: nat, p: Pair, m: string, g: string, t: string, indent: nat, level: nat,
                                      key: nat, colon: nat, gap: nat, value: nat, end: nat, n: nat) returns (w: Pair)
    requires Exact(p.value) && Blank(m) && (g == "" || g == " ") && t == TextOf(p.value, indent, level) && n == |Quoted(p.key)|
    requires Spells(buf, pos, m) && key == pos + |m| && Spells(buf, key, Quoted(p.key)) && colon == key + n
    requires Spells(buf, colon, ":") && gap == colon + 1 && Spells(buf, gap, g) && value == gap + |g|
    requires Spells(buf, value, t) && end == value + |t| && Ends(buf, end)
    ensures pos < end <= |buf| && ParsePair(buf, pos) == PairOk(w, end) && (w == p <==> PlainPair(p))
    ensures Next(buf, pos).Lexed? && Next(buf, pos).tok.kind == Text
    decreases p, 0
  {
    FirstCharacter(p.value, indent, level);
    hide Spells, Next, ParseValue, ParsePair, TextOf, PlainKeys, PlainKey, PlainPair, Ends, Exact, Blank, Quoted, Literal;
    var raw := PairFront(buf, pos, m, p.key, g, t, key, colon, gap, value);
    var v := Reread(buf, value, p.value, indent, level, end);
    SameNext(buf, gap, value);
    PairStep(buf, pos, key, colon, gap, value, end, v, raw, n);
    PairPlain(p, raw, v);
    w := Pair(raw, v);
  }

  lemma PairsClose(buf: string, pos: nat, acc: seq<Pair>, w: Pair, e: nat, end: nat)
    requires pos <= |buf| && ParsePair(buf, pos) == PairOk(w, e) && e <= |buf|
    requires Next(buf, e).Lexed? && Next(buf, e).tok.kind == RBrace && Next(buf, e).end == end
    ensures ParsePairs(buf, pos, acc) == Ok(Object(acc + [w]), end)
  {
    hide Next, ParsePair;
  }

  lemma NextPair(buf: string, pos: nat, acc: seq<Pair>, w: Pair, b: string, p2: nat, p3: nat, p4: nat)
    requires pos <= |buf| && ParsePair(buf, pos) == PairOk(w, p2) && Spells(buf, p2, ",") && p3 == p2 + 1
    requires Spells(buf, p3, b) && p4 == p3 + |b| && Blank(b)
    ensures p4 <= |buf| && ParsePairs(buf, pos, acc) == ParsePairs(buf, p4, acc + [w])
  {
    CommaRest(buf, p2, b, p3, p4);
    SamePairs(buf, p3, p4, acc + [w]);
    hide Next, ParsePair, Blank;
  }

  lemma LastPair(buf: string, pos: nat, pairs: seq<Pair>, acc: seq<Pair>, indent: nat, level: nat, w: Pair, p2: nat, q: nat, end: nat)
    requires |pairs| == 1 && pos <= |buf| && ParsePair(buf, pos) == PairOk(w, p2) && (w == pairs[0] <==> PlainPair(pairs[0]))
    requires Spells(buf, p2, Break(indent)) && q == p2 + |Break(indent)| && Spells(buf, q, "" + Closing(indent, level, "}"))
    requires end == q + |"" + Closing(indent, level, "}")|
    ensures ParsePairs(buf, pos, acc) == Ok(Object(acc + [w]), end) && ([w] == pairs <==> AllPlainPairs(pairs))
  {
    hide Spells, Next, ParsePair, ParsePairs, Margin, Break, Closing, PlainPair;
    assert "" + Closing(indent, level, "}") == Closing(indent, level, "}");
    CloseNext(buf, p2, indent, level, "}", RBrace, q, end);
    PairsClose(buf, pos, acc, w, p2, end);
    AllPairsNext(pairs, w, []);
  }

  /** The first member is read; x says where the next one's line begins. */
  lemma {:induction false} FirstPairRead(buf: string, pos: nat, pairs: seq<Pair>, indent: nat, level: nat, x: Places) returns (w: Pair)
    requires pairs != [] && forall p :: p in pairs ==> Exact(p.value)
    requires Spells(buf, pos, PairsText(pairs, indent, level) + Closing(indent, level, "}"))
    requires x == PlacesOf(pos, pairs[0], |pairs| > 1, indent, level)
    ensures pos < x.end <= |buf| && ParsePair(buf, pos) == PairOk(w, x.end) && (w == pairs[0] <==> PlainPair(pairs[0]))
    ensures Next(buf, pos).Lexed? && Next(buf, pos).tok.kind == Text
    ensures Spells(buf, x.end, Separator(|pairs| > 1)) && x.brk == x.end + |Separator(|pairs| > 1)|
    ensures Spells(buf, x.brk, Break(indent)) && x.next == x.brk + |Break(indent)|
    ensures Spells(buf, x.next, PairsText(pairs[1..], indent, level) + Closing(indent, level, "}"))
    ensures if |pairs| > 1 then Separator(true) == "," else Separator(false) == "" && PairsText(pairs[1..], indent, level) == ""
    ensures pos + |PairsText(pairs, indent, level) + Closing(indent, level, "}")| ==
            x.next + |PairsText(pairs[1..], indent, level) + Closing(indent, level, "}")|
    decreases pairs, 0
  {
    hide Spells, ParsePair, TextOf, PairsText, Margin, Break, Closing, Separator, Gap, PlainPair, Exact, PlacesOf, Next, Quoted, Ends;
    FirstPair(buf, pos, pairs, indent, level, x);
    BreakBlank(indent, level + 1);
    GapIs(indent);
    w := RereadPair(buf, pos, pairs[0], Margin(indent, level + 1), Gap(indent), TextOf(pairs[0].value, indent, level + 1), indent, level + 1,
                    x.key, x.colon, x.gap, x.value, x.end, |Quoted(pairs[0].key)|);
  }

  lemma GapIs(indent: nat)
    ensures Gap(indent) == "" || Gap(indent) == " "
  {}

  lemma {:induction false} RereadPairs(buf: string, pos: nat, pairs: seq<Pair>, acc: seq<Pair>, indent: nat, level: nat, end: nat) returns (ws: seq<Pair>)
    requires pairs != [] && forall p :: p in pairs ==> Exact(p.value)
    requires Spells(buf, pos, PairsText(pairs, indent, level) + Closing(indent, level, "}"))
    requires end == pos + |PairsText(pairs, indent, level) + Closing(indent, level, "}")|
    ensures pos < end <= |buf| && ParsePairs(buf, pos, acc) == Ok(Object(acc + ws), end) && (ws == pairs <==> AllPlainPairs(pairs))
    ensures Next(buf, pos).Lexed? && Next(buf, pos).tok.kind == Text
    decreases pairs, 1
  {
    hide Spells, ParsePair, ParsePairs, PairsText, Break, Closing, Separator, PlainPair, AllPlainPairs, Exact, Blank, PlacesOf, Next;
    var x := PlacesOf(pos, pairs[0], |pairs| > 1, indent, level);
    var w := FirstPairRead(buf, pos, pairs, indent, level, x);
    if |pairs| > 1 {
      BreakBlank(indent, level);
      NextPair(buf, pos, acc, w, Break(indent), x.end, x.brk, x.next);
      ws := RereadPairs(buf, x.next, pairs[1..], acc + [w], indent, level, end);
      AllPairsNext(pairs, w, ws);
      assert acc + [w] + ws == acc + ([w] + ws);
      ws := [w] + ws;
    } else {
      LastPair(buf, pos, pairs, acc, indent, level, w, x.end, x.next, end);
      ws := [w];
    }
  }

  /** Where the pieces of a printed object lie. */
  lemma ObjectPieces(buf: string, pos: nat, v: Json, indent: nat, level: nat, p: nat, q: nat, e: nat)
    requires v.Object? && Exact(v) && v.pairs != [] && Spells(buf, pos, TextOf(v, indent, level)) && e == pos + |TextOf(v, indent, level)|
    requires p == pos + 1 && q == p + |Break(indent)|
    ensures forall p :: p in v.pairs ==> Exact(p.value)
    ensures Spells(buf, pos, "{") && Spells(buf, p, Break(indent)) && Blank(Break(indent))
    ensures Spells(buf, q, PairsText(v.pairs, indent, level) + Closing(indent, level, "}"))
    ensures e == q + |PairsText(v.pairs, indent, level) + Closing(indent, level, "}")|
  {
    BreakBlank(indent, level);
    var b, all, m := Break(indent), PairsText(v.pairs, indent, level), Margin(indent, level);
    assert TextOf(v, indent, level) == "{" + b + all + m + "}";
    hide Spells, TextOf, PairsText, Break, Margin;
    Opened(buf, pos, "{", b, all, m, "}", p, q);
  }

  lemma {:induction false} RereadObject(buf: string, pos: nat, v: Json, indent: nat, level: nat, e: nat) returns (w: Json)
    requires v.Object? && Exact(v) && Spells(buf, pos, TextOf(v, indent, level)) && e == pos + |TextOf(v, indent, level)|
    ensures pos < e <= |buf| && Reads(buf, pos, v, w, e)
    decreases v, 0
  {
    if v.pairs == [] {
      assert TextOf(v, indent, level) == "{}";
      EmptyObject(buf, pos, e);
      w := v;
    } else {
      hide Spells, ParsePairs, ParseValue, PlainKeys, TextOf, PairsText, Break, Closing, AllPlainPairs, Exact, Blank, Next;
      var p := pos + 1;
      var q := p + |Break(indent)|;
      ObjectPieces(buf, pos, v, indent, level, p, q, e);
      var ws := RereadPairs(buf, q, v.pairs, [], indent, level, e);
      ObjectOpens(buf, pos, Break(indent), p, q);
      assert [] + ws == ws;
      w := Object(ws);
      ObjectPlain(v.pairs, ws);
    }
  }

  lemma ObjectPlain(pairs: seq<Pair>, ws: seq<Pair>)
    requires ws == pairs <==> AllPlainPairs(pairs)
    ensures Object(ws) == Object(pairs) <==> PlainKeys(Object(pairs))
  {
    assert PlainKeys(Object(pairs)) <==> forall p :: p in pairs ==> PlainPair(p);
  }

  lemma EmptyObject(buf: string, pos: nat, e: nat)
    requires Spells(buf, pos, "{}") && e == pos + 2
    ensures e <= |buf| && ParseValue(buf, pos) == Ok(Object([]), e)
  {
    var p := pos + 1;
    assert buf[pos + 0] == "{}"[0] && buf[p] == "{}"[1];
    hide Spells, Next;
    DelimNext(buf, pos, '{', LBrace, p);
    DelimNext(buf, p, '}', RBrace, e);
  }

  /** An opening brace, a line break, and then the members. */
  lemma ObjectOpens(buf: string, pos: nat, b: string, p: nat, q: nat)
    requires Spells(buf, pos, "{") && p == pos + 1 && Spells(buf, p, b) && Blank(b) && q == p + |b| && q <= |buf|
    requires Next(buf, q).Lexed? && Next(buf, q).tok.kind == Text
    ensures pos < p <= |buf| && ParseValue(buf, pos) == ParsePairs(buf, q, [])
  {
    BracketNext(buf, pos, "{", LBrace, p);
    hide Next, ParsePairs, ParseValue, Blank, Spells;
    SkipBlanks(buf, p, b, q);
    SamePairs(buf, p, q, []);
    OpensObject(buf, pos, p);
  }

  lemma OpensObject(buf: string, pos: nat, p: nat)
    requires pos < p <= |buf| && Next(buf, pos) == Lexed(Token(LBrace, pos, 1), p)
    requires Next(buf, p).Lexed? && Next(buf, p).tok.kind != RBrace
    ensures ParseValue(buf, pos) == ParsePairs(buf, p, [])
  {
    hide Next, ParsePairs;
  }

  // ---------- The round trip ----------

  /** Whatever the indent, printed text parses, and to the value printed exactly if its keys are plain. */
  lemma RoundTrip(v: Json, indent: nat) returns (w: Json)
    requires Exact(v)
    ensures Parse(TextOf(v, indent, 0)) == Some(w) && (w == v <==> PlainKeys(v))
  {
    var buf := TextOf(v, indent, 0);
    var e := |buf|;
    hide TextOf, ParseValue, PlainKeys;
    w := Reread(buf, 0, v, indent, 0, e);
    SpanIs(IsBlank, buf, e, e);
  }

  /** The round trip holds for a value without floating-point numbers if and only if its keys are plain. */
  lemma RoundTripIff(v: Json, indent: nat)
    requires Exact(v)
    ensures Parse(TextOf(v, indent, 0)) == Some(v) <==> PlainKeys(v)
  {
    var w := RoundTrip(v, indent);
  }

  /** The same of the printer and the parser themselves. */
  method PrintThenParse(v: Json, indent: nat) returns (e: JsonError, w: Json)
    requires Exact(v)
    ensures e == JsonOk && (w == v <==> PlainKeys(v))
  {
    ghost var w' := RoundTrip(v, indent);
    var text := JsonSerialize(v, indent);
    e, w := JsonParse(text);
  }

  /** An empty key, printed and parsed, comes back as the rest of the text. */
  lemma EmptyKeyLost()
    ensures var v := Object([Pair("", Null)]); Exact(v) && Parse(TextOf(v, 0, 0)).Some? && Parse(TextOf(v, 0, 0)) != Some(v)
  {
    var v := Object([Pair("", Null)]);
    assert !PlainKeys(v) by {
      assert Pair("", Null) in v.pairs;
    }
    var w := RoundTrip(v, 0);
  }
}
