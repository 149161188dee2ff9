/** json_parse accepts a text exactly when it spells a value, and returns that value. */
module JsonTexts {
  import opened Decimal
  import opened JsonLexer
  import opened JsonValues
  import opened JsonGrammar
  import opened JsonSpelling

  // ---------- Every spelling parses ----------

  lemma LoneMinus(buf: string, i: nat)
    requires i + 1 < |buf| && buf[i] == '-' && buf[i + 1] in " \t\n\r-"
    ensures OperatorLength(buf, i) == 1
  {
    forall k | 0 <= k < |OPS3| ensures !Matches(buf, i, OPS3[k]) {
      assert OPS3[k][0] != '-';
    }
    forall k | 0 <= k < |OPS2| ensures !Matches(buf, i, OPS2[k]) {
      TwoCharacters(k);
    }
  }

  lemma MinusToken(buf: string, a: nat, i: nat)
    requires Blanks(buf, a, i) && i + 1 < |buf| && buf[i] == '-' && buf[i + 1] in " \t\n\r-"
    ensures Next(buf, a) == Lexed(Token(Operator, i, 1), i + 1) && IsMinus(buf, Token(Operator, i, 1))
  {
    hide Next, Blanks, OperatorLength;
    LoneMinus(buf, i);
    NextAt(buf, a, i);
    assert buf[i..i + 1] == "-";
  }

  /** The number token behind the blanks, and what is made of it. */
  lemma NumeralAt(buf: string, a: nat, i: nat, j: nat, negative: bool, v: Json)
    requires Blanks(buf, a, i) && i < j <= |buf| && Numeric(buf[i..j], negative, v) && Follows(buf, j)
    ensures Next(buf, a) == Lexed(Token(Number, i, j - i), j) && Numeral(buf, Token(Number, i, j - i), negative, j) == Ok(v, j)
  {
    hide Next, Blanks, OperatorLength, NumberEnd, Numeric, NumberValue, TokenAt;
    NumericRead(buf, i, j, negative, v);
    NumberToken(buf, i, j);
    NextAt(buf, a, i);
  }

  lemma NumberParses(buf: string, a: nat, i: nat, j: nat, v: Json)
    requires Blanks(buf, a, i) && NumberAt(buf, i, j, v) && Follows(buf, j)
    ensures Next(buf, a).Lexed? && (Next(buf, a).tok.kind == Number || IsMinus(buf, Next(buf, a).tok))
    ensures ParseNumber(buf, a) == Ok(v, j)
  {
    hide Next, Blanks, Numeric, Numeral, Follows;
    if Numeric(buf[i..j], false, v) {
      NumeralAt(buf, a, i, j, false, v);
    } else {
      var k: nat :| MinusAt(buf, i, k, j, v);
      SetOff(buf, i, k);
      MinusToken(buf, a, i);
      NumeralAt(buf, i + 1, k, j, true, v);
    }
  }

  lemma SetOff(buf: string, i: nat, k: nat)
    requires i < k < |buf| && Blanks(buf, i + 1, k) && (k > i + 1 || buf[k] == '-')
    ensures buf[i + 1] in " \t\n\r-"
  {}

  lemma StringParses(buf: string, a: nat, i: nat, j: nat, s: string)
    requires Blanks(buf, a, i) && Spelled(buf, i, j, Str(s))
    ensures i < j <= |buf| && ParseValue(buf, a) == Ok(Str(s), j)
  {
    hide Next, Blanks, Chars, StringFrom;
    CharsRead(buf, i, i + 1, j, s);
    TextAt(buf, a, i, j);
    var text := buf[i..j];
    assert text[0] == buf[i] && text[|text| - 1] == buf[j - 1];
  }

  lemma WordParses(buf: string, a: nat, i: nat, j: nat, v: Json)
    requires (v.Null? || v.Bool?) && Blanks(buf, a, i) && Spelled(buf, i, j, v) && Follows(buf, j)
    ensures i < j <= |buf| && ParseValue(buf, a) == Ok(v, j)
  {
    hide Next, Blanks, Word, Follows;
    var w := if v.Null? then "null" else if v.b then "true" else "false";
    WordAt(buf, a, i, j, w);
    WordSpan(buf, i, j, w);
  }

  lemma WordSpan(buf: string, i: nat, j: nat, w: string)
    requires Word(buf, i, j, w) && w != []
    ensures i < j <= |buf|
  {}

  /** A value is not a closing bracket. */
  lemma NotClosing(buf: string, a: nat)
    requires a <= |buf| && ParseValue(buf, a).Ok?
    ensures Next(buf, a).Lexed? && Next(buf, a).tok.kind !in {RBracket, RBrace}
  {
    hide Next, ParseNumber, ParseArray, ParseObject, StringFrom;
  }

  lemma {:induction false} SpelledParses(buf: string, a: nat, i: nat, j: nat, v: Json)
    requires Blanks(buf, a, i) && Spelled(buf, i, j, v) && Follows(buf, j)
    ensures i < j <= |buf| && ParseValue(buf, a) == Ok(v, j)
    decreases v, 0
  {
    match v
    case Null => WordParses(buf, a, i, j, v);
    case Bool(_) => WordParses(buf, a, i, j, v);
    case Int(_) => NumberIsValue(buf, a, i, j, v);
    case Real(_, _) => NumberIsValue(buf, a, i, j, v);
    case Str(s) => StringParses(buf, a, i, j, s);
    case Array(items) => ArrayParses(buf, a, i, j, items);
    case Object(pairs) => ObjectParses(buf, a, i, j, pairs);
  }

  lemma NumberIsValue(buf: string, a: nat, i: nat, j: nat, v: Json)
    requires (v.Int? || v.Real?) && Blanks(buf, a, i) && Spelled(buf, i, j, v) && Follows(buf, j)
    ensures i < j <= |buf| && ParseValue(buf, a) == Ok(v, j)
  {
    hide Next, Blanks, ParseNumber, Follows, Numeric, MinusAt;
    NumberParses(buf, a, i, j, v);
  }

  lemma {:induction false} ArrayParses(buf: string, a: nat, i: nat, j: nat, items: seq<Json>)
    requires Blanks(buf, a, i) && Spelled(buf, i, j, Array(items))
    ensures i < j <= |buf| && ParseValue(buf, a) == Ok(Array(items), j)
    decreases items, 2
  {
    hide Next, Blanks, ItemsAt, ParseItems;
    DelimAt(buf, a, i, LBracket);
    if items == [] {
      DelimAt(buf, i + 1, j - 1, RBracket);
    } else {
      ItemsParse(buf, i + 1, j, items, []);
      assert [] + items == items;
    }
  }

  lemma {:induction false} ItemsParse(buf: string, a: nat, j: nat, items: seq<Json>, acc: seq<Json>)
    requires a <= |buf| && items != [] && ItemsAt(buf, a, j, items)
    ensures Next(buf, a).Lexed? && Next(buf, a).tok.kind != RBracket
    ensures ParseItems(buf, a, acc) == Ok(Array(acc + items), j)
    decreases items, 1
  {
    hide Next, Blanks, Spelled, ParseValue;
    var x: ItemPlace :| ItemsFrom(buf, a, j, items, x);
    BlanksFollow(buf, x.end, x.close);
    SpelledParses(buf, a, x.begin, x.end, items[0]);
    NotClosing(buf, a);
    if |items| == 1 {
      DelimAt(buf, x.end, x.close, RBracket);
      assert items == [items[0]];
    } else {
      DelimAt(buf, x.end, x.close, Comma);
      ItemsParse(buf, x.close + 1, j, items[1..], acc + [items[0]]);
      assert acc + [items[0]] + items[1..] == acc + items;
    }
  }

  lemma {:induction false} ObjectParses(buf: string, a: nat, i: nat, j: nat, pairs: seq<Pair>)
    requires Blanks(buf, a, i) && Spelled(buf, i, j, Object(pairs))
    ensures i < j <= |buf| && ParseValue(buf, a) == Ok(Object(pairs), j)
    decreases pairs, 3
  {
    hide Next, Blanks, PairsAt, ParsePairs;
    DelimAt(buf, a, i, LBrace);
    if pairs == [] {
      DelimAt(buf, i + 1, j - 1, RBrace);
    } else {
      PairsParse(buf, i + 1, j, pairs, []);
      assert [] + pairs == pairs;
    }
  }

  lemma {:induction false} PairParses(buf: string, a: nat, p: Pair, x: PairPlace)
    requires PairAt(buf, a, p, x) && Follows(buf, x.end)
    ensures a <= |buf| && ParsePair(buf, a) == PairOk(p, x.end)
    ensures Next(buf, a).Lexed? && Next(buf, a).tok.kind == Text
    decreases p, 0
  {
    hide Next, Blanks, Spelled, ParseValue, Raw, UpToNul, Literal, Follows;
    var i, j := x.key, x.keyEnd;
    RawReads(buf, i + 1, j);
    TextAt(buf, a, i, j);
    KeyIs(buf, i, j, p.key);
    SpelledParses(buf, x.colon + 1, x.begin, x.end, p.value);
    ValueAfterColon(buf, x.colon + 1);
    DelimAt(buf, j, x.colon, Colon);
    BlanksInside(buf, a, i);
  }

  lemma BlanksInside(buf: string, a: nat, i: nat)
    requires Blanks(buf, a, i)
    ensures a <= i <= |buf|
  {}

  /** No value begins with a second colon. */
  lemma ValueAfterColon(buf: string, a: nat)
    requires a <= |buf| && ParseValue(buf, a).Ok?
    ensures a < |buf| && buf[a] != ':'
  {
    hide ParseNumber, ParseArray, ParseObject, StringFrom, OperatorLength, NumberEnd;
    if a < |buf| && buf[a] == ':' {
      NextHere(buf, a);
      ColonIsNoValue(buf, a);
    }
  }

  lemma ColonIsNoValue(buf: string, a: nat)
    requires a < |buf| && buf[a] == ':' && TokenAt(buf, a).Lexed?
    ensures TokenAt(buf, a).tok.kind == Colon || (TokenAt(buf, a).tok.kind == Operator && !IsMinus(buf, TokenAt(buf, a).tok))
  {
    hide OperatorLength, NumberEnd;
    assert buf[a..a + TokenAt(buf, a).tok.length][0] == ':';
  }

  lemma {:induction false} PairsParse(buf: string, a: nat, j: nat, pairs: seq<Pair>, acc: seq<Pair>)
    requires a <= |buf| && pairs != [] && PairsAt(buf, a, j, pairs)
    ensures Next(buf, a).Lexed? && Next(buf, a).tok.kind != RBrace
    ensures ParsePairs(buf, a, acc) == Ok(Object(acc + pairs), j)
    decreases pairs, 2
  {
    hide Next, Blanks, PairAt, ParsePair;
    var x: PairPlace :| PairsFrom(buf, a, j, pairs, x);
    BlanksFollow(buf, x.end, x.close);
    PairParses(buf, a, pairs[0], x);
    if |pairs| == 1 {
      DelimAt(buf, x.end, x.close, RBrace);
      assert pairs == [pairs[0]];
    } else {
      DelimAt(buf, x.end, x.close, Comma);
      PairsParse(buf, x.close + 1, j, pairs[1..], acc + [pairs[0]]);
      assert acc + [pairs[0]] + pairs[1..] == acc + pairs;
    }
  }

  // ---------- Whatever parses is a spelling ----------

  /** A bracket, comma or colon behind the blanks. */
  lemma ReadDelim(buf: string, a: nat, k: Kind) returns (p: nat)
    requires a <= |buf| && Next(buf, a).Lexed? && Next(buf, a).tok.kind == k && k in {LBrace, RBrace, LBracket, RBracket, Comma, Colon}
    ensures Blanks(buf, a, p) && p < |buf| && Next(buf, a).end == p + 1
    ensures buf[p] == match k
      case LBrace => '{' case RBrace => '}' case LBracket => '[' case RBracket => ']' case Comma => ',' case _ => ':'
  {
    hide Next, Blanks, TokenAt;
    p := NextFrom(buf, a);
    if p < |buf| {
      TokenIs(buf, p);
    }
  }

  lemma ReadText(buf: string, a: nat) returns (p: nat)
    requires a <= |buf| && Next(buf, a).Lexed? && Next(buf, a).tok.kind == Text
    ensures Blanks(buf, a, p) && p < |buf| && buf[p] == '"'
    ensures var r := Next(buf, a); StringEnd(buf, p + 1) == Option.Some(r.end) && r.tok == Token(Text, p, r.end - p) && p + 2 <= r.end <= |buf|
  {
    hide Next, Blanks, TokenAt, StringEnd;
    p := NextFrom(buf, a);
    if p < |buf| {
      TokenIs(buf, p);
      ReadsRaw(buf, p + 1, Next(buf, a).end);
    }
  }

  lemma ReadWord(buf: string, a: nat, w: string) returns (p: nat)
    requires a <= |buf| && Next(buf, a).Lexed? && TokenText(buf, Next(buf, a).tok) == w && w != []
    ensures Blanks(buf, a, p) && Word(buf, p, Next(buf, a).end, w)
  {
    hide Next, Blanks, TokenAt;
    p := NextFrom(buf, a);
    if p < |buf| {
      TokenIs(buf, p);
    }
  }

  lemma ReadNumber(buf: string, a: nat, negative: bool, v: Json, e: nat) returns (p: nat)
    requires a <= |buf| && Next(buf, a).Lexed? && Next(buf, a).tok.kind == Number
    requires Numeral(buf, Next(buf, a).tok, negative, Next(buf, a).end) == Ok(v, e)
    ensures Blanks(buf, a, p) && p < e <= |buf| && Numeric(buf[p..e], negative, v) && (buf[p] == '-' || buf[p] == '.' || IsDigit(buf[p]))
  {
    hide Next, Blanks, TokenAt, NumberEnd, NumberValue, Numeric, OperatorLength;
    p := NextFrom(buf, a);
    if p < |buf| {
      TokenIs(buf, p);
      ReadNumeric(buf, p, e, negative, v);
    }
  }

  lemma ReadMinus(buf: string, a: nat) returns (p: nat)
    requires a <= |buf| && Next(buf, a).Lexed? && IsMinus(buf, Next(buf, a).tok)
    ensures Blanks(buf, a, p) && p < |buf| && buf[p] == '-' && Next(buf, a).end == p + 1
    ensures p + 1 < |buf| ==> !IsDigit(buf[p + 1]) && buf[p + 1] != '.'
  {
    hide Next, Blanks, TokenAt, OperatorLength;
    p := NextFrom(buf, a);
    if p < |buf| {
      TokenIs(buf, p);
      var t := Next(buf, a).tok;
      assert |TokenText(buf, t)| == 1 && TokenText(buf, t)[0] == buf[p];
      SingleMinus(buf, p);
    }
  }

  lemma SingleMinus(buf: string, p: nat)
    requires p < |buf| && buf[p] == '-' && OperatorLength(buf, p) == 1
    ensures p + 1 < |buf| ==> !IsDigit(buf[p + 1]) && buf[p + 1] != '.'
  {}

  lemma NumberParsed(buf: string, a: nat, v: Json, e: nat) returns (p: nat)
    requires a <= |buf| && ParseNumber(buf, a) == Ok(v, e)
    ensures Blanks(buf, a, p) && NumberAt(buf, p, e, v) && (v.Int? || v.Real?)
  {
    hide Next, Blanks, Numeral, Numeric, IsMinus;
    if IsMinus(buf, Next(buf, a).tok) {
      p := ReadMinus(buf, a);
      var k := ReadNumber(buf, p + 1, true, v, e);
      BlanksInside(buf, p + 1, k);
      assert MinusAt(buf, p, k, e, v);
      NumericIs(buf[k..e], true, v);
    } else {
      p := ReadNumber(buf, a, false, v, e);
      NumericIs(buf[p..e], false, v);
    }
  }

  lemma NumericIs(t: string, negative: bool, v: Json)
    requires Numeric(t, negative, v)
    ensures v.Int? || v.Real?
  {}

  lemma StringParsed(buf: string, a: nat, v: Json, e: nat) returns (p: nat)
    requires a <= |buf| && ParseValue(buf, a) == Ok(v, e) && Next(buf, a).tok.kind == Text
    ensures Blanks(buf, a, p) && Spelled(buf, p, e, v)
  {
    hide Next, Blanks, Chars, StringFrom, StringEnd;
    p := ReadText(buf, a);
    ReadChars(buf, p, p + 1, e, v.s);
  }

  lemma WordParsed(buf: string, a: nat, v: Json, e: nat) returns (p: nat)
    requires a <= |buf| && ParseValue(buf, a) == Ok(v, e) && Next(buf, a).tok.kind == Identifier
    ensures Blanks(buf, a, p) && Spelled(buf, p, e, v)
  {
    hide Next, Blanks, Word;
    p := ReadWord(buf, a, if v.Null? then "null" else if v.b then "true" else "false");
  }

  lemma {:induction false} ValueParsed(buf: string, a: nat, v: Json, e: nat) returns (p: nat)
    requires a <= |buf| && ParseValue(buf, a) == Ok(v, e)
    ensures Blanks(buf, a, p) && Spelled(buf, p, e, v)
    decreases |buf| - a, 3
  {
    hide Next, Blanks, Spelled, StringFrom, ParseNumber, ParseArray, ParseObject, IsMinus;
    var t := Next(buf, a).tok;
    if t.kind == Text {
      p := StringParsed(buf, a, v, e);
    } else if t.kind == Number || IsMinus(buf, t) {
      p := NumberParsed(buf, a, v, e);
      NumberSpelled(buf, p, e, v);
    } else if t.kind == LBrace {
      p := ObjectParsed(buf, a, v, e);
    } else if t.kind == LBracket {
      p := ArrayParsed(buf, a, v, e);
    } else {
      p := WordParsed(buf, a, v, e);
    }
  }

  lemma NumberSpelled(buf: string, p: nat, e: nat, v: Json)
    requires NumberAt(buf, p, e, v) && (v.Int? || v.Real?)
    ensures Spelled(buf, p, e, v)
  {}

  lemma {:induction false} ArrayParsed(buf: string, a: nat, v: Json, e: nat) returns (p: nat)
    requires a <= |buf| && ParseValue(buf, a) == Ok(v, e) && Next(buf, a).tok.kind == LBracket
    ensures Blanks(buf, a, p) && Spelled(buf, p, e, v)
    decreases |buf| - a, 2
  {
    hide Next, Blanks, ItemsAt, ParseItems;
    p := ReadDelim(buf, a, LBracket);
    BlanksInside(buf, a, p);
    if Next(buf, p + 1).tok.kind == RBracket {
      var q := ReadDelim(buf, p + 1, RBracket);
      BlanksInside(buf, p + 1, q);
    } else {
      ItemsParsed(buf, p + 1, [], v, e);
      assert v.items[0..] == v.items;
    }
  }

  lemma {:induction false} ItemsParsed(buf: string, a: nat, acc: seq<Json>, v: Json, e: nat)
    requires a <= |buf| && ParseItems(buf, a, acc) == Ok(v, e)
    ensures a < e && v.Array? && |acc| < |v.items| && v.items[..|acc|] == acc && ItemsAt(buf, a, e, v.items[|acc|..])
    decreases |buf| - a, 4
  {
    hide Next, Blanks, Spelled, ParseValue;
    var r := ParseValue(buf, a);
    var p := ValueParsed(buf, a, r.v, r.end);
    var t := Next(buf, r.end);
    if t.tok.kind == RBracket {
      var q := ReadDelim(buf, r.end, RBracket);
      assert v.items[|acc|..] == [r.v];
      assert ItemsFrom(buf, a, e, v.items[|acc|..], ItemPlace(p, r.end, q));
    } else {
      var q := ReadDelim(buf, r.end, Comma);
      ItemsParsed(buf, q + 1, acc + [r.v], v, e);
      var items := v.items[|acc|..];
      FrontParts(v.items, acc, r.v);
      assert ItemsFrom(buf, a, e, items, ItemPlace(p, r.end, q));
    }
  }

  lemma FrontParts<X>(all: seq<X>, acc: seq<X>, x: X)
    requires |acc| + 1 < |all| && all[..|acc| + 1] == acc + [x]
    ensures all[..|acc|] == acc && all[|acc|..][0] == x && all[|acc|..][1..] == all[|acc| + 1..] && |all[|acc|..]| > 1
  {
    assert all[..|acc| + 1][..|acc|] == all[..|acc|];
    assert (acc + [x])[|acc|] == all[|acc|];
  }

  lemma {:induction false} ObjectParsed(buf: string, a: nat, v: Json, e: nat) returns (p: nat)
    requires a <= |buf| && ParseValue(buf, a) == Ok(v, e) && Next(buf, a).tok.kind == LBrace
    ensures Blanks(buf, a, p) && Spelled(buf, p, e, v)
    decreases |buf| - a, 2
  {
    hide Next, Blanks, PairsAt, ParsePairs;
    p := ReadDelim(buf, a, LBrace);
    BlanksInside(buf, a, p);
    if Next(buf, p + 1).tok.kind == RBrace {
      var q := ReadDelim(buf, p + 1, RBrace);
      BlanksInside(buf, p + 1, q);
    } else {
      PairsParsed(buf, p + 1, [], v, e);
      assert v.pairs[0..] == v.pairs;
    }
  }

  lemma {:induction false} PairParsed(buf: string, a: nat, pair: Pair, e: nat) returns (x: PairPlace)
    requires a <= |buf| && ParsePair(buf, a) == PairOk(pair, e)
    ensures PairAt(buf, a, pair, x) && x.end == e
    decreases |buf| - a, 4
  {
    hide Next, Blanks, Spelled, ParseValue, Raw, UpToNul, Literal, StringEnd;
    var i := ReadText(buf, a);
    var j := Next(buf, a).end;
    var c := ReadDelim(buf, j, Colon);
    BlanksInside(buf, a, i);
    BlanksInside(buf, j, c);
    var p := ValueParsed(buf, c + 1, pair.value, e);
    ReadsRaw(buf, i + 1, j);
    KeyIs(buf, i, j, pair.key);
    x := PairPlace(i, j, c, p, e, 0);
  }

  lemma {:induction false} PairsParsed(buf: string, a: nat, acc: seq<Pair>, v: Json, e: nat)
    requires a <= |buf| && ParsePairs(buf, a, acc) == Ok(v, e)
    ensures a < e && v.Object? && |acc| < |v.pairs| && v.pairs[..|acc|] == acc && PairsAt(buf, a, e, v.pairs[|acc|..])
    decreases |buf| - a, 5
  {
    hide Next, Blanks, ParsePair, Spelled, KeyAt;
    var r := ParsePair(buf, a);
    var x := PairParsed(buf, a, r.p, r.end);
    var t := Next(buf, r.end);
    if t.tok.kind == RBrace {
      var q := ReadDelim(buf, r.end, RBrace);
      assert v.pairs[|acc|..] == [r.p];
      assert PairsFrom(buf, a, e, v.pairs[|acc|..], x.(close := q));
    } else {
      var q := ReadDelim(buf, r.end, Comma);
      PairsParsed(buf, q + 1, acc + [r.p], v, e);
      FrontParts(v.pairs, acc, r.p);
      assert PairsFrom(buf, a, e, v.pairs[|acc|..], x.(close := q));
    }
  }

  // ---------- Whole texts ----------

  /** The parser accepts exactly the spellings of values, each for its value. */
  lemma ParseIff(text: string, v: Json)
    ensures Parse(text) == Option.Some(v) <==> Spells(text, v)
  {
    hide Next, Blanks, Spelled, ParseValue;
    if Spells(text, v) {
      var i: nat, j: nat :| Blanks(text, 0, i) && Spelled(text, i, j, v) && Blanks(text, j, |text|);
      BlanksFollow(text, j, |text|);
      SpelledParses(text, 0, i, j, v);
      EndAt(text, j);
    }
    if Parse(text) == Option.Some(v) {
      var e := ParseValue(text, 0).end;
      var p := ValueParsed(text, 0, v, e);
      EndRead(text, e);
    }
  }

  lemma EndAt(text: string, j: nat)
    requires Blanks(text, j, |text|)
    ensures j <= |text| && Next(text, j) == Lexed(Token(Eof, |text|, 0), |text|)
  {
    hide Span;
    SkipTo(text, j, |text|);
  }

  lemma EndRead(text: string, e: nat)
    requires e <= |text| && Next(text, e).Lexed? && Next(text, e).tok.kind == Eof
    ensures Blanks(text, e, |text|)
  {
    hide Next, TokenAt, Blanks;
    var p := NextFrom(text, e);
  }

  /** A text spells at most one value. */
  lemma OneValue(text: string, v: Json, w: Json)
    requires Spells(text, v) && Spells(text, w)
    ensures v == w
  {
    ParseIff(text, v);
    ParseIff(text, w);
  }
}
