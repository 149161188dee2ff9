/** The tokenizer as the JSON parser uses it: no comments, newlines are blanks, default identifiers. */
module JsonLexer {
  import opened Basics
  import opened Decimal

  datatype Kind =
    | Eof | Identifier | Number | Text | Operator
    | LParen | RParen | LBrace | RBrace | LBracket | RBracket
    | Comma | Colon | Semicolon | Dot | Symbol

  /** A token is a stretch of the buffer. */
  datatype Token = Token(kind: Kind, start: nat, length: nat)

  datatype Lexed = Lexed(tok: Token, end: nat) | Failed

  // ---------- Characters ----------

  predicate IsAlpha(c: char) { 'a' <= c <= 'z' || 'A' <= c <= 'Z' }

  predicate IsWord(c: char) { IsAlpha(c) || c == '_' || IsDigit(c) }

  predicate IsBlank(c: char) { c == ' ' || c == '\n' || c == '\t' || c == '\r' }

  predicate IsBinary(c: char) { c == '0' || c == '1' }

  predicate IsOctal(c: char) { '0' <= c <= '7' }

  // ---------- Stretches ----------

  /** Where the stretch of characters satisfying p that begins at pos ends. */
  function Span(p: char -> bool, buf: string, pos: nat): (e: nat)
    requires pos <= |buf|
    ensures pos <= e <= |buf| && (e < |buf| ==> !p(buf[e])) && forall i :: pos <= i < e ==> p(buf[i])
    decreases |buf| - pos
  {
    if pos < |buf| && p(buf[pos]) then Span(p, buf, pos + 1) else pos
  }

  lemma {:induction false} SpanIs(p: char -> bool, buf: string, pos: nat, e: nat)
    requires pos <= e <= |buf| && (e < |buf| ==> !p(buf[e])) && forall i :: pos <= i < e ==> p(buf[i])
    ensures Span(p, buf, pos) == e
    decreases e - pos
  {
    if pos < e {
      SpanIs(p, buf, pos + 1, e);
    }
  }

  datatype Option<T> = None | Some(value: T)

  /** A prefixed number: at least one digit of its base. */
  function BaseEnd(p: char -> bool, buf: string, pos: nat): Option<nat>
    requires pos <= |buf|
  {
    var e := Span(p, buf, pos);
    if e == pos then None else Some(e)
  }

  /** The exponent of a number, if one follows. */
  function ExponentEnd(buf: string, pos: nat): (e: nat)
    requires pos <= |buf|
    ensures pos <= e <= |buf|
  {
    if pos < |buf| && (buf[pos] == 'e' || buf[pos] == 'E') then
      var q := if pos + 1 < |buf| && (buf[pos + 1] == '+' || buf[pos + 1] == '-') then pos + 2 else pos + 1;
      if q < |buf| && IsDigit(buf[q]) then Span(IsDigit, buf, q) else pos
    else pos
  }

  /** A fraction, if one follows. */
  function FractionEnd(buf: string, pos: nat): (e: nat)
    requires pos <= |buf|
    ensures pos <= e <= |buf|
  {
    if pos < |buf| && buf[pos] == '.' then Span(IsDigit, buf, pos + 1) else pos
  }

  /** An 'f' suffix, if one follows. */
  function SuffixEnd(buf: string, pos: nat): (e: nat)
    requires pos <= |buf|
    ensures pos <= e <= |buf|
  {
    if pos < |buf| && (buf[pos] == 'f' || buf[pos] == 'F') then pos + 1 else pos
  }

  /** A decimal number: sign, digits, fraction, suffix and exponent, each optional. */
  function PlainEnd(buf: string, start: nat): (e: nat)
    requires start < |buf|
    ensures start <= e <= |buf|
  {
    var digits := Span(IsDigit, buf, if buf[start] == '-' then start + 1 else start);
    ExponentEnd(buf, SuffixEnd(buf, FractionEnd(buf, digits)))
  }

  /** read_number at a character that may begin one. */
  function NumberEnd(buf: string, start: nat): (r: Option<nat>)
    requires start < |buf| && (buf[start] == '-' || buf[start] == '.' || IsDigit(buf[start]))
    ensures r.Some? ==> start < r.value <= |buf|
  {
    if buf[start] == '0' && start + 1 < |buf| && (buf[start + 1] == 'x' || buf[start + 1] == 'X') then BaseEnd(IsHex, buf, start + 2)
    else if buf[start] == '0' && start + 1 < |buf| && (buf[start + 1] == 'b' || buf[start + 1] == 'B') then BaseEnd(IsBinary, buf, start + 2)
    else if buf[start] == '0' && start + 1 < |buf| && (buf[start + 1] == 'o' || buf[start + 1] == 'O') then BaseEnd(IsOctal, buf, start + 2)
    else
      var e := PlainEnd(buf, start);
      assert buf[start] != '-' && buf[start] != '.' ==> Span(IsDigit, buf, start) > start;
      if e - start == 1 && buf[start] == '.' then None else Some(e)
  }

  predicate IsEscape(c: char) {
    c == '"' || c == '\\' || c == '/' || c == 'b' || c == 'f' || c == 'n' || c == 'r' || c == 't'
  }

  /** read_string from behind the opening quote: where the closing one ends. */
  function StringEnd(buf: string, pos: nat): (r: Option<nat>)
    requires pos <= |buf|
    ensures r.Some? ==> pos < r.value <= |buf| && buf[r.value - 1] == '"'
    decreases |buf| - pos
  {
    if pos == |buf| then None
    else if buf[pos] == '"' then Some(pos + 1)
    else if buf[pos] != '\\' then StringEnd(buf, pos + 1)
    else if pos + 1 == |buf| then None
    else if buf[pos + 1] == 'u' then
      if pos + 6 <= |buf| && forall i :: pos + 2 <= i < pos + 6 ==> IsHex(buf[i]) then StringEnd(buf, pos + 6) else None
    else if IsEscape(buf[pos + 1]) then StringEnd(buf, pos + 2)
    else None
  }

  // ---------- Operators ----------

  const OPS3: seq<string> := [">>>", "<<=", ">>=", "==="]
  const OPS2: seq<string> := ["==", "!=", "<=", ">=", "&&", "||", "<<", ">>", "+=", "-=", "*=", "/=", "%=", "&=", "|=", "^=", "::", "->"]
  const OPS1: string := "+-*/%=<>!&|^~?"

  predicate Matches(buf: string, pos: nat, op: string) {
    pos + |op| <= |buf| && forall k :: 0 <= k < |op| ==> buf[pos + k] == op[k]
  }

  predicate AnyMatches(buf: string, pos: nat, ops: seq<string>) {
    exists i :: 0 <= i < |ops| && Matches(buf, pos, ops[i])
  }

  /** read_operator when none is expected; a minus sign before a number is left to the number. */
  function OperatorLength(buf: string, pos: nat): (n: nat)
    requires pos < |buf|
    ensures pos + n <= |buf|
  {
    if AnyMatches(buf, pos, OPS3) then 3
    else if AnyMatches(buf, pos, OPS2) then 2
    else if buf[pos] in OPS1 && !(buf[pos] == '-' && pos + 1 < |buf| && (IsDigit(buf[pos + 1]) || buf[pos + 1] == '.')) then 1
    else 0
  }

  function DelimKind(c: char): Option<Kind> {
    match c
    case '(' => Some(LParen)
    case ')' => Some(RParen)
    case '{' => Some(LBrace)
    case '}' => Some(RBrace)
    case '[' => Some(LBracket)
    case ']' => Some(RBracket)
    case ',' => Some(Comma)
    case ':' => Some(Colon)
    case ';' => Some(Semicolon)
    case '.' => Some(Dot)
    case _ => None
  }

  // ---------- Tokens ----------

  function Stretch(kind: Kind, start: nat, end: nat): Lexed
    requires start <= end
  {
    Lexed(Token(kind, start, end - start), end)
  }

  /** The token that begins exactly at pos. */
  function TokenAt(buf: string, pos: nat): (r: Lexed)
    requires pos < |buf|
    ensures r.Lexed? ==> pos < r.end <= |buf| && r.tok.start + r.tok.length <= |buf| && r.tok.kind != Eof
  {
    var c := buf[pos];
    if IsAlpha(c) || c == '_' then Stretch(Identifier, pos, Span(IsWord, buf, pos + 1))
    else if OperatorLength(buf, pos) > 0 then Stretch(Operator, pos, pos + OperatorLength(buf, pos))
    else if (c == '-' || c == '.' || IsDigit(c)) && NumberEnd(buf, pos).Some? then Stretch(Number, pos, NumberEnd(buf, pos).value)
    else if IsDigit(c) then Failed
    else if c == '"' then
      match StringEnd(buf, pos + 1)
      case Some(e) => Stretch(Text, pos, e)
      case None => Failed
    else match DelimKind(c)
      case Some(k) => Stretch(k, pos, pos + 1)
      case None => Stretch(Symbol, pos, pos + 1)
  }

  /** tokenizer_next from pos on. */
  function Next(buf: string, pos: nat): (r: Lexed)
    requires pos <= |buf|
    ensures r.Lexed? ==> pos <= r.end <= |buf| && r.tok.start + r.tok.length <= |buf| && (r.tok.kind != Eof ==> pos < r.end)
  {
    var p := Span(IsBlank, buf, pos);
    if p == |buf| then Lexed(Token(Eof, p, 0), p) else TokenAt(buf, p)
  }

  /** Characters no operator begins with; the colon begins only "::". */
  lemma NoOperator(buf: string, pos: nat)
    requires pos < |buf| && buf[pos] !in OPS1
    requires buf[pos] == ':' ==> pos + 1 == |buf| || buf[pos + 1] != ':'
    ensures OperatorLength(buf, pos) == 0
  {
    forall i | 0 <= i < |OPS3| ensures !Matches(buf, pos, OPS3[i]) {
      assert OPS3[i][0] in OPS1;
    }
    forall i | 0 <= i < |OPS2| ensures !Matches(buf, pos, OPS2[i]) {
      TwoCharacters(i);
    }
  }

  lemma TwoCharacters(i: nat)
    requires i < |OPS2|
    ensures |OPS2[i]| == 2 && (OPS2[i][0] in OPS1 || OPS2[i] == "::")
    ensures OPS2[i][0] == '-' ==> OPS2[i][1] == '=' || OPS2[i][1] == '>'
  {}

  /** A minus sign right before a digit is no operator. */
  lemma NoMinus(buf: string, pos: nat)
    requires pos + 1 < |buf| && buf[pos] == '-' && IsDigit(buf[pos + 1])
    ensures OperatorLength(buf, pos) == 0
  {
    forall i | 0 <= i < |OPS3| ensures !Matches(buf, pos, OPS3[i]) {
      assert OPS3[i][0] != '-';
    }
    forall i | 0 <= i < |OPS2| ensures !Matches(buf, pos, OPS2[i]) {
      TwoCharacters(i);
    }
  }

  lemma NextHere(buf: string, pos: nat)
    requires pos < |buf| && !IsBlank(buf[pos])
    ensures Next(buf, pos) == TokenAt(buf, pos)
  {
    SpanIs(IsBlank, buf, pos, pos);
  }

  lemma DelimNext(buf: string, pos: nat, c: char, k: Kind, e: nat)
    requires e == pos + 1 && pos < |buf| && buf[pos] == c && DelimKind(c) == Some(k)
    requires c == '[' || c == ']' || c == '{' || c == '}' || c == ',' || (c == ':' && (e == |buf| || buf[e] != ':'))
    ensures Next(buf, pos) == Lexed(Token(k, pos, 1), e)
  {
    NextHere(buf, pos);
    NoOperator(buf, pos);
  }

  // ---------- The tokenizer's state ----------

  /** Scanner and tokenizer in one: the buffer, the place in it, and whether tokenizing failed. */
  class Tokenizer {
    const buf: string
    var pos: nat
    var failed: bool

    constructor (buf: string)
      ensures this.buf == buf && pos == 0 && !failed
    {
      this.buf, pos, failed := buf, 0, false;
    }

    /** The loops that advance while characters satisfy p. */
    method Advance(p: char -> bool, from: nat) returns (e: nat)
      requires from <= |buf|
      ensures e == Span(p, buf, from)
    {
      e := from;
      while e < |buf| && p(buf[e])
        invariant from <= e <= |buf| && forall i :: from <= i < e ==> p(buf[i])
      {
        e := e + 1;
      }
      SpanIs(p, buf, from, e);
    }

    /** read_identifier. */
    method ReadIdentifier() returns (tok: Token)
      requires pos < |buf|
      modifies this`pos
      ensures pos == Span(IsWord, buf, old(pos) + 1) && tok == Token(Identifier, old(pos), pos - old(pos))
    {
      var start := pos;
      pos := Advance(IsWord, pos + 1);
      tok := Token(Identifier, start, pos - start);
    }

    /** One of the prefixed forms of read_number. */
    method ReadBase(p: char -> bool, from: nat) returns (e: Option<nat>)
      requires from <= |buf|
      ensures e == BaseEnd(p, buf, from)
    {
      if from >= |buf| {
        return None;
      }
      var q := Advance(p, from);
      e := if q == from then None else Some(q);
    }

    /** The unprefixed form of read_number. */
    method ReadPlain(start: nat) returns (e: nat)
      requires start < |buf|
      ensures e == PlainEnd(buf, start)
    {
      hide Span, ExponentEnd;
      var p := start;
      if buf[p] == '-' {
        p := p + 1;
      }
      p := Advance(IsDigit, p);
      p := ReadFraction(p);
      if p < |buf| && (buf[p] == 'f' || buf[p] == 'F') {
        p := p + 1;
      }
      e := ReadExponent(p);
    }

    method ReadFraction(start: nat) returns (e: nat)
      requires start <= |buf|
      ensures e == FractionEnd(buf, start)
    {
      e := start;
      if e < |buf| && buf[e] == '.' {
        e := Advance(IsDigit, e + 1);
      }
    }

    /** The exponent of a number; without digits it is not taken. */
    method ReadExponent(start: nat) returns (e: nat)
      requires start <= |buf|
      ensures e == ExponentEnd(buf, start)
    {
      e := start;
      if start < |buf| && (buf[start] == 'e' || buf[start] == 'E') {
        var p := start + 1;
        if p < |buf| && (buf[p] == '+' || buf[p] == '-') {
          p := p + 1;
        }
        if p < |buf| && IsDigit(buf[p]) {
          e := Advance(IsDigit, p);
        }
      }
    }

    /** read_number. */
    method ReadNumber() returns (r: Option<Token>)
      requires pos < |buf| && (buf[pos] == '-' || buf[pos] == '.' || IsDigit(buf[pos]))
      modifies this`pos
      ensures r.Some? <==> NumberEnd(buf, old(pos)).Some?
      ensures pos <= |buf|
      ensures r.Some? ==> pos == NumberEnd(buf, old(pos)).value && r.value == Token(Number, old(pos), pos - old(pos))
    {
      hide PlainEnd, IsDigit, IsHex, IsBinary, IsOctal;
      var start := pos;
      var e: Option<nat>;
      if buf[start] == '0' && start + 1 < |buf| {
        var p := buf[start + 1];
        if p == 'x' || p == 'X' {
          e := ReadBase(IsHex, start + 2);
          r := if e.Some? then Some(Token(Number, start, e.value - start)) else None;
          pos := if e.Some? then e.value else pos;
          return;
        }
        if p == 'b' || p == 'B' {
          e := ReadBase(IsBinary, start + 2);
          r := if e.Some? then Some(Token(Number, start, e.value - start)) else None;
          pos := if e.Some? then e.value else pos;
          return;
        }
        if p == 'o' || p == 'O' {
          e := ReadBase(IsOctal, start + 2);
          r := if e.Some? then Some(Token(Number, start, e.value - start)) else None;
          pos := if e.Some? then e.value else pos;
          return;
        }
      }
      var mantEnd := ReadPlain(start);
      pos := mantEnd;
      if mantEnd - start == 1 && buf[start] == '.' {
        return None;
      }
      r := Some(Token(Number, start, mantEnd - start));
    }

    /** read_string, the opening quote included. */
    method ReadString() returns (r: Option<Token>)
      requires pos < |buf| && buf[pos] == '"' && !failed
      modifies this`pos, this`failed
      ensures r.Some? <==> StringEnd(buf, old(pos) + 1).Some?
      ensures failed <==> r.None?
      ensures pos <= |buf|
      ensures r.Some? ==> pos == StringEnd(buf, old(pos) + 1).value && r.value == Token(Text, old(pos), pos - old(pos))
    {
      hide IsHex, IsEscape;
      var start := pos;
      pos := pos + 1;
      while pos < |buf|
        invariant start < pos <= |buf| && !failed && StringEnd(buf, pos) == StringEnd(buf, start + 1)
        decreases |buf| - pos
      {
        ghost var p0 := pos;
        var c := buf[pos];
        pos := pos + 1;
        if c == '"' {
          return Some(Token(Text, start, pos - start));
        }
        if c == '\\' {
          if pos >= |buf| {
            failed := true;
            return None;
          }
          var e := buf[pos];
          pos := pos + 1;
          if e == 'u' {
            var i := 0;
            ghost var from := pos;
            while i < 4
              invariant !failed && 0 <= i <= 4 && pos == from + i <= |buf| && forall k :: from <= k < pos ==> IsHex(buf[k])
            {
              if pos >= |buf| || !IsHex(buf[pos]) {
                failed := true;
                return None;
              }
              pos := pos + 1;
              i := i + 1;
            }
            assert pos == p0 + 6 && forall k :: p0 + 2 <= k < p0 + 6 ==> IsHex(buf[k]);
          } else if !IsEscape(e) {
            failed := true;
            return None;
          }
        }
      }
      failed := true;
      r := None;
    }

    /** Whether one of the operators of a list stands at pos. */
    method FindOperator(ops: seq<string>) returns (found: bool)
      requires pos < |buf|
      ensures found <==> AnyMatches(buf, pos, ops)
    {
      var i := 0;
      while i < |ops|
        invariant i <= |ops| && forall j :: 0 <= j < i ==> !Matches(buf, pos, ops[j])
      {
        if pos + |ops[i]| <= |buf| {
          var k := 0;
          while k < |ops[i]| && buf[pos + k] == ops[i][k]
            invariant k <= |ops[i]| && forall h :: 0 <= h < k ==> buf[pos + h] == ops[i][h]
          {
            k := k + 1;
          }
          if k == |ops[i]| {
            return true;
          }
        }
        i := i + 1;
      }
      found := false;
    }

    /** read_operator. */
    method ReadOperator() returns (r: Option<Token>)
      requires pos < |buf|
      modifies this`pos
      ensures r.Some? <==> OperatorLength(buf, old(pos)) > 0
      ensures pos == old(pos) + OperatorLength(buf, old(pos))
      ensures r.Some? ==> r.value == Token(Operator, old(pos), pos - old(pos))
    {
      var start := pos;
      var found := FindOperator(OPS3);
      if found {
        pos := start + 3;
        return Some(Token(Operator, start, 3));
      }
      found := FindOperator(OPS2);
      if found {
        pos := start + 2;
        return Some(Token(Operator, start, 2));
      }
      var c := buf[start];
      if c in OPS1 {
        if c == '-' && start + 1 < |buf| && (IsDigit(buf[start + 1]) || buf[start + 1] == '.') {
          return None;
        }
        pos := start + 1;
        return Some(Token(Operator, start, 1));
      }
      r := None;
    }

    /** tokenizer_next. */
    method NextToken() returns (ok: bool, out: Token)
      requires pos <= |buf|
      modifies this`pos, this`failed
      ensures ok == (!old(failed) && Next(buf, old(pos)).Lexed?)
      ensures ok ==> !failed && out == Next(buf, old(pos)).tok && pos == Next(buf, old(pos)).end
      ensures !ok ==> failed
      ensures pos <= |buf|
    {
      ok, out := false, Token(Symbol, 0, 0);
      if failed {
        return;
      }
      pos := Advance(IsBlank, pos);
      if pos >= |buf| {
        return true, Token(Eof, pos, 0);
      }
      ok, out := CheckAll();
    }

    /** The checks in their order: identifier, operator, number, string, delimiter; else a symbol. */
    method CheckAll() returns (ok: bool, out: Token)
      requires pos < |buf| && !failed
      modifies this`pos, this`failed
      ensures ok == TokenAt(buf, old(pos)).Lexed?
      ensures ok ==> !failed && out == TokenAt(buf, old(pos)).tok && pos == TokenAt(buf, old(pos)).end
      ensures !ok ==> failed
      ensures pos <= |buf|
    {
      var c, start := buf[pos], pos;
      ok, out := true, Token(Symbol, pos, 1);
      var r: Option<Token>;
      if IsAlpha(c) || c == '_' {
        out := ReadIdentifier();
        return;
      }
      r := ReadOperator();
      if r.Some? {
        out := r.value;
        return;
      }
      if c == '-' || c == '.' || IsDigit(c) {
        r := ReadNumber();
        if r.Some? {
          out := r.value;
          return;
        }
        if c != '-' && c != '.' {
          failed := true;
          ok := false;
          return;
        }
        pos := start;
      }
      if c == '"' {
        r := ReadString();
        if r.Some? {
          out := r.value;
        } else {
          ok := false;
        }
        return;
      }
      pos := start + 1;
      var k := DelimKind(c);
      if k.Some? {
        out := Token(k.value, start, 1);
      }
    }
  }
}
