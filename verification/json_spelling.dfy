/** How the tokens, numbers and strings of a spelling are read. */
module JsonSpelling {
  import opened Basics
  import opened Decimal
  import opened JsonLexer
  import opened JsonValues
  import opened JsonGrammar

  // ---------- Blanks ----------

  lemma BlankIs(c: char)
    ensures IsBlank(c) <==> c in " \t\n\r"
  {}

  lemma SkipTo(buf: string, a: nat, p: nat)
    requires Blanks(buf, a, p) && (p < |buf| ==> buf[p] !in " \t\n\r")
    ensures Span(IsBlank, buf, a) == p
  {
    forall k | a <= k < p ensures IsBlank(buf[k]) {
      BlankIs(buf[k]);
    }
    SpanIs(IsBlank, buf, a, p);
  }

  lemma Skipped(buf: string, a: nat) returns (p: nat)
    requires a <= |buf|
    ensures p == Span(IsBlank, buf, a) && Blanks(buf, a, p) && (p < |buf| ==> buf[p] !in " \t\n\r")
  {
    p := Span(IsBlank, buf, a);
    forall k | a <= k < p ensures buf[k] in " \t\n\r" {
      BlankIs(buf[k]);
    }
  }

  /** The token behind the blanks. */
  lemma NextAt(buf: string, a: nat, p: nat)
    requires Blanks(buf, a, p) && p < |buf| && buf[p] !in " \t\n\r"
    ensures Next(buf, a) == TokenAt(buf, p)
  {
    hide TokenAt, Blanks, Span;
    SkipTo(buf, a, p);
  }

  lemma NextFrom(buf: string, a: nat) returns (p: nat)
    requires a <= |buf|
    ensures Blanks(buf, a, p) && Next(buf, a) == if p == |buf| then Lexed(Token(Eof, p, 0), p) else TokenAt(buf, p)
  {
    hide TokenAt, Blanks, Span;
    p := Skipped(buf, a);
  }

  // ---------- Tokens ----------

  /** What a token says about the characters it was made of. */
  lemma TokenIs(buf: string, p: nat)
    requires p < |buf| && TokenAt(buf, p).Lexed?
    ensures var r := TokenAt(buf, p);
      && r.tok.start == p && r.end == p + r.tok.length
      && (r.tok.kind in {LBrace, RBrace, LBracket, RBracket, Comma, Colon} ==> r.end == p + 1 && DelimKind(buf[p]) == Some(r.tok.kind))
      && (r.tok.kind == Text ==> buf[p] == '"' && StringEnd(buf, p + 1) == Some(r.end))
      && (r.tok.kind == Operator ==> r.end == p + OperatorLength(buf, p))
      && (r.tok.kind == Number ==>
          (buf[p] == '-' || buf[p] == '.' || IsDigit(buf[p])) && NumberEnd(buf, p) == Some(r.end) && OperatorLength(buf, p) == 0)
  {
    hide OperatorLength, NumberEnd, StringEnd, Span;
  }

  /** What may stand behind a value. */
  ghost predicate Follows(buf: string, j: nat) {
    j <= |buf| && (j < |buf| ==> buf[j] in " \t\n\r,]}")
  }

  lemma BlanksFollow(buf: string, q: nat, r: nat)
    requires Blanks(buf, q, r) && (r < |buf| ==> buf[r] in ",]}")
    ensures Follows(buf, q)
  {}

  lemma DelimAt(buf: string, a: nat, p: nat, k: Kind)
    requires Blanks(buf, a, p) && p < |buf| && DelimKind(buf[p]) == Some(k) && buf[p] in "[]{},:"
    requires buf[p] == ':' ==> p + 1 == |buf| || buf[p + 1] != ':'
    ensures Next(buf, a) == Lexed(Token(k, p, 1), p + 1)
  {
    hide Next, TokenAt, Blanks;
    NextAt(buf, a, p);
    DelimNext(buf, p, buf[p], k, p + 1);
    NextHere(buf, p);
  }

  lemma WordAt(buf: string, a: nat, i: nat, j: nat, w: string)
    requires Blanks(buf, a, i) && Word(buf, i, j, w) && Follows(buf, j) && w in {"null", "true", "false"}
    ensures Next(buf, a) == Lexed(Token(Identifier, i, |w|), j) && TokenText(buf, Token(Identifier, i, |w|)) == w
  {
    hide Next, Blanks;
    assert buf[i] == w[0];
    forall k | i <= k < j ensures IsAlpha(buf[k]) {
      assert buf[k] == buf[i..j][k - i] == w[k - i];
    }
    SpanIs(IsWord, buf, i + 1, j);
    NextAt(buf, a, i);
  }

  // ---------- Strings ----------

  lemma EscapesIs(e: char, c: char)
    ensures Escapes(e, c) <==> Unescaped(e) == Some(c)
    ensures Unescaped(e).Some? <==> IsEscape(e)
    ensures IsEscape(e) <==> e in "\"\\/bfnrt"
  {}

  lemma {:induction false} CharsRead(buf: string, i: nat, a: nat, j: nat, s: string)
    requires i < a < j <= |buf| && buf[j - 1] == '"' && Chars(buf, a, j - 1, s)
    ensures StringEnd(buf, a) == Some(j) && StringFrom(buf[i..j], a - i) == Some(s)
    decreases s
  {
    var text := buf[i..j];
    assert text[a - i] == buf[a];
    if s == [] {
    } else if buf[a] != '\\' {
      CharsRead(buf, i, a + 1, j, s[1..]);
      assert [s[0]] + s[1..] == s;
    } else {
      assert text[a + 1 - i] == buf[a + 1];
      EscapesIs(buf[a + 1], s[0]);
      CharsRead(buf, i, a + 2, j, s[1..]);
      assert [s[0]] + s[1..] == s;
    }
  }

  lemma {:induction false} ReadChars(buf: string, i: nat, a: nat, j: nat, s: string)
    requires i < a <= |buf| && StringEnd(buf, a) == Some(j) && a < j && StringFrom(buf[i..j], a - i) == Some(s)
    ensures buf[j - 1] == '"' && Chars(buf, a, j - 1, s)
    decreases |buf| - a
  {
    var text := buf[i..j];
    assert text[a - i] == buf[a];
    if buf[a] == '"' {
    } else if buf[a] != '\\' {
      ReadChars(buf, i, a + 1, j, s[1..]);
    } else {
      assert a + 1 < j;
      assert text[a + 1 - i] == buf[a + 1];
      EscapesIs(buf[a + 1], s[0]);
      ReadChars(buf, i, a + 2, j, s[1..]);
    }
  }

  lemma HexIs(c: char)
    ensures IsHex(c) <==> c in "0123456789abcdefABCDEF"
  {}

  lemma UnicodePassed(buf: string, a: nat)
    requires a + 6 <= |buf| && buf[a] == '\\' && buf[a + 1] == 'u'
    requires forall k :: a + 2 <= k < a + 6 ==> buf[k] in "0123456789abcdefABCDEF"
    ensures StringEnd(buf, a) == StringEnd(buf, a + 6)
  {
    hide IsHex;
    forall k | a + 2 <= k < a + 6 ensures IsHex(buf[k]) {
      HexIs(buf[k]);
    }
  }

  lemma EscapePassed(buf: string, a: nat)
    requires a + 2 <= |buf| && buf[a] == '\\' && buf[a + 1] in "\"\\/bfnrt"
    ensures StringEnd(buf, a) == StringEnd(buf, a + 2)
  {
    EscapesIs(buf[a + 1], buf[a + 1]);
  }

  lemma {:induction false} RawReads(buf: string, a: nat, j: nat)
    requires a < j <= |buf| && buf[j - 1] == '"' && Raw(buf, a, j - 1)
    ensures StringEnd(buf, a) == Some(j)
    decreases j - a
  {
    hide IsHex, IsEscape;
    if a < j - 1 {
      if buf[a] != '\\' {
        RawReads(buf, a + 1, j);
      } else if buf[a + 1] == 'u' {
        UnicodePassed(buf, a);
        RawReads(buf, a + 6, j);
      } else {
        EscapePassed(buf, a);
        RawReads(buf, a + 2, j);
      }
    }
  }

  lemma {:induction false} ReadsRaw(buf: string, a: nat, j: nat)
    requires a <= |buf| && StringEnd(buf, a) == Some(j)
    ensures a < j <= |buf| && buf[j - 1] == '"' && Raw(buf, a, j - 1)
    decreases |buf| - a
  {
    if buf[a] == '"' {
    } else if buf[a] != '\\' {
      ReadsRaw(buf, a + 1, j);
    } else if buf[a + 1] == 'u' {
      forall k | a + 2 <= k < a + 6 ensures buf[k] in "0123456789abcdefABCDEF" {
        HexIs(buf[k]);
      }
      ReadsRaw(buf, a + 6, j);
    } else {
      EscapesIs(buf[a + 1], buf[a + 1]);
      ReadsRaw(buf, a + 2, j);
    }
  }

  /** A quoted stretch is a token. */
  lemma TextAt(buf: string, a: nat, i: nat, j: nat)
    requires Blanks(buf, a, i) && i + 2 <= j <= |buf| && buf[i] == '"' && StringEnd(buf, i + 1) == Some(j)
    ensures Next(buf, a) == Lexed(Token(Text, i, j - i), j)
  {
    hide Next, Blanks, StringEnd;
    NextAt(buf, a, i);
    NoOperator(buf, i);
  }

  lemma PrefixOf(buf: string, from: nat, end: nat, n: nat)
    requires from <= from + n <= end <= |buf|
    ensures buf[from..end][..n] == buf[from..from + n]
  {}

  /** What precedes the first NUL, as the parser looks for it. */
  lemma NulFound(buf: string, from: nat, end: nat, key: string)
    requires from <= end <= |buf| && UpToNul(buf[from..end], key)
    ensures buf[from..Span(NotNul, buf[..end], from)] == key
  {
    var s, n := buf[from..end], |key|;
    forall k | from <= k < from + n ensures NotNul(buf[..end][k]) {
      assert buf[..end][k] == s[k - from] == key[k - from];
    }
    assert n < |s| ==> buf[..end][from + n] == s[n];
    SpanIs(NotNul, buf[..end], from, from + n);
    PrefixOf(buf, from, end, n);
  }

  lemma FoundNul(buf: string, from: nat, end: nat, e: nat)
    requires from <= end <= |buf| && e == Span(NotNul, buf[..end], from)
    ensures UpToNul(buf[from..end], buf[from..e])
  {
    var s, n := buf[from..end], e - from;
    PrefixOf(buf, from, end, n);
    forall k | 0 <= k < n ensures buf[from..e][k] != 0 as char {
      assert NotNul(buf[..end][from + k]);
    }
    assert n < |s| ==> s[n] == buf[..end][e] && !NotNul(buf[..end][e]);
  }

  lemma KeyIs(buf: string, i: nat, j: nat, key: string)
    requires i + 2 <= j <= |buf|
    ensures UpToNul(if j == i + 2 then buf[i + 1..] else buf[i + 1..j - 1], key) <==> Literal(buf, i + 1, j - i - 2) == key
  {
    hide UpToNul, Span;
    var end := if j == i + 2 then |buf| else j - 1;
    assert (if j == i + 2 then buf[i + 1..] else buf[i + 1..j - 1]) == buf[i + 1..end];
    FoundNul(buf, i + 1, end, Span(NotNul, buf[..end], i + 1));
    if UpToNul(buf[i + 1..end], key) {
      NulFound(buf, i + 1, end, key);
    }
  }

  // ---------- Numbers ----------

  lemma DigitIs(c: char)
    ensures IsDigit(c) <==> c in "0123456789"
  {}

  lemma AllIs(s: string)
    ensures All(s, "0123456789") <==> s != [] && AllDigits(s)
  {
    if All(s, "0123456789") {
      forall k | 0 <= k < |s| ensures IsDigit(s[k]) {
        DigitIs(s[k]);
      }
    }
    if AllDigits(s) {
      forall k | 0 <= k < |s| ensures s[k] in "0123456789" {
        DigitIs(s[k]);
      }
    }
  }

  lemma WrapsIs(n: int, m: int)
    ensures Wraps(n, m) <==> ToInt64(m) == n
  {
    var q := m / WORD64;
    if Wraps(n, m) {
      var k := (n - m) / WORD64;
      assert m == n - WORD64 * k;
      SameRest(n, k);
    }
  }

  lemma SameRest(n: int, k: int)
    requires 0 - I64 <= n < I64
    ensures ToInt64(n - WORD64 * k) == n
  {
    var x := n - WORD64 * k;
    var q, r := x / WORD64, x % WORD64;
    assert r == n - WORD64 * (k + q);
    assert k + q == if n < 0 then 0 - 1 else 0;
  }

  /** Negating before or after wrapping around is the same. */
  lemma NegatedWrap(m: int)
    ensures ToInt64(0 - ToInt64(m)) == ToInt64(0 - m)
  {
    var k := (ToInt64(m) - m) / WORD64;
    assert ToInt64(m) == m + WORD64 * k;
    WrapsIs(ToInt64(0 - m), 0 - m);
    WrapsIs(ToInt64(0 - m), 0 - ToInt64(m));
    Shifted(ToInt64(0 - m), 0 - m, k);
  }

  lemma Shifted(n: int, m: int, k: int)
    requires (n - m) % WORD64 == 0
    ensures (n - (m - WORD64 * k)) % WORD64 == 0
  {}

  /** The stretch of digits from a to b ends there. */
  lemma DigitsEnd(buf: string, a: nat, b: nat)
    requires a <= b <= |buf| && AllDigits(buf[a..b]) && (b < |buf| ==> !IsDigit(buf[b]))
    ensures Span(IsDigit, buf, a) == b
  {
    forall k | a <= k < b ensures IsDigit(buf[k]) {
      assert buf[a..b][k - a] == buf[k];
    }
    SpanIs(IsDigit, buf, a, b);
  }

  lemma FirstDigit(buf: string, a: nat, b: nat)
    requires a < b <= |buf| && AllDigits(buf[a..b])
    ensures IsDigit(buf[a])
  {
    assert buf[a..b][0] == buf[a];
  }

  lemma SecondDigit(buf: string, a: nat, b: nat)
    requires a < b <= |buf| && AllDigits(buf[a..b])
    ensures a + 1 < b ==> IsDigit(buf[a + 1])
  {
    assert a + 1 < b ==> buf[a..b][1] == buf[a + 1];
  }

  lemma FollowsNumber(buf: string, j: nat)
    requires Follows(buf, j) && j < |buf|
    ensures !IsDigit(buf[j]) && buf[j] !in ".fFeE+-xXbBoO" && !IsHex(buf[j])
  {}

  // ----- prefixed numbers

  lemma InBase(buf: string, i: nat, j: nat, p: char -> bool, cs: string)
    requires i + 2 < j <= |buf| && All(buf[i + 2..j], cs) && (forall c :: c in cs ==> p(c)) && (j < |buf| ==> !p(buf[j]))
    ensures BaseEnd(p, buf, i + 2) == Option.Some(j)
  {
    forall k | i + 2 <= k < j ensures p(buf[k]) {
      assert buf[i + 2..j][k - i - 2] == buf[k];
    }
    SpanIs(p, buf, i + 2, j);
  }

  lemma PrefixedEnd(buf: string, i: nat, j: nat)
    requires i < j <= |buf| && Prefixed(buf[i..j]) && Follows(buf, j)
    ensures IsDigit(buf[i]) && NumberEnd(buf, i) == Option.Some(j)
  {
    var t := buf[i..j];
    assert buf[i] == t[0] && buf[i + 1] == t[1] && buf[i + 2..j] == t[2..];
    if j < |buf| {
      FollowsNumber(buf, j);
    }
    if t[1] in "xX" {
      InBase(buf, i, j, IsHex, "0123456789abcdfABCDF");
    } else if t[1] in "bB" {
      InBase(buf, i, j, IsBinary, "01");
    } else {
      InBase(buf, i, j, IsOctal, "01234567");
    }
  }

  lemma ZeroIs()
    ensures AllDigits("0") && Decimal.Number("0") == 0 && ToInt64(0) == 0
  {
    assert "0"[..0] == [];
  }

  lemma PrefixedValue(t: string)
    requires Prefixed(t)
    ensures !IsFloat(t) && Int64Of(t) == 0
  {
    forall k | 0 <= k < |t| ensures t[k] != '.' && t[k] != 'e' && t[k] != 'E' {
      assert k >= 2 ==> t[k] == t[2..][k - 2];
    }
    RunUnique(t, 1);
    ZeroIs();
    assert t[..1] == "0";
  }

  // ----- decimal integers

  /** The digits of t lie from a up to d. */
  lemma DigitsLie(buf: string, i: nat, j: nat, t: string) returns (a: nat, d: nat)
    requires i < j <= |buf| && t == buf[i..j] && All(Digits(t), "0123456789")
    ensures i <= a < d <= j && buf[a..d] == Digits(t) && AllDigits(buf[a..d])
    ensures a == (if Negative(t) then i + 1 else i) && (Negative(t) <==> buf[i] == '-')
    ensures d == j || (d == j - 1 && buf[d] in "fF")
  {
    var u := if Negative(t) then t[1..] else t;
    a := if Negative(t) then i + 1 else i;
    assert u == buf[a..j];
    d := if u != [] && u[|u| - 1] in "fF" then j - 1 else j;
    assert d == j - 1 ==> buf[d] == u[|u| - 1];
    assert buf[a..d] == Digits(t);
    AllIs(buf[a..d]);
  }

  lemma DecimalEnd(buf: string, i: nat, j: nat, t: string)
    requires i < j <= |buf| && t == buf[i..j] && All(Digits(t), "0123456789") && Follows(buf, j)
    ensures buf[i] == '-' || IsDigit(buf[i])
    ensures NumberEnd(buf, i) == Option.Some(j) && OperatorLength(buf, i) == 0
  {
    hide Digits, Negative, OperatorLength, All, Span, Follows;
    var a, d := DigitsLie(buf, i, j, t);
    if j < |buf| {
      FollowsNumber(buf, j);
    }
    FirstDigit(buf, a, d);
    SecondDigit(buf, a, d);
    DigitsEnd(buf, a, d);
    if buf[i] == '-' {
      NoMinus(buf, i);
    } else {
      NoOperator(buf, i);
    }
  }

  lemma DecimalValue(t: string)
    requires All(Digits(t), "0123456789") && AllDigits(Digits(t))
    ensures !IsFloat(t)
    ensures Int64Of(t) == ToInt64(if Negative(t) then 0 - Decimal.Number(Digits(t)) else Decimal.Number(Digits(t)))
  {
    hide Digits, Negative, All, Decimal.Number, ToInt64;
    assert t[0..|t|] == t;
    assert t != [] by {
      NotEmpty(t);
    }
    var a, d := DigitsLie(t, 0, |t|, t);
    forall k | 0 <= k < |t| ensures t[k] != '.' && t[k] != 'e' && t[k] != 'E' {
      if a <= k < d {
        assert t[a..d][k - a] == t[k];
      }
    }
    if Negative(t) {
      assert t[1..][..d - 1] == t[a..d];
      assert d < |t| ==> t[1..][d - 1] == t[d];
      RunUnique(t[1..], d - 1);
    } else {
      assert t[..d] == t[a..d];
      RunUnique(t, d);
    }
  }

  lemma NotEmpty(t: string)
    requires All(Digits(t), "0123456789")
    ensures t != []
  {}

  // ----- floating-point numbers

  /** Where the parts of a floating-point number lie. */
  lemma FloatLies(buf: string, i: nat, j: nat, t: string, a: nat, b: nat)
    requires i < j <= |buf| && t == buf[i..j] && FloatCut(t, a, b)
    ensures 0 < a <= b && i + b <= j && i + a < j && AllDigits(buf[i..i + a])
    ensures if a < b then a + 1 < b && buf[i + a] == '.' && AllDigits(buf[i + a + 1..i + b]) else buf[i + a] in "eE"
    ensures b < |t| ==> buf[i + b] in "eE" && i + b + 1 < j
    ensures b < |t| ==> var q := if buf[i + b + 1] in "+-" then i + b + 2 else i + b + 1; q < j && AllDigits(buf[q..j])
  {
    SliceOfSlice(buf, i, j, 0, a);
    assert t[..a] == t[0..a];
    AllIs(t[..a]);
    if a < b {
      SliceOfSlice(buf, i, j, a + 1, b);
      AllIs(t[a + 1..b]);
      assert buf[i + a] == t[a];
    }
    if b < |t| {
      var e := t[b..];
      assert buf[i + b] == t[b] == e[0] && buf[i + b + 1] == t[b + 1] == e[1];
      SliceOfSlice(t, b, |t|, 1, |t| - b);
      SliceOfSlice(t, b, |t|, 2, |t| - b);
      SliceOfSlice(buf, i, j, b + 1, |t|);
      SliceOfSlice(buf, i, j, b + 2, |t|);
      AllIs(e[1..]);
      AllIs(e[2..]);
      assert AllDigits(e[1..]) ==> IsDigit(e[1..][0]);
    }
  }

  lemma NotDigit(c: char)
    requires c in ".eE"
    ensures !IsDigit(c) && c !in "fF" && c !in "xXbBoO"
  {}

  lemma FloatExponent(buf: string, x: nat, j: nat)
    requires x < j <= |buf| && buf[x] in "eE" && x + 1 < j && (j < |buf| ==> !IsDigit(buf[j]))
    requires var q := if buf[x + 1] in "+-" then x + 2 else x + 1; q < j && AllDigits(buf[q..j])
    ensures ExponentEnd(buf, x) == j
  {
    hide Span;
    var q := if buf[x + 1] in "+-" then x + 2 else x + 1;
    FirstDigit(buf, q, j);
    DigitsEnd(buf, q, j);
  }

  lemma FractionTo(buf: string, x: nat, y: nat)
    requires x <= y <= |buf| && (y < |buf| ==> !IsDigit(buf[y]))
    requires if x < y then buf[x] == '.' && x + 1 < y && AllDigits(buf[x + 1..y]) else y < |buf| ==> buf[y] != '.'
    ensures FractionEnd(buf, x) == y
  {
    hide Span;
    if x < y {
      DigitsEnd(buf, x + 1, y);
    }
  }

  lemma NoExponent(buf: string, j: nat)
    requires j <= |buf| && (j < |buf| ==> buf[j] !in "eE")
    ensures ExponentEnd(buf, j) == j
  {}

  /** What stands behind the fraction: an exponent, or what may follow a value. */
  lemma FloatTail(buf: string, x: nat, j: nat)
    requires x <= j <= |buf| && Follows(buf, j)
    requires x < j ==> buf[x] in "eE" && x + 1 < j && var q := if buf[x + 1] in "+-" then x + 2 else x + 1; q < j && AllDigits(buf[q..j])
    ensures SuffixEnd(buf, x) == x && ExponentEnd(buf, x) == j && (x < |buf| ==> !IsDigit(buf[x]) && buf[x] !in ".xXbBoO")
  {
    if j < |buf| {
      FollowsNumber(buf, j);
    }
    hide Follows, ExponentEnd;
    if x < j {
      NotDigit(buf[x]);
      FloatExponent(buf, x, j);
    } else {
      NoExponent(buf, j);
    }
  }

  lemma FloatEnd(buf: string, i: nat, j: nat, t: string, a: nat, b: nat)
    requires i < j <= |buf| && t == buf[i..j] && FloatCut(t, a, b) && Follows(buf, j)
    ensures IsDigit(buf[i]) && NumberEnd(buf, i) == Option.Some(j) && OperatorLength(buf, i) == 0
  {
    hide FloatCut, OperatorLength, Span, Follows, ExponentEnd, FractionEnd, SuffixEnd, AllDigits;
    FloatLies(buf, i, j, t, a, b);
    FirstDigit(buf, i, i + a);
    NoOperator(buf, i);
    FloatTail(buf, i + b, j);
    NotDigit(if a < b then '.' else buf[i + a]);
    DigitsEnd(buf, i, i + a);
    SecondDigit(buf, i, i + a);
    FractionTo(buf, i + a, i + b);
  }

  lemma FloatValue(t: string, a: nat, b: nat)
    requires FloatCut(t, a, b)
    ensures IsFloat(t) && IsDouble(t)
  {
    hide Span, AllDigits, ExponentComplete, All, Exponent;
    assert t[0..|t|] == t;
    FloatLies(t, 0, |t|, t, a, b);
    FirstDigit(t, 0, a);
    NotDigit(if a < b then '.' else t[a]);
    DigitsEnd(t, 0, a);
    FloatRest(t, b);
    if a < b {
      FirstDigit(t, a + 1, b);
      DigitsEnd(t, a + 1, b);
    }
  }

  lemma FloatRest(t: string, b: nat)
    requires b <= |t|
    requires b < |t| ==> t[b] in "eE" && b + 1 < |t| && var q := if t[b + 1] in "+-" then b + 2 else b + 1; q < |t| && AllDigits(t[q..|t|])
    ensures ExponentComplete(t, b) && (b < |t| ==> !IsDigit(t[b]))
  {
    hide Span;
    if b < |t| {
      var q := if t[b + 1] in "+-" then b + 2 else b + 1;
      NotDigit(t[b]);
      FirstDigit(t, q, |t|);
      DigitsEnd(t, q, |t|);
    }
  }

  /** The digits of a stretch. */
  lemma StretchDigits(buf: string, a: nat)
    requires a <= |buf|
    ensures AllDigits(buf[a..Span(IsDigit, buf, a)])
  {}

  lemma ExponentIs(t: string, b: nat)
    requires b < |t| && ExponentComplete(t, b)
    ensures Exponent(t[b..])
  {
    var q := if b + 1 < |t| && (t[b + 1] == '+' || t[b + 1] == '-') then b + 2 else b + 1;
    StretchDigits(t, q);
    assert t[b..][1..] == t[b + 1..|t|] && (b + 2 <= |t| ==> t[b..][2..] == t[b + 2..|t|]);
    AllIs(t[q..|t|]);
  }

  lemma NotJustDigits(t: string)
    requires IsFloat(t)
    ensures Span(IsDigit, t, 0) < |t|
  {
    var k :| 0 <= k < |t| && (t[k] == '.' || t[k] == 'e' || t[k] == 'E');
    assert !IsDigit(t[k]);
  }

  lemma DoubleIsFloat(t: string)
    requires IsFloat(t) && IsDouble(t)
    ensures Float(t)
  {
    var a := Span(IsDigit, t, 0);
    var b := if a + 1 < |t| && t[a] == '.' && IsDigit(t[a + 1]) then Span(IsDigit, t, a + 1) else a;
    assert a > 0;
    StretchDigits(t, 0);
    assert t[0..a] == t[..a];
    AllIs(t[..a]);
    if a < b {
      StretchDigits(t, a + 1);
      AllIs(t[a + 1..b]);
    }
    if b < |t| {
      ExponentIs(t, b);
    }
    NotJustDigits(t);
    assert FloatCut(t, a, b);
  }

  // ----- numbers as tokens

  lemma IntegerValue(t: string, m: int, n: int, negative: bool)
    requires Integer(t, m) && Wraps(n, if negative then 0 - m else m)
    ensures NumberValue(t, negative) == Option.Some(Int(n))
  {
    hide Wraps, ToInt64, Int64Of, IsFloat, Digits, Negative;
    if Prefixed(t) && m == 0 {
      PrefixedValue(t);
      ZeroIs();
    } else {
      DecimalValue(t);
    }
    NegatedWrap(m);
    WrapsIs(n, if negative then 0 - m else m);
  }

  /** A numeral is one token and has its value. */
  lemma NumericRead(buf: string, i: nat, j: nat, negative: bool, v: Json)
    requires i < j <= |buf| && Numeric(buf[i..j], negative, v) && Follows(buf, j)
    ensures buf[i] == '-' || IsDigit(buf[i])
    ensures NumberEnd(buf, i) == Option.Some(j) && OperatorLength(buf, i) == 0
    ensures NumberValue(buf[i..j], negative) == Option.Some(v)
  {
    hide NumberEnd, OperatorLength, NumberValue, Follows, FloatCut, Prefixed, Digits, All, Decimal.Number;
    var t := buf[i..j];
    match v
    case Int(n) =>
      var m: int :| Integer(t, m) && Wraps(n, if negative then 0 - m else m);
      IntegerValue(t, m, n, negative);
      if Prefixed(t) {
        PrefixedEnd(buf, i, j);
        DigitFirst(buf, i);
      } else {
        DecimalEnd(buf, i, j, t);
      }
    case Real(_, _) =>
      var a: nat, b: nat :| FloatCut(t, a, b);
      FloatEnd(buf, i, j, t, a, b);
      FloatValue(t, a, b);
      RealValue(t, negative);
    case _ =>
  }

  lemma DigitFirst(buf: string, i: nat)
    requires i < |buf| && IsDigit(buf[i])
    ensures OperatorLength(buf, i) == 0
  {
    NoOperator(buf, i);
  }

  lemma RealValue(t: string, negative: bool)
    requires IsFloat(t) && IsDouble(t)
    ensures NumberValue(t, negative) == Option.Some(Real(negative, t))
  {}

  lemma NumberToken(buf: string, i: nat, j: nat)
    requires i < j <= |buf| && (buf[i] == '-' || IsDigit(buf[i])) && NumberEnd(buf, i) == Option.Some(j) && OperatorLength(buf, i) == 0
    ensures TokenAt(buf, i) == Lexed(Token(Number, i, j - i), j) && buf[i] !in " \t\n\r"
  {
    hide NumberEnd, OperatorLength;
  }

  /** A minus sign that is not taken for an operator stands before a digit or a dot. */
  lemma MinusTaken(buf: string, i: nat)
    requires i < |buf| && buf[i] == '-' && OperatorLength(buf, i) == 0
    ensures i + 1 < |buf| && (IsDigit(buf[i + 1]) || buf[i + 1] == '.')
  {
    assert buf[i] in OPS1;
  }

  lemma NoFraction(buf: string, d: nat, j: nat)
    requires d <= |buf| && FractionEnd(buf, d) <= j <= |buf| && forall k :: d <= k < j ==> buf[k] != '.'
    ensures FractionEnd(buf, d) == d && (d < |buf| ==> buf[d] != '.')
  {}

  lemma NoExponentIn(buf: string, u: nat, j: nat)
    requires u <= |buf| && ExponentEnd(buf, u) == j && forall k :: u <= k < j ==> buf[k] != 'e' && buf[k] != 'E'
    ensures j == u
  {}

  lemma PlainDigits(buf: string, i: nat, j: nat)
    requires i < j <= |buf| && (buf[i] == '-' || buf[i] == '.' || IsDigit(buf[i])) && OperatorLength(buf, i) == 0
    requires PlainEnd(buf, i) == j && !IsFloat(buf[i..j])
    ensures All(Digits(buf[i..j]), "0123456789")
  {
    hide OperatorLength, Span, FractionEnd, ExponentEnd, All, Digits, Negative;
    forall k | i <= k < j ensures buf[k] != '.' && buf[k] != 'e' && buf[k] != 'E' {
      assert buf[i..j][k - i] == buf[k];
    }
    var a := if buf[i] == '-' then i + 1 else i;
    if buf[i] == '-' {
      MinusTaken(buf, i);
    }
    var d := Span(IsDigit, buf, a);
    NoFraction(buf, d, j);
    NoExponentIn(buf, SuffixEnd(buf, d), j);
    DigitsAre(buf, i, j, a, d);
  }

  lemma DigitsAre(buf: string, i: nat, j: nat, a: nat, d: nat)
    requires i < j <= |buf| && a == (if buf[i] == '-' then i + 1 else i) && a <= d <= j == SuffixEnd(buf, d) && d == Span(IsDigit, buf, a)
    requires a < |buf| && (buf[a] == '.' || IsDigit(buf[a])) && (d < |buf| ==> buf[d] != '.')
    ensures All(Digits(buf[i..j]), "0123456789")
  {
    hide All;
    var t := buf[i..j];
    assert a < d;
    StretchDigits(buf, a);
    AllIs(buf[a..d]);
    assert t[0] == buf[i];
    SliceOfSlice(buf, i, j, a - i, j - i);
    assert (if Negative(t) then t[1..] else t) == buf[a..j];
    DigitsWithin(buf, a, d, j);
  }

  /** Digits, perhaps with an f behind. */
  lemma DigitsWithin(buf: string, a: nat, d: nat, j: nat)
    requires a < d <= j <= |buf| && AllDigits(buf[a..d]) && (j == d || (j == d + 1 && buf[d] in "fF"))
    ensures Unsuffixed(buf[a..j]) == buf[a..d]
  {
    var u := buf[a..j];
    assert u[|u| - 1] == buf[j - 1];
    if j == d {
      assert buf[a..d][|u| - 1] == buf[j - 1];
    } else {
      SliceFront(buf, a, j, d - a);
    }
  }

  lemma PrefixedDigits(buf: string, i: nat, j: nat, p: char -> bool, cs: string)
    requires i + 2 <= |buf| && BaseEnd(p, buf, i + 2) == Option.Some(j) && forall k :: i + 2 <= k < j && p(buf[k]) ==> buf[k] in cs
    ensures i + 2 < j <= |buf| && All(buf[i..j][2..], cs)
  {
    assert buf[i..j][2..] == buf[i + 2..j];
  }

  lemma IntegerRead(buf: string, i: nat, j: nat)
    requires i < j <= |buf| && (buf[i] == '-' || buf[i] == '.' || IsDigit(buf[i])) && OperatorLength(buf, i) == 0
    requires NumberEnd(buf, i) == Option.Some(j) && !IsFloat(buf[i..j])
    ensures Prefixed(buf[i..j]) || All(Digits(buf[i..j]), "0123456789")
  {
    hide OperatorLength, BaseEnd, PlainEnd, All, Digits, IsFloat;
    var t := buf[i..j];
    assert i + 1 < j ==> t[1] == buf[i + 1];
    if buf[i] == '0' && i + 1 < |buf| && buf[i + 1] in "xX" {
      NoE(buf, i, j);
      PrefixedDigits(buf, i, j, IsHex, "0123456789abcdfABCDF");
    } else if buf[i] == '0' && i + 1 < |buf| && buf[i + 1] in "bB" {
      PrefixedDigits(buf, i, j, IsBinary, "01");
    } else if buf[i] == '0' && i + 1 < |buf| && buf[i + 1] in "oO" {
      PrefixedDigits(buf, i, j, IsOctal, "01234567");
    } else {
      PlainDigits(buf, i, j);
    }
  }

  lemma NoE(buf: string, i: nat, j: nat)
    requires i <= j <= |buf| && !IsFloat(buf[i..j])
    ensures forall k :: i <= k < j && IsHex(buf[k]) ==> buf[k] in "0123456789abcdfABCDF"
  {
    forall k | i <= k < j ensures buf[k] != 'e' && buf[k] != 'E' {
      assert buf[i..j][k - i] == buf[k];
    }
  }

  lemma ReadNumeric(buf: string, i: nat, j: nat, negative: bool, v: Json)
    requires i < j <= |buf| && (buf[i] == '-' || buf[i] == '.' || IsDigit(buf[i])) && OperatorLength(buf, i) == 0
    requires NumberEnd(buf, i) == Option.Some(j) && NumberValue(buf[i..j], negative) == Option.Some(v)
    ensures Numeric(buf[i..j], negative, v)
  {
    hide OperatorLength, NumberEnd, IsFloat, IsDouble, Prefixed, Digits, All, ToInt64, Int64Of, Float, Wraps;
    var t := buf[i..j];
    if IsFloat(t) {
      DoubleIsFloat(t);
    } else {
      IntegerRead(buf, i, j);
      IntegerNumeric(t, negative, v);
    }
  }

  lemma IntegerNumeric(t: string, negative: bool, v: Json)
    requires Prefixed(t) || All(Digits(t), "0123456789")
    requires v == Int(if negative then ToInt64(0 - Int64Of(t)) else Int64Of(t))
    ensures Numeric(t, negative, v)
  {
    hide Prefixed, Digits, All, ToInt64, Int64Of, Wraps, Decimal.Number;
    var m: int;
    if Prefixed(t) {
      PrefixedValue(t);
      ZeroIs();
      m := 0;
    } else {
      AllIs(Digits(t));
      DecimalValue(t);
      m := if Negative(t) then 0 - Decimal.Number(Digits(t)) else Decimal.Number(Digits(t));
    }
    NegatedWrap(m);
    WrapsIs(v.n, if negative then 0 - m else m);
    assert Integer(t, m);
  }
}
