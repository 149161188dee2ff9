/**
 * Which texts spell which JSON values, position by position: a grammar that knows nothing of tokens or
 * of the order in which a parser looks at them. Spelled(buf, i, j, v) says that the characters of buf
 * from i up to j spell v.
 */
module JsonGrammar {
  import opened Decimal
  import opened JsonValues

  /** Any number of the four blanks. */
  ghost predicate Blanks(buf: string, i: nat, j: nat) {
    i <= j <= |buf| && forall k :: i <= k < j ==> buf[k] in " \t\n\r"
  }

  ghost predicate Word(buf: string, i: nat, j: nat, w: string) {
    j == i + |w| <= |buf| && buf[i..j] == w
  }

  // ---------- Strings ----------

  /** A backslash and e stand for c. */
  predicate Escapes(e: char, c: char) {
    match e
    case '"' => c == '"'
    case '\\' => c == '\\'
    case '/' => c == '/'
    case 'b' => c == 8 as char
    case 'f' => c == 12 as char
    case 'n' => c == 10 as char
    case 'r' => c == 13 as char
    case 't' => c == 9 as char
    case _ => false
  }

  /** The characters between the quotes spell s. */
  ghost predicate Chars(buf: string, a: nat, b: nat, s: string)
    decreases s
  {
    if s == [] then a == b <= |buf|
    else
      || (a < b <= |buf| && buf[a] != '"' && buf[a] != '\\' && s[0] == buf[a] && Chars(buf, a + 1, b, s[1..]))
      || (a + 1 < b <= |buf| && buf[a] == '\\' && Escapes(buf[a + 1], s[0]) && Chars(buf, a + 2, b, s[1..]))
  }

  /** The characters between the quotes of a key: the escapes have to be right, but are left as they are. */
  ghost predicate Raw(buf: string, a: nat, b: nat)
    decreases b - a
  {
    a <= b <= |buf| &&
    (|| a == b
     || (a < b && buf[a] != '"' && buf[a] != '\\' && Raw(buf, a + 1, b))
     || (a + 1 < b && buf[a] == '\\' && buf[a + 1] in "\"\\/bfnrt" && Raw(buf, a + 2, b))
     || (a + 5 < b && buf[a] == '\\' && buf[a + 1] == 'u' &&
         (forall k :: a + 2 <= k < a + 6 ==> buf[k] in "0123456789abcdefABCDEF") && Raw(buf, a + 6, b)))
  }

  /** key is all of s, or what precedes its first NUL. */
  ghost predicate UpToNul(s: string, key: string) {
    key <= s && 0 as char !in key && (|key| < |s| ==> s[|key|] == 0 as char)
  }

  /** A quoted key; an empty one goes on to the end of the text, or to a NUL. */
  ghost predicate KeyAt(buf: string, i: nat, j: nat, key: string) {
    && i + 2 <= j <= |buf| && buf[i] == '"' && buf[j - 1] == '"' && Raw(buf, i + 1, j - 1)
    && UpToNul(if j == i + 2 then buf[i + 1..] else buf[i + 1..j - 1], key)
  }

  // ---------- Numbers ----------

  predicate All(s: string, cs: string) {
    s != [] && forall k :: 0 <= k < |s| ==> s[k] in cs
  }

  /** A number in base 16, 2 or 8; one with a hexadecimal E is taken for a floating-point number, and refused. */
  predicate Prefixed(t: string) {
    |t| > 2 && t[0] == '0' &&
    (|| (t[1] in "xX" && All(t[2..], "0123456789abcdfABCDF"))
     || (t[1] in "bB" && All(t[2..], "01"))
     || (t[1] in "oO" && All(t[2..], "01234567")))
  }

  function Unsuffixed(t: string): string {
    if t != [] && t[|t| - 1] in "fF" then t[..|t| - 1] else t
  }

  predicate Negative(t: string) {
    t != [] && t[0] == '-'
  }

  /** The digits of a decimal number, which may have a minus sign and an f behind. */
  function Digits(t: string): string {
    Unsuffixed(if Negative(t) then t[1..] else t)
  }

  /** t is an integer and stands for m; prefixed ones stand for zero. */
  ghost predicate Integer(t: string, m: int) {
    || (Prefixed(t) && m == 0)
    || (All(Digits(t), "0123456789") && AllDigits(Digits(t)) && m == if Negative(t) then 0 - Number(Digits(t)) else Number(Digits(t)))
  }

  /** n is m, wrapped around into 64 bits. */
  predicate Wraps(n: int, m: int) {
    0 - 0x8000_0000_0000_0000 <= n < 0x8000_0000_0000_0000 && (n - m) % 0x1_0000_0000_0000_0000 == 0
  }

  predicate Exponent(e: string) {
    |e| > 1 && e[0] in "eE" && (All(e[1..], "0123456789") || (e[1] in "+-" && All(e[2..], "0123456789")))
  }

  /** Digits up to a, a fraction up to b, an exponent; not all of them digits. */
  predicate FloatCut(t: string, a: nat, b: nat) {
    && a <= b <= |t| && (a < b || b < |t|) && All(t[..a], "0123456789")
    && (a == b || (t[a] == '.' && All(t[a + 1..b], "0123456789")))
    && (b == |t| || Exponent(t[b..]))
  }

  ghost predicate Float(t: string) {
    exists a: nat, b: nat :: FloatCut(t, a, b)
  }

  /** The numeral t, negated if negative is set. */
  ghost predicate Numeric(t: string, negative: bool, v: Json) {
    match v
    case Int(n) => exists m: int {:trigger Integer(t, m)} :: Integer(t, m) && Wraps(n, if negative then 0 - m else m)
    case Real(g, text) => g == negative && text == t && Float(t)
    case _ => false
  }

  /** A numeral, or one behind a minus sign that is set off from its digits. */
  ghost predicate NumberAt(buf: string, i: nat, j: nat, v: Json) {
    i < j <= |buf| &&
    (|| Numeric(buf[i..j], false, v)
     || (buf[i] == '-' && exists k: nat :: MinusAt(buf, i, k, j, v)))
  }

  ghost predicate MinusAt(buf: string, i: nat, k: nat, j: nat, v: Json) {
    i < k < j <= |buf| && Blanks(buf, i + 1, k) && (k > i + 1 || buf[k] == '-') && Numeric(buf[k..j], true, v)
  }

  // ---------- Values ----------

  /** The characters from i up to j spell v. */
  ghost predicate Spelled(buf: string, i: nat, j: nat, v: Json)
    decreases v, 0
  {
    match v
    case Null => Word(buf, i, j, "null")
    case Bool(b) => Word(buf, i, j, if b then "true" else "false")
    case Int(_) => NumberAt(buf, i, j, v)
    case Real(_, _) => NumberAt(buf, i, j, v)
    case Str(s) => i + 2 <= j <= |buf| && buf[i] == '"' && Chars(buf, i + 1, j - 1, s) && buf[j - 1] == '"'
    case Array(items) =>
      i + 2 <= j <= |buf| && buf[i] == '[' &&
      if items == [] then Blanks(buf, i + 1, j - 1) && buf[j - 1] == ']' else ItemsAt(buf, i + 1, j, items)
    case Object(pairs) =>
      i + 2 <= j <= |buf| && buf[i] == '{' &&
      if pairs == [] then Blanks(buf, i + 1, j - 1) && buf[j - 1] == '}' else PairsAt(buf, i + 1, j, pairs)
  }

  /** Where an item begins and ends, and where the comma or bracket behind it is. */
  datatype ItemPlace = ItemPlace(begin: nat, end: nat, close: nat)

  /** From a on: items with commas between them and a closing bracket behind, which ends at j. */
  ghost predicate ItemsAt(buf: string, a: nat, j: nat, items: seq<Json>)
    decreases items, 1
  {
    exists x: ItemPlace :: ItemsFrom(buf, a, j, items, x)
  }

  ghost predicate ItemsFrom(buf: string, a: nat, j: nat, items: seq<Json>, x: ItemPlace)
    decreases items, 0
  {
    && items != [] && Blanks(buf, a, x.begin) && Spelled(buf, x.begin, x.end, items[0]) && Blanks(buf, x.end, x.close)
    && x.close < |buf|
    && if |items| == 1 then buf[x.close] == ']' && j == x.close + 1
       else buf[x.close] == ',' && ItemsAt(buf, x.close + 1, j, items[1..])
  }

  datatype PairPlace = PairPlace(key: nat, keyEnd: nat, colon: nat, begin: nat, end: nat, close: nat)

  ghost predicate PairsAt(buf: string, a: nat, j: nat, pairs: seq<Pair>)
    decreases pairs, 2
  {
    exists x: PairPlace :: PairsFrom(buf, a, j, pairs, x)
  }

  ghost predicate PairsFrom(buf: string, a: nat, j: nat, pairs: seq<Pair>, x: PairPlace)
    decreases pairs, 1
  {
    && pairs != [] && PairAt(buf, a, pairs[0], x) && Blanks(buf, x.end, x.close) && x.close < |buf|
    && if |pairs| == 1 then buf[x.close] == '}' && j == x.close + 1
       else buf[x.close] == ',' && PairsAt(buf, x.close + 1, j, pairs[1..])
  }

  /** A key, a colon and a value, with blanks in front of each. */
  ghost predicate PairAt(buf: string, a: nat, p: Pair, x: PairPlace)
    decreases p, 0
  {
    && Blanks(buf, a, x.key) && KeyAt(buf, x.key, x.keyEnd, p.key)
    && Blanks(buf, x.keyEnd, x.colon) && x.colon < |buf| && buf[x.colon] == ':'
    && Blanks(buf, x.colon + 1, x.begin) && Spelled(buf, x.begin, x.end, p.value)
  }

  /** A whole text: one value with blanks around it. */
  ghost predicate Spells(text: string, v: Json) {
    exists i: nat, j: nat :: Blanks(text, 0, i) && Spelled(text, i, j, v) && Blanks(text, j, |text|)
  }
}
