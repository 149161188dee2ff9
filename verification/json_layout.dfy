/** How printed JSON is laid out: where its lines break, and how far each line is indented. */
module JsonLayout {
  import opened Decimal
  import opened JsonValues
  import opened JsonForm

  // ---------- Texts that are laid out ----------

  /** What a reader knows at a place: whether it is in a string or behind a backslash, and how many brackets are open. */
  datatype Place = Place(quoted: bool, escaped: bool, depth: int)

  function Pass(w: Place, c: char): Place {
    if w.quoted then
      if w.escaped then w.(escaped := false)
      else if c == '\\' then w.(escaped := true)
      else if c == '"' then w.(quoted := false)
      else w
    else if c == '"' then w.(quoted := true)
    else if c in "[{" then w.(depth := w.depth + 1)
    else if c in "]}" then w.(depth := w.depth - 1)
    else w
  }

  function PlaceAt(out: string, p: nat): Place
    requires p <= |out|
  {
    if p == 0 then Place(false, false, 0) else Pass(PlaceAt(out, p - 1), out[p - 1])
  }

  /** Character p is no part of a string. */
  predicate Outside(out: string, p: nat)
    requires p < |out|
  {
    !PlaceAt(out, p).quoted && out[p] != '"'
  }

  /** Behind the line break at p: blanks up to q, as many as the depth there asks for, a closing bracket counted as closed. */
  ghost predicate LineAt(out: string, p: nat, q: nat, indent: nat) {
    && p < q < |out| && out[q] != ' ' && out[q] != '\n' && (forall k :: p < k < q ==> out[k] == ' ')
    && q - p - 1 == (PlaceAt(out, q).depth - (if out[q] in "]}" then 1 else 0)) * indent % 0x1_0000_0000
  }

  /** Only blanks between the line break at n and place p. */
  ghost predicate InMargin(out: string, n: nat, p: nat) {
    n < p < |out| && Outside(out, n) && out[n] == '\n' && forall k :: n < k < p ==> out[k] == ' '
  }

  /** Without indentation there are no blanks; with it, every line begins with its margin, and lines break behind brackets and commas only. */
  ghost predicate LaidOut(out: string, indent: nat) {
    forall p :: 0 <= p < |out| && Outside(out, p) ==> LaidOutAt(out, p, indent)
  }

  ghost predicate LaidOutAt(out: string, p: nat, indent: nat)
    requires p < |out|
  {
    if indent == 0 then out[p] != ' ' && out[p] != '\n'
    else
      && (out[p] == '\n' ==> exists q: nat :: LineAt(out, p, q, indent))
      && (out[p] in "[{" ==> p + 1 < |out| && (out[p + 1] == '\n' || out[p + 1] in "]}"))
      && (out[p] == ',' ==> p + 1 < |out| && out[p + 1] == '\n')
      && (out[p] == ':' ==> p + 1 < |out| && out[p + 1] == ' ')
      && (out[p] == ' ' ==> (p > 0 && out[p - 1] == ':') || exists n: nat :: InMargin(out, n, p))
      && (out[p] in "]}" ==> (p > 0 && out[p - 1] in "[{") || exists n: nat :: InMargin(out, n, p))
  }

  // ---------- A reader that checks the layout ----------

  /** Margin(n, last): n blanks behind a line break, with a closing bracket to come exactly if last. */
  datatype Mode = Plain | Quote | Escape | Opened | Comma | Colon | Margin(n: nat, last: bool)

  datatype Reading = Reading(mode: Mode, depth: int) | Broken

  predicate Closes(c: char) { c == ']' || c == '}' }

  /** A character outside strings that is in its place. */
  function Start(depth: int, c: char): Reading {
    if c == '"' then Reading(Quote, depth)
    else if c == '[' || c == '{' then Reading(Opened, depth + 1)
    else if Closes(c) then Reading(Plain, depth - 1)
    else if c == ',' then Reading(Comma, depth)
    else if c == ':' then Reading(Colon, depth)
    else Reading(Plain, depth)
  }

  function Wide(depth: int, c: char, indent: nat): int {
    (depth - if Closes(c) then 1 else 0) * indent % 0x1_0000_0000
  }

  function Read(r: Reading, c: char, indent: nat): Reading {
    if r.Broken? then Broken
    else
      match r.mode
      case Quote => Reading(if c == '\\' then Escape else if c == '"' then Plain else Quote, r.depth)
      case Escape => Reading(Quote, r.depth)
      case Plain =>
        if indent > 0 && c == '\n' then Reading(Margin(0, true), r.depth)
        else if c == ' ' || c == '\n' || (indent > 0 && Closes(c)) then Broken
        else Start(r.depth, c)
      case Opened =>
        if Closes(c) || (indent == 0 && c != ' ' && c != '\n') then Start(r.depth, c)
        else if indent > 0 && c == '\n' then Reading(Margin(0, false), r.depth)
        else Broken
      case Comma =>
        if indent == 0 && c != ' ' && c != '\n' then Start(r.depth, c)
        else if indent > 0 && c == '\n' then Reading(Margin(0, false), r.depth)
        else Broken
      case Colon =>
        if indent == 0 && c != ' ' && c != '\n' then Start(r.depth, c)
        else if indent > 0 && c == ' ' then Reading(Plain, r.depth)
        else Broken
      case Margin(n, last) =>
        if indent == 0 then Broken
        else if c == ' ' then Reading(Margin(n + 1, last), r.depth)
        else if c != '\n' && n == Wide(r.depth, c, indent) && Closes(c) == last then Start(r.depth, c)
        else Broken
  }

  function ReadAll(r: Reading, s: string, indent: nat): Reading
    decreases s
  {
    if s == [] then r else ReadAll(Read(r, s[0], indent), s[1..], indent)
  }

  lemma {:induction false} ReadJoin(r: Reading, s: string, t: string, indent: nat)
    ensures ReadAll(r, s + t, indent) == ReadAll(ReadAll(r, s, indent), t, indent)
    decreases s
  {
    if s == [] {
      assert s + t == t;
    } else {
      assert (s + t)[0] == s[0] && (s + t)[1..] == s[1..] + t;
      ReadJoin(Read(r, s[0], indent), s[1..], t, indent);
    }
  }

  lemma ReadOne(r: Reading, c: char, indent: nat)
    ensures ReadAll(r, [c], indent) == Read(r, c, indent)
  {
    assert [c][1..] == [];
    assert ReadAll(Read(r, c, indent), [], indent) == Read(r, c, indent);
  }

  lemma {:induction false} StaysBroken(s: string, indent: nat)
    ensures ReadAll(Broken, s, indent) == Broken
  {
    if s != [] {
      StaysBroken(s[1..], indent);
    }
  }

  // ---------- Printed values pass ----------

  predicate Simple(c: char) {
    c != '"' && c != '[' && c != '{' && !Closes(c) && c != ',' && c != ':' && c != ' ' && c != '\n'
  }

  lemma {:induction false} SimpleRead(d: int, s: string, indent: nat)
    requires forall k :: 0 <= k < |s| ==> Simple(s[k])
    ensures ReadAll(Reading(Plain, d), s, indent) == Reading(Plain, d)
  {
    if s != [] {
      SimpleRead(d, s[1..], indent);
    }
  }

  lemma {:induction false} EscapedRead(d: int, s: string, indent: nat)
    ensures ReadAll(Reading(Quote, d), Escaped(s), indent) == Reading(Quote, d)
  {
    if s != [] {
      var e := EscapeOf(s[0]);
      ReadJoin(Reading(Quote, d), e, Escaped(s[1..]), indent);
      EscapeRead(d, s[0], indent);
      EscapedRead(d, s[1..], indent);
    }
  }

  lemma EscapeRead(d: int, c: char, indent: nat)
    ensures ReadAll(Reading(Quote, d), EscapeOf(c), indent) == Reading(Quote, d)
  {
    var e := EscapeOf(c);
    if |e| == 2 {
      assert e == [e[0]] + [e[1]];
      ReadJoin(Reading(Quote, d), [e[0]], [e[1]], indent);
      ReadOne(Reading(Quote, d), e[0], indent);
      ReadOne(Reading(Escape, d), e[1], indent);
    } else {
      ReadOne(Reading(Quote, d), c, indent);
    }
  }

  lemma QuotedRead(d: int, s: string, indent: nat)
    ensures ReadAll(Reading(Plain, d), Quoted(s), indent) == Reading(Plain, d)
  {
    hide Escaped;
    assert Quoted(s) == "\"" + Escaped(s) + "\"";
    ReadJoin(Reading(Plain, d), "\"" + Escaped(s), "\"", indent);
    ReadJoin(Reading(Plain, d), "\"", Escaped(s), indent);
    ReadOne(Reading(Plain, d), '"', indent);
    EscapedRead(d, s, indent);
    ReadOne(Reading(Quote, d), '"', indent);
  }

  /** A value may begin here. */
  predicate Ready(r: Reading, indent: nat) {
    r.Reading? &&
    match r.mode
    case Plain => true
    case Margin(n, last) => indent > 0 && !last && n == r.depth * indent % 0x1_0000_0000
    case Quote => false
    case Escape => false
    case _ => indent == 0
  }

  lemma {:induction false} ReadyRead(r: Reading, s: string, indent: nat)
    requires Ready(r, indent) && s != [] && s[0] != ' ' && s[0] != '\n' && !Closes(s[0])
    ensures ReadAll(r, s, indent) == ReadAll(Reading(Plain, r.depth), s, indent)
  {}

  lemma {:induction false} SpacesRead(n: nat, last: bool, d: int, k: nat, indent: nat)
    requires indent > 0
    ensures ReadAll(Reading(Margin(n, last), d), Spaces(k), indent) == Reading(Margin(n + k, last), d)
    decreases k
  {
    if k > 0 {
      assert Spaces(k)[1..] == Spaces(k - 1) && Spaces(k)[0] == ' ';
      SpacesRead(n + 1, last, d, k - 1, indent);
    }
  }

  /** Where the next line, if any, begins: what precedes an element or, if last, a closing bracket. */
  predicate AtLine(r: Reading, d: int, last: bool, indent: nat) {
    r.Reading? && r.depth == d &&
    if indent > 0 then r.mode == Margin(0, last) else if last then r.mode == Plain else r.mode in {Opened, Comma}
  }

  lemma MarginRead(r: Reading, d: int, level: nat, last: bool, indent: nat)
    requires AtLine(r, d, last, indent) && d == if last then level + 1 else level
    ensures var m := ReadAll(r, JsonForm.Margin(indent, level), indent); m.Reading? && m.depth == d && (!last ==> Ready(m, indent))
    ensures last ==> forall c :: Closes(c) ==>
      Read(ReadAll(r, JsonForm.Margin(indent, level), indent), c, indent) == Reading(Plain, level)
  {
    if indent > 0 {
      SpacesRead(0, last, d, Width(indent, level), indent);
    }
  }

  lemma BreakRead(r: Reading, d: int, indent: nat)
    requires r.Reading? && r.depth == d && r.mode in {Plain, Opened, Comma}
    ensures AtLine(ReadAll(r, Break(indent), indent), d, r.mode == Plain, indent)
  {
    if indent > 0 {
      ReadOne(r, '\n', indent);
    }
  }

  lemma OpenRead(d: int, c: char, indent: nat)
    requires c == '[' || c == '{'
    ensures ReadAll(Reading(Plain, d), [c], indent) == Reading(Opened, d + 1)
  {
    ReadOne(Reading(Plain, d), c, indent);
  }

  /** The separator and line break behind an element. */
  lemma ElementEnds(d: int, more: bool, indent: nat)
    ensures AtLine(ReadAll(ReadAll(Reading(Plain, d), Separator(more), indent), Break(indent), indent), d, !more, indent)
  {
    hide Break;
    if more {
      ReadOne(Reading(Plain, d), ',', indent);
      BreakRead(Reading(Comma, d), d, indent);
    } else {
      BreakRead(Reading(Plain, d), d, indent);
    }
  }

  lemma FirstOf(v: Json, indent: nat, level: nat)
    requires Exact(v)
    ensures var t := TextOf(v, indent, level); t != [] && t[0] != ' ' && t[0] != '\n' && !Closes(t[0])
  {
    hide ItemsText, PairsText, JsonForm.Margin, Break, Escaped;
    match v
    case Int(n) => SignedSimple(n);
    case _ =>
  }

  lemma SignedSimple(n: int)
    ensures Signed(n) != [] && forall k :: 0 <= k < |Signed(n)| ==> Simple(Signed(n)[k])
  {
    hide Dec;
    var s := Signed(n);
    forall k | 0 <= k < |s| ensures Simple(s[k]) {
      assert n < 0 && k > 0 ==> s[k] == Dec(0 - n)[k - 1];
      assert s[k] == '-' || IsDigit(s[k]);
    }
  }

  lemma {:induction false} TextRead(v: Json, indent: nat, level: nat)
    requires Exact(v)
    ensures ReadAll(Reading(Plain, level), TextOf(v, indent, level), indent) == Reading(Plain, level)
    decreases v, 0
  {
    hide ReadAll, JsonForm.Margin, Break, ItemsText, PairsText, Quoted, Signed;
    match v
    case Null => SimpleRead(level, "null", indent);
    case Bool(b) => SimpleRead(level, if b then "true" else "false", indent);
    case Int(n) =>
      SignedSimple(n);
      SimpleRead(level, Signed(n), indent);
    case Str(s) => QuotedRead(level, s, indent);
    case Array(items) =>
      if items == [] {
        EmptyRead(level, '[', ']', indent);
      } else {
        var r := OpensLine(level, '[', indent);
        ItemsRead(r, items, indent, level);
        EnclosedRead(level, '[', ']', ItemsText(items, indent, level), r, indent);
      }
    case Object(pairs) =>
      if pairs == [] {
        EmptyRead(level, '{', '}', indent);
      } else {
        var r := OpensLine(level, '{', indent);
        PairsRead(r, pairs, indent, level);
        EnclosedRead(level, '{', '}', PairsText(pairs, indent, level), r, indent);
      }
  }

  lemma EmptyRead(level: nat, open: char, close: char, indent: nat)
    requires (open == '[' || open == '{') && Closes(close)
    ensures ReadAll(Reading(Plain, level), [open, close], indent) == Reading(Plain, level)
  {
    assert [open, close] == [open] + [close];
    ReadJoin(Reading(Plain, level), [open], [close], indent);
    OpenRead(level, open, indent);
    ReadOne(Reading(Opened, level + 1), close, indent);
  }

  lemma OpensLine(level: nat, open: char, indent: nat) returns (r: Reading)
    requires open == '[' || open == '{'
    ensures r == ReadAll(ReadAll(Reading(Plain, level), [open], indent), Break(indent), indent) && AtLine(r, level + 1, false, indent)
  {
    OpenRead(level, open, indent);
    BreakRead(Reading(Opened, level + 1), level + 1, indent);
    r := ReadAll(ReadAll(Reading(Plain, level), [open], indent), Break(indent), indent);
  }

  lemma EnclosedRead(level: nat, open: char, close: char, all: string, r: Reading, indent: nat)
    requires Closes(close) && r == ReadAll(ReadAll(Reading(Plain, level), [open], indent), Break(indent), indent)
    requires AtLine(ReadAll(r, all, indent), level + 1, true, indent)
    ensures ReadAll(Reading(Plain, level), [open] + Break(indent) + all + JsonForm.Margin(indent, level) + [close], indent) == Reading(Plain, level)
  {
    hide ReadAll, Break, JsonForm.Margin;
    var m := JsonForm.Margin(indent, level);
    var start := Reading(Plain, level);
    ReadJoin(start, [open] + Break(indent) + all + m, [close], indent);
    ReadJoin(start, [open] + Break(indent) + all, m, indent);
    ReadJoin(start, [open] + Break(indent), all, indent);
    ReadJoin(start, [open], Break(indent), indent);
    MarginRead(ReadAll(r, all, indent), level + 1, level, true, indent);
    ReadOne(ReadAll(ReadAll(r, all, indent), m, indent), close, indent);
  }

  lemma {:induction false} ItemRead(r: Reading, v: Json, more: bool, indent: nat, level: nat)
    requires Exact(v) && AtLine(r, level + 1, false, indent)
    ensures AtLine(ReadAll(r, ItemText(v, more, indent, level), indent), level + 1, !more, indent)
    decreases v, 1
  {
    hide ReadAll, Break, JsonForm.Margin, TextOf, Separator, AtLine, Ready;
    var m, t := JsonForm.Margin(indent, level + 1), TextOf(v, indent, level + 1);
    ReadJoin(r, m + t + Separator(more), Break(indent), indent);
    ReadJoin(r, m + t, Separator(more), indent);
    ReadJoin(r, m, t, indent);
    MarginRead(r, level + 1, level + 1, false, indent);
    FirstOf(v, indent, level + 1);
    ReadyRead(ReadAll(r, m, indent), t, indent);
    TextRead(v, indent, level + 1);
    ElementEnds(level + 1, more, indent);
  }

  lemma {:induction false} ItemsRead(r: Reading, items: seq<Json>, indent: nat, level: nat)
    requires items != [] && (forall x :: x in items ==> Exact(x)) && AtLine(r, level + 1, false, indent)
    ensures AtLine(ReadAll(r, ItemsText(items, indent, level), indent), level + 1, true, indent)
    decreases items
  {
    hide ReadAll, ItemText, AtLine;
    var t, rest := ItemText(items[0], |items| > 1, indent, level), ItemsText(items[1..], indent, level);
    ReadJoin(r, t, rest, indent);
    ItemRead(r, items[0], |items| > 1, indent, level);
    if |items| > 1 {
      ItemsRead(ReadAll(r, t, indent), items[1..], indent, level);
    } else {
      NothingRead(ReadAll(r, t, indent), indent);
    }
  }

  lemma NothingRead(r: Reading, indent: nat)
    ensures ReadAll(r, "", indent) == r
  {}

  /** The colon and the blank behind it. */
  lemma ColonRead(d: int, indent: nat)
    ensures var r := ReadAll(ReadAll(Reading(Plain, d), ":", indent), Gap(indent), indent); Ready(r, indent) && r.depth == d
  {
    ReadOne(Reading(Plain, d), ':', indent);
    if indent > 0 {
      ReadOne(Reading(Colon, d), ' ', indent);
    }
  }

  lemma {:induction false} PairRead(r: Reading, p: Pair, more: bool, indent: nat, level: nat)
    requires Exact(p.value) && AtLine(r, level + 1, false, indent)
    ensures AtLine(ReadAll(r, PairText(p, more, indent, level), indent), level + 1, !more, indent)
    decreases p, 1
  {
    hide ReadAll, Break, JsonForm.Margin, TextOf, Separator, AtLine, Ready, Gap, Quoted;
    var m, k, g, t := JsonForm.Margin(indent, level + 1), Quoted(p.key), Gap(indent), TextOf(p.value, indent, level + 1);
    ReadJoin(r, m + k + ":" + g + t + Separator(more), Break(indent), indent);
    ReadJoin(r, m + k + ":" + g + t, Separator(more), indent);
    ReadJoin(r, m + k + ":" + g, t, indent);
    ReadJoin(r, m + k + ":", g, indent);
    ReadJoin(r, m + k, ":", indent);
    ReadJoin(r, m, k, indent);
    MarginRead(r, level + 1, level + 1, false, indent);
    FirstQuote(p.key);
    ReadyRead(ReadAll(r, m, indent), k, indent);
    QuotedRead(level + 1, p.key, indent);
    ColonRead(level + 1, indent);
    FirstOf(p.value, indent, level + 1);
    ReadyRead(ReadAll(ReadAll(Reading(Plain, level + 1), ":", indent), g, indent), t, indent);
    TextRead(p.value, indent, level + 1);
    ElementEnds(level + 1, more, indent);
  }

  lemma FirstQuote(s: string)
    ensures Quoted(s) != [] && Quoted(s)[0] == '"'
  {}

  lemma {:induction false} PairsRead(r: Reading, pairs: seq<Pair>, indent: nat, level: nat)
    requires pairs != [] && (forall p :: p in pairs ==> Exact(p.value)) && AtLine(r, level + 1, false, indent)
    ensures AtLine(ReadAll(r, PairsText(pairs, indent, level), indent), level + 1, true, indent)
    decreases pairs
  {
    hide ReadAll, PairText, AtLine;
    var t, rest := PairText(pairs[0], |pairs| > 1, indent, level), PairsText(pairs[1..], indent, level);
    ReadJoin(r, t, rest, indent);
    PairRead(r, pairs[0], |pairs| > 1, indent, level);
    if |pairs| > 1 {
      PairsRead(ReadAll(r, t, indent), pairs[1..], indent, level);
    } else {
      NothingRead(ReadAll(r, t, indent), indent);
    }
  }

  // ---------- What passes is laid out ----------

  function State(out: string, p: nat, indent: nat): Reading
    requires p <= |out|
  {
    ReadAll(Reading(Plain, 0), out[..p], indent)
  }

  lemma NextState(out: string, p: nat, indent: nat)
    requires p < |out|
    ensures State(out, p + 1, indent) == Read(State(out, p, indent), out[p], indent)
  {
    hide Read;
    assert out[..p + 1] == out[..p] + [out[p]];
    ReadJoin(Reading(Plain, 0), out[..p], [out[p]], indent);
    ReadOne(State(out, p, indent), out[p], indent);
  }

  lemma NeverBroken(out: string, p: nat, indent: nat)
    requires p <= |out| && State(out, |out|, indent).Reading?
    ensures State(out, p, indent).Reading?
  {
    hide Read;
    assert out[..|out|] == out[..p] + out[p..];
    ReadJoin(Reading(Plain, 0), out[..p], out[p..], indent);
    StaysBroken(out[p..], indent);
  }

  /** What the checking reader's state says about the text before p. */
  ghost predicate Means(out: string, p: nat, r: Reading, indent: nat)
    requires p <= |out| && r.Reading?
  {
    var w := PlaceAt(out, p);
    && (w.quoted <==> r.mode in {Quote, Escape}) && (w.escaped <==> r.mode == Escape) && w.depth == r.depth
    && (r.mode == Opened ==> p > 0 && out[p - 1] in "[{")
    && (r.mode == Colon ==> p > 0 && out[p - 1] == ':')
    && (r.mode.Margin? ==>
        && p > r.mode.n && indent > 0 && !PlaceAt(out, p - r.mode.n - 1).quoted && out[p - r.mode.n - 1] == '\n'
        && forall k :: p - r.mode.n <= k < p ==> out[k] == ' ')
  }

  lemma MeansNext(out: string, p: nat, r: Reading, indent: nat)
    requires p < |out| && r.Reading? && Means(out, p, r, indent) && Read(r, out[p], indent).Reading?
    ensures Means(out, p + 1, Read(r, out[p], indent), indent)
  {
    hide Wide;
    assert PlaceAt(out, p + 1) == Pass(PlaceAt(out, p), out[p]);
    hide PlaceAt;
  }

  lemma {:induction false} StateMeans(out: string, p: nat, indent: nat)
    requires p <= |out| && State(out, |out|, indent).Reading?
    ensures State(out, p, indent).Reading? && Means(out, p, State(out, p, indent), indent)
  {
    NeverBroken(out, p, indent);
    if p == 0 {
      StartMeans(out, indent);
    } else {
      hide Means, Read, State;
      StateMeans(out, p - 1, indent);
      NextState(out, p - 1, indent);
      MeansNext(out, p - 1, State(out, p - 1, indent), indent);
    }
  }

  lemma StartMeans(out: string, indent: nat)
    ensures State(out, 0, indent) == Reading(Plain, 0) && Means(out, 0, Reading(Plain, 0), indent)
  {}

  /** A margin is as wide as the depth at its end asks for. */
  lemma {:induction false} MarginEnds(out: string, k: nat, n: nat, indent: nat) returns (q: nat)
    requires k <= |out| && State(out, |out|, indent) == Reading(Plain, 0)
    requires State(out, k, indent).Reading? && State(out, k, indent).mode.Margin? && State(out, k, indent).mode.n == n
    ensures k <= q < |out| && out[q] != ' ' && out[q] != '\n' && forall x :: k <= x < q ==> out[x] == ' '
    ensures n + (q - k) == (PlaceAt(out, q).depth - (if out[q] in "]}" then 1 else 0)) * indent % 0x1_0000_0000
    decreases |out| - k
  {
    hide State, PlaceAt;
    assert k < |out|;
    NextState(out, k, indent);
    NeverBroken(out, k + 1, indent);
    if out[k] == ' ' {
      q := MarginEnds(out, k + 1, n + 1, indent);
    } else {
      q := k;
      StateMeans(out, k, indent);
    }
  }

  lemma OutsideModes(out: string, p: nat, indent: nat)
    requires p < |out| && State(out, |out|, indent) == Reading(Plain, 0) && Outside(out, p)
    ensures var r := State(out, p, indent); r.Reading? && r.mode !in {Quote, Escape} && Means(out, p, r, indent)
    ensures State(out, p + 1, indent) == Read(State(out, p, indent), out[p], indent) && State(out, p + 1, indent).Reading?
  {
    hide State, Read;
    StateMeans(out, p, indent);
    NextState(out, p, indent);
    NeverBroken(out, p + 1, indent);
  }

  /** The character behind an opening bracket, a comma or a colon. */
  lemma Behind(out: string, p: nat, indent: nat)
    requires p < |out| && State(out, |out|, indent) == Reading(Plain, 0) && Outside(out, p) && indent > 0
    ensures out[p] in "[{" ==> p + 1 < |out| && (out[p + 1] == '\n' || out[p + 1] in "]}")
    ensures out[p] == ',' ==> p + 1 < |out| && out[p + 1] == '\n'
    ensures out[p] == ':' ==> p + 1 < |out| && out[p + 1] == ' '
  {
    hide State, Means, Wide;
    OutsideModes(out, p, indent);
    if out[p] in "[{,:" {
      assert p + 1 < |out|;
      NextState(out, p + 1, indent);
      NeverBroken(out, p + 2, indent);
    }
  }

  lemma LineBreaks(out: string, p: nat, indent: nat)
    requires p < |out| && State(out, |out|, indent) == Reading(Plain, 0) && Outside(out, p) && indent > 0 && out[p] == '\n'
    ensures exists q: nat :: LineAt(out, p, q, indent)
  {
    hide State, Means, Wide, PlaceAt;
    OutsideModes(out, p, indent);
    var q := MarginEnds(out, p + 1, 0, indent);
    assert LineAt(out, p, q, indent);
  }

  /** A blank, or a closing bracket, and what is before it. */
  lemma Preceded(out: string, p: nat, indent: nat)
    requires p < |out| && State(out, |out|, indent) == Reading(Plain, 0) && Outside(out, p) && indent > 0
    ensures out[p] == ' ' ==> (p > 0 && out[p - 1] == ':') || exists n: nat :: InMargin(out, n, p)
    ensures out[p] in "]}" ==> (p > 0 && out[p - 1] in "[{") || exists n: nat :: InMargin(out, n, p)
  {
    hide State, Wide, PlaceAt;
    OutsideModes(out, p, indent);
    var r := State(out, p, indent);
    if r.mode.Margin? {
      assert InMargin(out, p - r.mode.n - 1, p);
    }
  }

  lemma NoBlanks(out: string, p: nat)
    requires p < |out| && State(out, |out|, 0) == Reading(Plain, 0) && Outside(out, p)
    ensures out[p] != ' ' && out[p] != '\n'
  {
    hide State, PlaceAt, Wide;
    OutsideModes(out, p, 0);
  }

  lemma PassedIsLaidOut(out: string, indent: nat)
    requires State(out, |out|, indent) == Reading(Plain, 0)
    ensures LaidOut(out, indent)
  {
    hide State, LineAt, InMargin, Outside;
    forall p | 0 <= p < |out| && Outside(out, p) ensures LaidOutAt(out, p, indent) {
      if indent == 0 {
        NoBlanks(out, p);
      } else {
        if out[p] == '\n' {
          LineBreaks(out, p, indent);
        }
        Behind(out, p, indent);
        Preceded(out, p, indent);
      }
    }
  }

  /** Printed values are laid out, and all their brackets and strings are closed. */
  lemma TextIsLaidOut(v: Json, indent: nat)
    requires Exact(v)
    ensures var out := TextOf(v, indent, 0); LaidOut(out, indent) && PlaceAt(out, |out|) == Place(false, false, 0)
  {
    hide TextOf, LaidOut, PlaceAt;
    var out := TextOf(v, indent, 0);
    TextRead(v, indent, 0);
    assert out[..|out|] == out;
    PassedIsLaidOut(out, indent);
    StateMeans(out, |out|, indent);
  }
}
