/** The text a JSON value is printed as. */
module JsonForm {
  import opened Basics
  import opened Decimal
  import opened JsonValues

  // ---------- The text of a value ----------

  /** Values the printer is exact on: no floating-point numbers, integers of 64 bits. */
  predicate Exact(v: Json) {
    match v
    case Int(n) => 0 - I64 <= n < I64
    case Real(_, _) => false
    case Array(items) => forall x :: x in items ==> Exact(x)
    case Object(pairs) => forall p :: p in pairs ==> Exact(p.value)
    case _ => true
  }

  function EscapeOf(c: char): string {
    if c == '"' || c == '\\' then ['\\', c]
    else if c == BACKSPACE then "\\b"
    else if c == FORMFEED then "\\f"
    else if c == '\n' then "\\n"
    else if c == '\r' then "\\r"
    else if c == '\t' then "\\t"
    else [c]
  }

  function Escaped(s: string): string {
    if s == [] then [] else EscapeOf(s[0]) + Escaped(s[1..])
  }

  function Quoted(s: string): string {
    "\"" + Escaped(s) + "\""
  }

  function Spaces(n: nat): (s: string)
    ensures |s| == n && forall i :: 0 <= i < n ==> s[i] == ' '
  {
    seq(n, _ => ' ')
  }

  /** The line break and margin before something at the given level. */
  function Break(indent: nat): string {
    if indent > 0 then "\n" else ""
  }

  /** The product is taken in 32 bits. */
  function Width(indent: nat, level: nat): nat {
    level * indent % WORD32
  }

  function Margin(indent: nat, level: nat): string {
    if indent > 0 then Spaces(Width(indent, level)) else ""
  }

  function Separator(more: bool): string {
    if more then "," else ""
  }

  function TextOf(v: Json, indent: nat, level: nat): string
    requires Exact(v)
    decreases v, 0
  {
    match v
    case Null => "null"
    case Bool(b) => if b then "true" else "false"
    case Int(n) => Signed(n)
    case Str(s) => Quoted(s)
    case Array(items) =>
      if items == [] then "[]"
      else "[" + Break(indent) + ItemsText(items, indent, level) + Margin(indent, level) + "]"
    case Object(pairs) =>
      if pairs == [] then "{}"
      else "{" + Break(indent) + PairsText(pairs, indent, level) + Margin(indent, level) + "}"
  }

  /** One element on its line. */
  function ItemText(v: Json, more: bool, indent: nat, level: nat): string
    requires Exact(v)
    decreases v, 1
  {
    Margin(indent, level + 1) + TextOf(v, indent, level + 1) + Separator(more) + Break(indent)
  }

  function ItemsText(items: seq<Json>, indent: nat, level: nat): string
    requires forall x :: x in items ==> Exact(x)
    decreases items
  {
    if items == [] then "" else ItemText(items[0], |items| > 1, indent, level) + ItemsText(items[1..], indent, level)
  }

  function Gap(indent: nat): string {
    if indent > 0 then " " else ""
  }

  /** One member on its line. */
  function PairText(p: Pair, more: bool, indent: nat, level: nat): string
    requires Exact(p.value)
    decreases p
  {
    Margin(indent, level + 1) + Quoted(p.key) + ":" + Gap(indent) + TextOf(p.value, indent, level + 1) + Separator(more) + Break(indent)
  }

  function PairsText(pairs: seq<Pair>, indent: nat, level: nat): string
    requires forall p :: p in pairs ==> Exact(p.value)
    decreases pairs
  {
    if pairs == [] then "" else PairText(pairs[0], |pairs| > 1, indent, level) + PairsText(pairs[1..], indent, level)
  }
}
