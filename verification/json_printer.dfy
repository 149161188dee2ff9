/** The serializer. */
module JsonPrinter {
  import opened Decimal
  import opened JsonForm
  import opened JsonValues
  import JsonLayout

  // ---------- The printer ----------

  /** The output string. */
  class Output {
    var data: string

    constructor ()
      ensures data == ""
    {
      data := "";
    }

    /** string_append_bytes. */
    method Append(s: string)
      modifies this
      ensures data == old(data) + s
    {
      data := data + s;
    }

    method AppendSpaces(n: nat)
      modifies this
      ensures data == old(data) + Spaces(n)
    {
      var k := 0;
      while k < n
        invariant k <= n && data == old(data) + Spaces(k)
      {
        assert Spaces(k + 1) == Spaces(k) + " ";
        Append(" ");
        k := k + 1;
      }
    }

    /** serialize_string. */
    method SerializeString(s: string)
      modifies this
      ensures data == old(data) + Quoted(s)
    {
      Append("\"");
      ghost var done := "";
      var i := 0;
      while i < |s|
        invariant i <= |s| && data == old(data) + "\"" + done && done + Escaped(s[i..]) == Escaped(s)
      {
        assert s[i..][1..] == s[i + 1..];
        Regroup(done, EscapeOf(s[i]), Escaped(s[i + 1..]));
        Regroup(old(data) + "\"", done, EscapeOf(s[i]));
        Append(EscapeOf(s[i]));
        done := done + EscapeOf(s[i]);
        i := i + 1;
      }
      assert done + "" == done;
      Append("\"");
      Regroup4(old(data), "\"", done, "\"");
    }

    /** The line of one array element. */
    method SerializeItem(v: Json, more: bool, indent: nat, level: nat)
      requires Exact(v)
      modifies this
      ensures data == old(data) + ItemText(v, more, indent, level)
      decreases v, 2
    {
      if indent > 0 {
        AppendSpaces(Width(indent, level + 1));
      }
      assert data == old(data) + Margin(indent, level + 1);
      SerializeValue(v, indent, level + 1);
      if more {
        Append(",");
      }
      assert data == old(data) + Margin(indent, level + 1) + TextOf(v, indent, level + 1) + Separator(more);
      if indent > 0 {
        Append("\n");
      }
      Regroup5(old(data), Margin(indent, level + 1), TextOf(v, indent, level + 1), Separator(more), Break(indent));
    }

    /** The opening and closing of a composite value. */
    method Open(bracket: string, indent: nat)
      modifies this
      ensures data == old(data) + (bracket + Break(indent))
    {
      Append(bracket);
      if indent > 0 {
        Append("\n");
      }
      assert bracket + "" == bracket;
    }

    method Close(bracket: string, indent: nat, level: nat)
      modifies this
      ensures data == old(data) + (Margin(indent, level) + bracket)
    {
      if indent > 0 {
        AppendSpaces(Width(indent, level));
      }
      Append(bracket);
    }

    /** serialize_array. */
    method SerializeArray(v: Json, indent: nat, level: nat)
      requires Exact(v) && v.Array?
      modifies this
      ensures data == old(data) + TextOf(v, indent, level)
      decreases v, 0
    {
      if v.items == [] {
        Append("[");
        Append("]");
        return;
      }
      Open("[", indent);
      ghost var done, all := "", ItemsText(v.items, indent, level);
      var i := 0;
      while i < |v.items|
        invariant i <= |v.items| && data == old(data) + ("[" + Break(indent)) + done
        invariant done + ItemsText(v.items[i..], indent, level) == all
      {
        ghost var next := ItemText(v.items[i], i + 1 < |v.items|, indent, level);
        assert v.items[i..][1..] == v.items[i + 1..];
        Regroup(done, next, ItemsText(v.items[i + 1..], indent, level));
        Regroup(old(data) + ("[" + Break(indent)), done, next);
        SerializeItem(v.items[i], i + 1 < |v.items|, indent, level);
        done := done + next;
        i := i + 1;
      }
      assert done + "" == done;
      Close("]", indent, level);
      Enclose(old(data), "[", Break(indent), all, Margin(indent, level), "]");
    }

    /** The line of one object member. */
    method SerializePair(p: Pair, more: bool, indent: nat, level: nat)
      requires Exact(p.value)
      modifies this
      ensures data == old(data) + PairText(p, more, indent, level)
      decreases p, 2
    {
      if indent > 0 {
        AppendSpaces(Width(indent, level + 1));
      }
      assert data == old(data) + Margin(indent, level + 1);
      SerializeString(p.key);
      Append(":");
      if indent > 0 {
        Append(" ");
      }
      assert data == old(data) + Margin(indent, level + 1) + Quoted(p.key) + ":" + Gap(indent);
      SerializeValue(p.value, indent, level + 1);
      if more {
        Append(",");
      }
      assert data == old(data) + Margin(indent, level + 1) + Quoted(p.key) + ":" + Gap(indent) + TextOf(p.value, indent, level + 1) + Separator(more);
      if indent > 0 {
        Append("\n");
      }
      Regroup8(old(data), Margin(indent, level + 1), Quoted(p.key), ":", Gap(indent), TextOf(p.value, indent, level + 1), Separator(more), Break(indent));
    }

    /** serialize_object. */
    method SerializeObject(v: Json, indent: nat, level: nat)
      requires Exact(v) && v.Object?
      modifies this
      ensures data == old(data) + TextOf(v, indent, level)
      decreases v, 0
    {
      if v.pairs == [] {
        Append("{");
        Append("}");
        return;
      }
      Open("{", indent);
      ghost var done, all := "", PairsText(v.pairs, indent, level);
      var i := 0;
      while i < |v.pairs|
        invariant i <= |v.pairs| && data == old(data) + ("{" + Break(indent)) + done
        invariant done + PairsText(v.pairs[i..], indent, level) == all
      {
        ghost var next := PairText(v.pairs[i], i + 1 < |v.pairs|, indent, level);
        assert v.pairs[i..][1..] == v.pairs[i + 1..];
        Regroup(done, next, PairsText(v.pairs[i + 1..], indent, level));
        Regroup(old(data) + ("{" + Break(indent)), done, next);
        SerializePair(v.pairs[i], i + 1 < |v.pairs|, indent, level);
        done := done + next;
        i := i + 1;
      }
      assert done + "" == done;
      Close("}", indent, level);
      Enclose(old(data), "{", Break(indent), all, Margin(indent, level), "}");
    }

    /** serialize_value. */
    method SerializeValue(v: Json, indent: nat, level: nat)
      requires Exact(v)
      modifies this
      ensures data == old(data) + TextOf(v, indent, level)
      decreases v, 1
    {
      match v
      case Null => Append("null");
      case Bool(b) => Append(if b then "true" else "false");
      case Int(n) =>
        var s := FormatInt64(n);
        Append(s);
      case Str(s) => SerializeString(s);
      case Array(_) => SerializeArray(v, indent, level);
      case Object(_) => SerializeObject(v, indent, level);
    }
  }

  lemma Regroup(a: string, b: string, c: string)
    ensures a + (b + c) == (a + b) + c
  {}

  lemma Regroup4(a: string, b: string, c: string, d: string)
    ensures a + b + c + d == a + (b + c + d)
  {}

  lemma Regroup5(a: string, b: string, c: string, d: string, e: string)
    ensures a + b + c + d + e == a + (b + c + d + e)
  {}

  lemma Regroup8(a: string, b: string, c: string, d: string, e: string, f: string, g: string, h: string)
    ensures a + b + c + d + e + f + g + h == a + (b + c + d + e + f + g + h)
  {}

  lemma Enclose(a: string, open: string, brk: string, all: string, margin: string, close: string)
    ensures a + (open + brk) + all + (margin + close) == a + (open + brk + all + margin + close)
  {}

  /** json_serialize. */
  method JsonSerialize(v: Json, indent: nat) returns (out: string)
    requires Exact(v)
    ensures out == TextOf(v, indent, 0)
    ensures JsonLayout.LaidOut(out, indent) && JsonLayout.PlaceAt(out, |out|) == JsonLayout.Place(false, false, 0)
  {
    JsonLayout.TextIsLaidOut(v, indent);
    var o := new Output();
    o.SerializeValue(v, indent, 0);
    assert "" + TextOf(v, indent, 0) == TextOf(v, indent, 0);
    out := o.data;
  }
}
