/** Decoding one compressed block (section 3.2.5 of RFC 1951). */
module InflateBlock {
  import opened Basics
  import opened Bits
  import opened CanonicalCodes
  import opened HuffNodes
  import opened DecodeTree
  import opened BitReader

  // ---------- The tables ----------

  const BASE_LENGTHS: seq<nat> := [
    3, 4, 5, 6, 7, 8, 9, 10,
    11, 13, 15, 17,
    19, 23, 27, 31,
    35, 43, 51, 59,
    67, 83, 99, 115,
    131, 163, 195, 227,
    258
  ]

  const DIST_BASES: seq<nat> := [
    1, 2, 3, 4,
    5, 7, 9, 13, 17, 25, 33, 49, 65, 97, 129, 193, 257, 385, 513, 769,
    1025, 1537, 2049, 3073, 4097, 6145, 8193, 12289, 16385, 24577
  ]

  function LengthExtra(sym: nat): nat {
    if 264 < sym < 285 then (sym - 261) / 4 else 0
  }

  function DistExtra(d: nat): nat {
    if d > 3 then (d - 2) / 2 else 0
  }

  /** The lengths of one symbol begin where those of the one before end; 285 stands for 258 alone. */
  function LengthBase(sym: nat): nat
    requires 257 <= sym <= 285
  {
    if sym == 257 then 3 else if sym == 285 then 258 else LengthBase(sym - 1) + Pow2(LengthExtra(sym - 1))
  }

  function DistBase(d: nat): nat
    requires d <= 29
  {
    if d == 0 then 1 else DistBase(d - 1) + Pow2(DistExtra(d - 1))
  }

  lemma Powers()
    ensures Pow2(0) == 1 && Pow2(1) == 2 && Pow2(2) == 4 && Pow2(3) == 8 && Pow2(4) == 16 && Pow2(5) == 32 && Pow2(6) == 64
    ensures Pow2(7) == 128 && Pow2(8) == 256 && Pow2(9) == 512 && Pow2(10) == 1024 && Pow2(11) == 2048 && Pow2(12) == 4096
    ensures Pow2(13) == 8192
  {
    assert Pow2(2) == 4;
    assert Pow2(4) == 16;
    assert Pow2(6) == 64;
    assert Pow2(8) == 256;
    assert Pow2(10) == 1024;
    assert Pow2(12) == 4096;
  }

  lemma {:induction false} LengthTable(sym: nat)
    requires 257 <= sym <= 285
    ensures BASE_LENGTHS[sym - 257] == LengthBase(sym)
  {
    Powers();
    if 257 < sym < 285 {
      LengthTable(sym - 1);
    }
  }

  lemma StepLow(d: nat)
    requires 1 <= d <= 10
    ensures DIST_BASES[d] == DIST_BASES[d - 1] + Pow2(DistExtra(d - 1))
  {
    Powers();
  }

  lemma StepMiddle(d: nat)
    requires 11 <= d <= 20
    ensures DIST_BASES[d] == DIST_BASES[d - 1] + Pow2(DistExtra(d - 1))
  {
    Powers();
  }

  lemma StepHigh(d: nat)
    requires 21 <= d <= 29
    ensures DIST_BASES[d] == DIST_BASES[d - 1] + Pow2(DistExtra(d - 1))
  {
    Powers();
  }

  lemma {:induction false} DistTable(d: nat)
    requires d <= 29
    ensures DIST_BASES[d] == DistBase(d)
  {
    if d > 0 {
      DistTable(d - 1);
      if d <= 10 {
        StepLow(d);
      } else if d <= 20 {
        StepMiddle(d);
      } else {
        StepHigh(d);
      }
    }
  }

  /** Every match length from 3 to 258 has a symbol. */
  lemma {:induction false} LengthCoded(length: nat) returns (sym: nat, extra: nat)
    requires 3 <= length <= 258
    ensures 257 <= sym <= 285 && extra < Pow2(LengthExtra(sym)) && LengthBase(sym) + extra == length
  {
    if length == 258 {
      sym, extra := 285, 0;
    } else {
      LengthTable(284);
      Powers();
      sym := 284;
      while LengthBase(sym) > length
        invariant 257 <= sym <= 284 && length < LengthBase(sym) + Pow2(LengthExtra(sym))
      {
        sym := sym - 1;
      }
      extra := length - LengthBase(sym);
    }
  }

  /** Every distance from 1 to 32768 has a symbol. */
  lemma {:induction false} DistCoded(distance: nat) returns (d: nat, extra: nat)
    requires 1 <= distance <= 32768
    ensures d <= 29 && extra < Pow2(DistExtra(d)) && DistBase(d) + extra == distance
  {
    DistTable(29);
    Powers();
    d := 29;
    while DistBase(d) > distance
      invariant d <= 29 && distance < DistBase(d) + Pow2(DistExtra(d))
    {
      d := d - 1;
    }
    extra := distance - DistBase(d);
  }

  // ---------- What an encoder writes ----------

  datatype Token = Literal(b: Byte) | Match(sym: nat, extra: nat, dsym: nat, dextra: nat)

  /** The token has words in both codes, and its extra bits fit. */
  predicate Encodable(t: Token, lit: seq<nat>, dist: seq<nat>) {
    match t
    case Literal(b) => b < |lit| && lit[b] > 0
    case Match(sym, extra, dsym, dextra) =>
      && 257 <= sym <= 285 && sym < |lit| && lit[sym] > 0 && extra < Pow2(LengthExtra(sym))
      && dsym <= 29 && dsym < |dist| && dist[dsym] > 0 && dextra < Pow2(DistExtra(dsym))
  }

  /** The low n bits of v, least significant first. */
  function LowBits(v: nat, n: nat): (s: seq<bool>)
    ensures |s| == n
  {
    if n == 0 then [] else [v % 2 == 1] + LowBits(v / 2, n - 1)
  }

  lemma {:induction false} LowBitsAt(v: nat, n: nat, k: nat)
    requires k < n
    ensures LowBits(v, n)[k] <==> v / Pow2(k) % 2 == 1
  {
    if k > 0 {
      LowBitsAt(v / 2, n - 1, k - 1);
      DivPow2(v, k);
    }
  }

  lemma {:induction false} LowBitsValue(v: nat, n: nat)
    requires v < Pow2(n)
    ensures Value(LowBits(v, n)) == v
  {
    if n > 0 {
      LowBitsValue(v / 2, n - 1);
    }
  }

  function LengthBits(sym: nat, extra: nat, lit: seq<nat>): seq<bool>
    requires sym < |lit| && lit[sym] > 0
  {
    Word(lit, sym) + LowBits(extra, LengthExtra(sym))
  }

  function DistBits(dsym: nat, dextra: nat, dist: seq<nat>): seq<bool>
    requires dsym < |dist| && dist[dsym] > 0
  {
    Word(dist, dsym) + LowBits(dextra, DistExtra(dsym))
  }

  function Encode(t: Token, lit: seq<nat>, dist: seq<nat>): seq<bool>
    requires Encodable(t, lit, dist)
  {
    match t
    case Literal(b) => Word(lit, b)
    case Match(sym, extra, dsym, dextra) => LengthBits(sym, extra, lit) + DistBits(dsym, dextra, dist)
  }

  const EOB: nat := 0x100

  predicate Coded(ts: seq<Token>, lit: seq<nat>, dist: seq<nat>) {
    |lit| > EOB && lit[EOB] > 0 && forall t :: t in ts ==> Encodable(t, lit, dist)
  }

  /** The whole block: the tokens and the end-of-block code. */
  function EncodeAll(ts: seq<Token>, lit: seq<nat>, dist: seq<nat>): seq<bool>
    requires Coded(ts, lit, dist)
  {
    if ts == [] then Word(lit, EOB) else Encode(ts[0], lit, dist) + EncodeAll(ts[1..], lit, dist)
  }

  // ---------- What the tokens stand for ----------

  function Length(t: Token): nat
    requires t.Match? && 257 <= t.sym <= 285
  {
    LengthBase(t.sym) + t.extra
  }

  function Distance(t: Token): nat
    requires t.Match? && t.dsym <= 29
  {
    DistBase(t.dsym) + t.dextra
  }

  /** A match must point into what is already there and must not overlap itself. */
  predicate Applies(t: Token, size: nat) {
    t.Match? ==> 257 <= t.sym <= 285 && t.dsym <= 29 && Length(t) <= Distance(t) <= size
  }

  function Expand(out: seq<Byte>, t: Token): seq<Byte>
    requires Applies(t, |out|)
  {
    match t
    case Literal(b) => out + [b]
    case Match(_, _, _, _) =>
      var from := |out| - Distance(t);
      out + out[from..from + Length(t)]
  }

  /** A match repeats, byte by byte, what stands its distance back; what is there stays. */
  lemma MatchRepeats(out: seq<Byte>, t: Token)
    requires t.Match? && Applies(t, |out|)
    ensures out <= Expand(out, t) && |Expand(out, t)| == |out| + Length(t)
    ensures forall k :: |out| <= k < |Expand(out, t)| ==> Expand(out, t)[k] == Expand(out, t)[k - Distance(t)]
  {
    hide Length, Distance;
    var now, from := Expand(out, t), |out| - Distance(t);
    forall k | |out| <= k < |now| ensures now[k] == now[k - Distance(t)] {
      assert now[k] == out[from..from + Length(t)][k - |out|] == out[k - Distance(t)];
    }
  }

  predicate AllApply(ts: seq<Token>, out: seq<Byte>) {
    ts == [] || (Applies(ts[0], |out|) && AllApply(ts[1..], Expand(out, ts[0])))
  }

  function ExpandAll(out: seq<Byte>, ts: seq<Token>): seq<Byte>
    requires AllApply(ts, out)
    decreases ts
  {
    if ts == [] then out else ExpandAll(Expand(out, ts[0]), ts[1..])
  }

  /** Every match of 3 to 258 bytes at a distance of up to 32768 has a token. */
  lemma MatchHasToken(length: nat, distance: nat) returns (t: Token)
    requires 3 <= length <= 258 && 1 <= distance <= 32768
    ensures t.Match? && 257 <= t.sym <= 285 && t.dsym <= 29 && Length(t) == length && Distance(t) == distance
    ensures t.extra < Pow2(LengthExtra(t.sym)) && t.dextra < Pow2(DistExtra(t.dsym))
  {
    hide LengthBase, DistBase, Pow2;
    var sym, extra := LengthCoded(length);
    var dsym, dextra := DistCoded(distance);
    t := Match(sym, extra, dsym, dextra);
  }

  lemma {:induction false} ExpandGrows(out: seq<Byte>, ts: seq<Token>)
    requires AllApply(ts, out)
    ensures |out| <= |ExpandAll(out, ts)|
    decreases ts
  {
    if ts != [] {
      ExpandGrows(Expand(out, ts[0]), ts[1..]);
    }
  }

  lemma HoldsSplit(bytes: seq<Byte>, pos: nat, s: seq<bool>, t: seq<bool>)
    requires Holds(bytes, pos, s + t)
    ensures Holds(bytes, pos, s) && Holds(bytes, pos + |s|, t)
  {
    forall k | 0 <= k < |s| ensures BitAt(bytes, pos + k) == s[k] {
      assert (s + t)[k] == s[k];
    }
    forall k | 0 <= k < |t| ensures BitAt(bytes, pos + |s| + k) == t[k] {
      assert (s + t)[|s| + k] == t[k];
    }
  }

  /** The first literal/length symbol of what remains of a block. */
  function Symbol(ts: seq<Token>): nat {
    if ts == [] then EOB else match ts[0] case Literal(b) => b case Match(sym, _, _, _) => sym
  }

  /** What follows that symbol's word. */
  function After(ts: seq<Token>, lit: seq<nat>, dist: seq<nat>): seq<bool>
    requires Coded(ts, lit, dist)
  {
    if ts == [] then [] else
      assert Encodable(ts[0], lit, dist);
      match ts[0]
      case Literal(_) => EncodeAll(ts[1..], lit, dist)
      case Match(sym, extra, dsym, dextra) =>
        LowBits(extra, LengthExtra(sym)) + (Word(dist, dsym) + (LowBits(dextra, DistExtra(dsym)) + EncodeAll(ts[1..], lit, dist)))
  }

  lemma Regrouped(a: seq<bool>, b: seq<bool>, c: seq<bool>, d: seq<bool>, rest: seq<bool>)
    ensures ((a + b) + (c + d)) + rest == a + (b + (c + (d + rest)))
  {}

  lemma SymbolFirst(ts: seq<Token>, lit: seq<nat>, dist: seq<nat>)
    requires Coded(ts, lit, dist)
    ensures Symbol(ts) < |lit| && lit[Symbol(ts)] > 0 && (Symbol(ts) == EOB <==> ts == [])
    ensures ts == [] ==> After(ts, lit, dist) == []
    ensures EncodeAll(ts, lit, dist) == Word(lit, Symbol(ts)) + After(ts, lit, dist)
  {
    hide Word, LowBits;
    if ts != [] {
      assert Encodable(ts[0], lit, dist);
      if ts[0].Match? {
        var t := ts[0];
        Regrouped(Word(lit, t.sym), LowBits(t.extra, LengthExtra(t.sym)), Word(dist, t.dsym),
                  LowBits(t.dextra, DistExtra(t.dsym)), EncodeAll(ts[1..], lit, dist));
      }
    }
  }

  lemma ExpandStep(out: seq<Byte>, ts: seq<Token>)
    requires AllApply(ts, out) && ts != []
    ensures Applies(ts[0], |out|) && AllApply(ts[1..], Expand(out, ts[0])) && |Expand(out, ts[0])| <= |ExpandAll(out, ts)|
    ensures ExpandAll(out, ts) == ExpandAll(Expand(out, ts[0]), ts[1..])
  {
    ExpandGrows(Expand(out, ts[0]), ts[1..]);
  }

  lemma {:induction false} EndsInCode(ts: seq<Token>, lit: seq<nat>, dist: seq<nat>)
    requires Coded(ts, lit, dist)
    ensures EncodeAll(ts, lit, dist) != []
  {
    SymbolFirst(ts, lit, dist);
    assert |Word(lit, Symbol(ts))| > 0;
  }

  // ---------- Decoding ----------

  /** A code tree in the heap. */
  ghost predicate Tree(root: HuffNode, s: Shape)
    reads Nodes(s)
  {
    s.Cell? && Linked(s, root)
  }

  /** Where the walk along the first k bits of w stands. */
  ghost predicate Underway(t: Trie, w: seq<bool>, k: nat, node: HuffNode?, cur: Shape)
    requires k <= |w|
    reads Nodes(cur)
  {
    Linked(cur, node) && Erase(cur) == At(t, w[..k])
  }

  lemma Childless(cur: Shape, node: HuffNode?)
    requires Linked(cur, node) && Erase(cur).Fork?
    ensures node != null && node.entry == Erase(cur).entry
    ensures node.left == null <==> Erase(cur).l.Gap?
    ensures node.right == null <==> Erase(cur).r.Gap?
  {
    assert cur.l.Cell? ==> Linked(cur.l, node.left) && node.left == cur.l.n;
    assert cur.r.Cell? ==> Linked(cur.r, node.right) && node.right == cur.r.n;
  }

  class ReadCtx {
    const bytes: array<Byte>
    var bs: nat
    var c: nat
    var outCursor: nat
    const outputBuf: array<Byte>

    constructor (bytes: array<Byte>, outputBuf: array<Byte>)
      ensures this.bytes == bytes && this.outputBuf == outputBuf && bs == 0 && c == 0 && outCursor == 0
    {
      this.bytes, this.outputBuf := bytes, outputBuf;
      bs, c, outCursor := 0, 0, 0;
    }

    ghost function Pos(): nat
      reads this`bs, this`c
    {
      8 * c + bs
    }

    /** READ_BITS: the next field of the stream, least significant bit first. */
    method ReadBits(amount: nat, ghost s: seq<bool>) returns (to: nat)
      requires bs <= 7 && c < bytes.Length && amount <= 16 && |s| == amount && Holds(bytes[..], Pos(), s)
      modifies this`bs, this`c
      ensures to == Value(s) && bs <= 7 && Pos() == old(Pos()) + amount
    {
      FieldIsValue(bytes[..], bs, c, amount, s);
      to := Field(bytes[..], bs, c, amount);
      bs := bs + amount;
      if bs > 7 {
        c := c + bs / 8;
        bs := bs % 8;
      }
    }

    /** The next single bit. */
    method ReadBit(ghost s: seq<bool>) returns (bit: bool)
      requires bs <= 7 && s != [] && Holds(bytes[..], Pos(), s)
      modifies this`bs, this`c
      ensures bit == s[0] && bs <= 7 && Pos() == old(Pos()) + 1 && Holds(bytes[..], Pos(), s[1..])
    {
      HoldsSplit(bytes[..], Pos(), s[..1], s[1..]);
      assert s == s[..1] + s[1..];
      var v := ReadBits(1, s[..1]);
      bit := v == 1;
    }

    /** One step down the tree (huffman_traverse), one bit further in the word. */
    method Step(node: HuffNode, ghost t: Trie, ghost w: seq<bool>, ghost v: nat, ghost k: nat, ghost cur: Shape)
      returns (next: HuffNode?, ghost sub: Shape)
      requires bs <= 7 && Leads(t, w, v) && k < |w| && Underway(t, w, k, node, cur) && Holds(bytes[..], Pos(), w[k..])
      modifies this`bs, this`c
      ensures bs <= 7 && Pos() == old(Pos()) + 1 && Holds(bytes[..], Pos(), w[k + 1..])
      ensures next != null && Underway(t, w, k + 1, next, sub)
      ensures next.left == null && next.right == null <==> k + 1 == |w|
      ensures k + 1 == |w| ==> next.entry == v
    {
      hide Leads, Holds, At;
      InnerOnTheWay(t, w, v, k, Erase(cur));
      assert w[k..][0] == w[k] && w[k..][1..] == w[k + 1..];
      assert allocated(Nodes(cur));
      var bit := ReadBit(w[k..]);
      next := if bit then node.right else node.left;
      sub := if bit then cur.r else cur.l;
      InnerOnTheWay(t, w, v, k + 1, Erase(sub));
      Childless(sub, next);
    }

    /** Reads one symbol of the literal/length code: bits are read before each node is looked at. */
    method ReadLitLen(root: HuffNode, ghost s: Shape, ghost w: seq<bool>, ghost v: nat) returns (ok: bool, val: nat)
      requires bs <= 7 && Tree(root, s) && w != [] && Leads(Erase(s), w, v) && Holds(bytes[..], Pos(), w)
      modifies this`bs, this`c
      ensures ok && val == v && bs <= 7 && Pos() == old(Pos()) + |w|
    {
      hide Leads, Holds;
      ghost var t, k, cur := Erase(s), 0, s;
      var node: HuffNode? := root;
      ok, val := true, 0;
      assert w[..0] == [] && w[0..] == w;
      while true
        invariant bs <= 7 && Pos() == old(Pos()) + k && node != null && k < |w|
        invariant Underway(t, w, k, node, cur) && Holds(bytes[..], Pos(), w[k..])
        decreases |w| - k
      {
        node, cur := Step(node, t, w, v, k, cur);
        k := k + 1;
        if node == null {
          ok := false;
          return;
        }
        if node.left == null && node.right == null {
          return true, node.entry;
        }
      }
    }

    /** Reads one symbol of the distance code: nodes are looked at before each bit. */
    method ReadDist(root: HuffNode, ghost s: Shape, ghost w: seq<bool>, ghost v: nat) returns (ok: bool, val: nat)
      requires bs <= 7 && Tree(root, s) && w != [] && Leads(Erase(s), w, v) && Holds(bytes[..], Pos(), w)
      modifies this`bs, this`c
      ensures ok && val == v && bs <= 7 && Pos() == old(Pos()) + |w|
    {
      hide Leads, Holds;
      ghost var t, k, cur := Erase(s), 0, s;
      var node: HuffNode? := root;
      ok, val := true, 0;
      assert w[..0] == [] && w[0..] == w;
      InnerOnTheWay(t, w, v, 0, t);
      Childless(s, root);
      while node.left != null || node.right != null
        invariant bs <= 7 && Pos() == old(Pos()) + k && node != null && k <= |w|
        invariant Underway(t, w, k, node, cur) && Holds(bytes[..], Pos(), w[k..])
        invariant node.left == null && node.right == null <==> k == |w|
        invariant k == |w| ==> node.entry == v
        decreases |w| - k
      {
        node, cur := Step(node, t, w, v, k, cur);
        k := k + 1;
        if node == null {
          ok := false;
          return;
        }
      }
      return true, node.entry;
    }

    /** A field of n extra bits holding v, with more of the stream to come. */
    method ReadExtra(n: nat, ghost v: nat, ghost rest: seq<bool>) returns (to: nat)
      requires bs <= 7 && n <= 16 && v < Pow2(n) && rest != [] && Holds(bytes[..], Pos(), LowBits(v, n) + rest)
      modifies this`bs, this`c
      ensures to == v && bs <= 7 && Pos() == old(Pos()) + n && Holds(bytes[..], Pos(), rest)
    {
      HoldsSplit(bytes[..], Pos(), LowBits(v, n), rest);
      LowBitsValue(v, n);
      to := ReadBits(n, LowBits(v, n));
    }

    /** Copies length bytes from distance back, which must not overlap what is written. */
    method CopyBack(length: nat, distance: nat)
      requires length <= distance <= outCursor && outCursor + length <= outputBuf.Length
      modifies this`outCursor, outputBuf
      ensures outCursor == old(outCursor) + length
      ensures outputBuf[..outCursor] == old(outputBuf[..outCursor] + outputBuf[outCursor - distance..outCursor - distance + length])
    {
      var i := 0;
      while i < length
        invariant i <= length && outCursor == old(outCursor)
        invariant outputBuf[..outCursor + i] == old(outputBuf[..outCursor] + outputBuf[outCursor - distance..outCursor - distance + i])
      {
        outputBuf[outCursor + i] := outputBuf[outCursor - distance + i];
        i := i + 1;
      }
      outCursor := outCursor + length;
    }

    /** The rest of a match, its length symbol val having been read. */
    method ReadMatch(val: nat, distRoot: HuffNode, ghost ds: Shape, ghost t: Token, ghost dist: seq<nat>, ghost rest: seq<bool>)
      returns (ok: bool, length: nat, distance: nat)
      requires bs <= 7 && t.Match? && 257 <= t.sym <= 285 && t.dsym <= 29 && val == t.sym && rest != []
      requires t.extra < Pow2(LengthExtra(t.sym)) && t.dextra < Pow2(DistExtra(t.dsym)) && t.dsym < |dist| && dist[t.dsym] > 0
      requires Tree(distRoot, ds) && Leads(Erase(ds), Word(dist, t.dsym), t.dsym)
      requires Holds(bytes[..], Pos(), LowBits(t.extra, LengthExtra(t.sym)) + (Word(dist, t.dsym) + (LowBits(t.dextra, DistExtra(t.dsym)) + rest)))
      modifies this`bs, this`c
      ensures ok && length == Length(t) && distance == Distance(t) && bs <= 7 && Holds(bytes[..], Pos(), rest)
      ensures Pos() == old(Pos()) + LengthExtra(t.sym) + dist[t.dsym] + DistExtra(t.dsym)
    {
      hide Holds, Leads, Word, LowBits;
      ghost var tail := LowBits(t.dextra, DistExtra(t.dsym)) + rest;
      length, distance := 0, 0;
      assert allocated(Nodes(ds));
      var extra := 0;
      if val > 264 && val < 285 {
        extra := (val - 261) / 4;
      }
      var extraVal := ReadExtra(extra, t.extra, Word(dist, t.dsym) + tail);
      LengthTable(val);
      length := BASE_LENGTHS[val - 257] + extraVal;
      HoldsSplit(bytes[..], Pos(), Word(dist, t.dsym), tail);
      assert Word(dist, t.dsym) != [] && allocated(Nodes(ds));
      var distBase;
      ok, distBase := ReadDist(distRoot, ds, Word(dist, t.dsym), t.dsym);
      if !ok {
        return;
      }
      var extraDist, extraDistVal := 0, 0;
      assert t.dsym <= 3 ==> tail == rest;
      if distBase > 3 {
        extraDist := (distBase - 2) / 2;
        extraDistVal := ReadExtra(extraDist, t.dextra, rest);
      }
      DistTable(distBase);
      distance := DIST_BASES[distBase] + extraDistVal;
    }

    /** The rest of a match and its copy. */
    method EmitMatch(val: nat, distRoot: HuffNode, ghost ds: Shape, ghost t: Token, ghost dist: seq<nat>, ghost rest: seq<bool>)
      returns (ok: bool)
      requires bs <= 7 && bytes != outputBuf && t.Match? && 257 <= t.sym <= 285 && t.dsym <= 29 && val == t.sym && rest != []
      requires t.extra < Pow2(LengthExtra(t.sym)) && t.dextra < Pow2(DistExtra(t.dsym)) && t.dsym < |dist| && dist[t.dsym] > 0
      requires outCursor <= outputBuf.Length && Applies(t, outCursor) && outCursor + Length(t) <= outputBuf.Length
      requires Tree(distRoot, ds) && Leads(Erase(ds), Word(dist, t.dsym), t.dsym)
      requires Holds(bytes[..], Pos(), LowBits(t.extra, LengthExtra(t.sym)) + (Word(dist, t.dsym) + (LowBits(t.dextra, DistExtra(t.dsym)) + rest)))
      modifies this`bs, this`c, this`outCursor, outputBuf
      ensures ok && bs <= 7 && outCursor <= outputBuf.Length && Holds(bytes[..], Pos(), rest)
      ensures outputBuf[..outCursor] == Expand(old(outputBuf[..outCursor]), t)
      ensures Pos() == old(Pos()) + LengthExtra(t.sym) + dist[t.dsym] + DistExtra(t.dsym)
    {
      hide Holds, Leads, Word, LowBits, LengthBase, DistBase;
      var length, distance;
      ok, length, distance := ReadMatch(val, distRoot, ds, t, dist, rest);
      if !ok {
        return;
      }
      ghost var out := outputBuf[..outCursor];
      assert out[|out| - distance..|out| - distance + length] == outputBuf[outCursor - distance..outCursor - distance + length];
      CopyBack(length, distance);
    }

    /** Writes out one token, its literal/length symbol val having been read. */
    method Emit(val: nat, distRoot: HuffNode, ghost ds: Shape, ghost ts: seq<Token>, ghost lit: seq<nat>, ghost dist: seq<nat>)
      returns (ok: bool)
      requires bs <= 7 && bytes != outputBuf && Coded(ts, lit, dist) && ts != [] && val == Symbol(ts)
      requires outCursor <= outputBuf.Length && Applies(ts[0], outCursor) && |Expand(outputBuf[..outCursor], ts[0])| <= outputBuf.Length
      requires Tree(distRoot, ds) && Decodes(Erase(ds), dist, |dist|) && Holds(bytes[..], Pos(), After(ts, lit, dist))
      modifies this`bs, this`c, this`outCursor, outputBuf
      ensures ok && bs <= 7 && outCursor <= outputBuf.Length && Holds(bytes[..], Pos(), EncodeAll(ts[1..], lit, dist))
      ensures outputBuf[..outCursor] == Expand(old(outputBuf[..outCursor]), ts[0])
      ensures Pos() == old(Pos()) + |After(ts, lit, dist)| - |EncodeAll(ts[1..], lit, dist)|
    {
      hide Holds, Decodes, At, EncodeAll, Word, LowBits, LengthBase, DistBase;
      ghost var t, rest := ts[0], EncodeAll(ts[1..], lit, dist);
      assert Encodable(t, lit, dist);
      ok := true;
      if val < 0x100 {
        outputBuf[outCursor] := val;
        outCursor := outCursor + 1;
      } else {
        EndsInCode(ts[1..], lit, dist);
        LeadsToSymbol(Erase(ds), dist, t.dsym);
        ok := EmitMatch(val, distRoot, ds, t, dist, rest);
      }
    }

    lemma LeadsToSymbol(t: Trie, lengths: seq<nat>, i: nat)
      requires Decodes(t, lengths, |lengths|) && i < |lengths| && lengths[i] > 0
      ensures Leads(t, Word(lengths, i), i)
    {}

    /** One round of deflate_block: the next symbol and, unless it ends the block, what it stands for. */
    method Round(litRoot: HuffNode, distRoot: HuffNode, ghost ls: Shape, ghost ds: Shape,
                 ghost ts: seq<Token>, ghost lit: seq<nat>, ghost dist: seq<nat>)
      returns (ok: bool, val: nat)
      requires bs <= 7 && bytes != outputBuf && outCursor <= outputBuf.Length && Coded(ts, lit, dist)
      requires Tree(litRoot, ls) && Decodes(Erase(ls), lit, |lit|) && Tree(distRoot, ds) && Decodes(Erase(ds), dist, |dist|)
      requires ts != [] ==> Applies(ts[0], outCursor) && |Expand(outputBuf[..outCursor], ts[0])| <= outputBuf.Length
      requires Holds(bytes[..], Pos(), EncodeAll(ts, lit, dist))
      modifies this`bs, this`c, this`outCursor, outputBuf
      ensures ok && bs <= 7 && outCursor <= outputBuf.Length && (val == EOB <==> ts == [])
      ensures ts == [] ==> outputBuf[..] == old(outputBuf[..]) && outCursor == old(outCursor) && Pos() == old(Pos()) + |EncodeAll(ts, lit, dist)|
      ensures ts != [] ==> Holds(bytes[..], Pos(), EncodeAll(ts[1..], lit, dist)) && outputBuf[..outCursor] == Expand(old(outputBuf[..outCursor]), ts[0])
      ensures ts != [] ==> Pos() + |EncodeAll(ts[1..], lit, dist)| == old(Pos()) + |EncodeAll(ts, lit, dist)|
    {
      hide Holds, Decodes, At, Applies, Expand, EncodeAll, After, Symbol, Word, Encodable;
      SymbolFirst(ts, lit, dist);
      ghost var w := Word(lit, Symbol(ts));
      LeadsToSymbol(Erase(ls), lit, Symbol(ts));
      HoldsSplit(bytes[..], Pos(), w, After(ts, lit, dist));
      assert allocated(Nodes(ls)) && allocated(Nodes(ds));
      ok, val := ReadLitLen(litRoot, ls, w, Symbol(ts));
      if !ok {
        return;
      }
      if val != EOB {
        ok := Emit(val, distRoot, ds, ts, lit, dist);
      }
    }

    /**
     * deflate_block: on the bits of any encodable token sequence it writes exactly the bytes the
     * tokens stand for and stops right behind the end-of-block code.
     */
    method Block(litRoot: HuffNode, distRoot: HuffNode, ghost ls: Shape, ghost ds: Shape,
                 ghost ts: seq<Token>, ghost lit: seq<nat>, ghost dist: seq<nat>)
      returns (ok: bool)
      requires bs <= 7 && bytes != outputBuf && outCursor <= outputBuf.Length && Coded(ts, lit, dist)
      requires Tree(litRoot, ls) && Decodes(Erase(ls), lit, |lit|) && Tree(distRoot, ds) && Decodes(Erase(ds), dist, |dist|)
      requires AllApply(ts, outputBuf[..outCursor]) && |ExpandAll(outputBuf[..outCursor], ts)| <= outputBuf.Length
      requires Holds(bytes[..], Pos(), EncodeAll(ts, lit, dist))
      modifies this`bs, this`c, this`outCursor, outputBuf
      ensures ok && outCursor <= outputBuf.Length && outputBuf[..outCursor] == ExpandAll(old(outputBuf[..outCursor]), ts)
      ensures bs <= 7 && Pos() == old(Pos()) + |EncodeAll(ts, lit, dist)|
    {
      hide Holds, Decodes, At, Encodable, Applies, Expand, EncodeAll, ExpandAll, AllApply;
      ghost var rest := ts;
      var val: nat := 0;
      ok := true;
      while val != EOB
        invariant ok && bs <= 7 && outCursor <= outputBuf.Length && Coded(rest, lit, dist) && (val == EOB ==> rest == [])
        invariant Tree(litRoot, ls) && Tree(distRoot, ds)
        invariant val != EOB ==> Holds(bytes[..], Pos(), EncodeAll(rest, lit, dist))
        invariant AllApply(rest, outputBuf[..outCursor])
        invariant ExpandAll(outputBuf[..outCursor], rest) == ExpandAll(old(outputBuf[..outCursor]), ts)
        invariant Pos() + (if val == EOB then 0 else |EncodeAll(rest, lit, dist)|) == old(Pos()) + |EncodeAll(ts, lit, dist)|
        decreases if val == EOB then 0 else |rest| + 1
      {
        if rest != [] {
          ExpandStep(outputBuf[..outCursor], rest);
        }
        assert allocated(Nodes(ls)) && allocated(Nodes(ds));
        ok, val := Round(litRoot, distRoot, ls, ds, rest, lit, dist);
        if !ok {
          return;
        }
        if val != EOB {
          rest := rest[1..];
        }
      }
      ExpandNone(outputBuf[..outCursor]);
    }

    lemma ExpandNone(out: seq<Byte>)
      ensures AllApply([], out) && ExpandAll(out, []) == out
    {}
  }

  /**
   * The compressed data of a block whose code lengths are known: both trees are built and the
   * block decoded. Together with DecodeCodes this inverts the encoder for all Kraft lengths.
   */
  method DecodeBody(ctx: ReadCtx, lit: seq<nat>, dist: seq<nat>, ghost ts: seq<Token>) returns (ok: bool)
    requires |lit| < U16 && |dist| < U16 && Kraft(lit, 15) && Kraft(dist, 15) && Coded(ts, lit, dist)
    requires ctx.bs <= 7 && ctx.bytes != ctx.outputBuf && ctx.outCursor <= ctx.outputBuf.Length
    requires AllApply(ts, ctx.outputBuf[..ctx.outCursor])
    requires |ExpandAll(ctx.outputBuf[..ctx.outCursor], ts)| <= ctx.outputBuf.Length
    requires Holds(ctx.bytes[..], ctx.Pos(), EncodeAll(ts, lit, dist))
    modifies ctx, ctx.outputBuf
    ensures ok && ctx.outCursor <= ctx.outputBuf.Length
    ensures ctx.outputBuf[..ctx.outCursor] == ExpandAll(old(ctx.outputBuf[..ctx.outCursor]), ts)
    ensures ctx.bs <= 7 && ctx.Pos() == old(ctx.Pos()) + |EncodeAll(ts, lit, dist)|
  {
    hide Kraft, Coded, Holds, Decodes, Narrow, AllApply, ExpandAll, EncodeAll, At;
    var litRoot, litClean, distRoot, distClean;
    ghost var ls, ds;
    SixteenIsNarrow(lit, 15);
    SixteenIsNarrow(dist, 15);
    litRoot, litClean, ls := DecodeCodes(15, lit);
    assert allocated(Nodes(ls));
    distRoot, distClean, ds := DecodeCodes(15, dist);
    ok := ctx.Block(litRoot, distRoot, ls, ds, ts, lit, dist);
  }
}
