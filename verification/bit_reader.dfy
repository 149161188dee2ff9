/** Reading bit fields from bytes, least significant bit first (section 3.1.1 of RFC 1951). */
module BitReader {
  import opened Basics
  import opened Bits

  /** The bit stream the bytes stand for. */
  function BitAt(bytes: seq<Byte>, pos: nat): bool
    requires pos < 8 * |bytes|
  {
    Bit(bytes[pos / 8], pos % 8)
  }

  /** Bytes in order, and in each byte the least significant bit first (section 3.1.1 of RFC 1951). */
  lemma StreamBit(bytes: seq<Byte>, i: nat, k: nat)
    requires i < |bytes| && k < 8
    ensures BitAt(bytes, 8 * i + k) <==> bytes[i] / Pow2(k) % 2 == 1
  {
    assert (8 * i + k) / 8 == i && (8 * i + k) % 8 == k;
    BitIsDivision(bytes[i], k);
  }

  lemma {:induction false} BitIsDivision(x: nat, k: nat)
    ensures Bit(x, k) <==> x / Pow2(k) % 2 == 1
  {
    if k > 0 {
      BitIsDivision(x / 2, k - 1);
      DivDiv(x, 2, Pow2(k - 1));
    }
  }

  /** The stream at pos goes on with s. */
  ghost predicate Holds(bytes: seq<Byte>, pos: nat, s: seq<bool>) {
    pos + |s| <= 8 * |bytes| && forall k :: 0 <= k < |s| ==> BitAt(bytes, pos + k) == s[k]
  }

  /** One term of the macro: a byte moved to its place and cut to the field's width. */
  function Term(b: nat, left: bool, dist: nat, amount: nat): nat {
    Mask(if left then Shl(b, dist) else Shr(b, dist), amount)
  }

  /** The field as READ_BITS puts it together from up to three bytes. */
  function Field(bytes: seq<Byte>, bs: nat, c: nat, amount: nat): nat
    requires bs <= 7 && c < |bytes|
    requires (bs + amount > 8 ==> c + 1 < |bytes|) && (bs + amount > 16 ==> c + 2 < |bytes|)
  {
    if bs + amount > 16 then
      Or(Or(Term(bytes[c + 2], true, 16 - bs, amount), Term(bytes[c + 1], true, 8 - bs, amount)), Term(bytes[c], false, bs, amount))
    else if bs + amount > 8 then
      Or(Term(bytes[c + 1], true, 8 - bs, amount), Term(bytes[c], false, bs, amount))
    else
      Term(bytes[c], false, bs, amount)
  }

  lemma TermBit(b: nat, left: bool, dist: nat, amount: nat, k: nat)
    requires k < amount
    ensures Bit(Term(b, left, dist, amount), k) == if left then k >= dist && Bit(b, k - dist) else Bit(b, k + dist)
  {
    BitMask(if left then Shl(b, dist) else Shr(b, dist), amount, k);
    if left {
      BitShl(b, dist, k);
    } else {
      BitShr(b, dist, k);
    }
  }

  lemma ByteEnds(b: Byte, k: nat)
    requires k >= 8
    ensures !Bit(b, k)
  {
    assert Pow2(8) == 256 by {
      assert Pow2(4) == 16;
    }
    BitsAbove(b, 8, k);
  }

  /** Bit k of a field that starts bs bits into its first byte. */
  lemma FieldBit(bytes: seq<Byte>, bs: nat, c: nat, amount: nat, k: nat)
    requires bs <= 7 && c < |bytes| && k < amount && bs + amount <= 24
    requires (bs + amount > 8 ==> c + 1 < |bytes|) && (bs + amount > 16 ==> c + 2 < |bytes|)
    ensures Bit(Field(bytes, bs, c, amount), k) == BitAt(bytes, 8 * c + bs + k)
  {
    hide Bit, Or, Term;
    var j := bs + k;
    TermBit(bytes[c], false, bs, amount, k);
    assert (8 * c + j) / 8 == c + j / 8 && (8 * c + j) % 8 == j % 8;
    if j >= 8 {
      ByteEnds(bytes[c], j);
    }
    if bs + amount > 8 {
      var t0, t1 := Term(bytes[c], false, bs, amount), Term(bytes[c + 1], true, 8 - bs, amount);
      TermBit(bytes[c + 1], true, 8 - bs, amount, k);
      if j >= 16 {
        ByteEnds(bytes[c + 1], j - 8);
      }
      BitOr(t1, t0, k);
      if bs + amount > 16 {
        var t2 := Term(bytes[c + 2], true, 16 - bs, amount);
        TermBit(bytes[c + 2], true, 16 - bs, amount, k);
        BitOr(t2, t1, k);
        BitOr(Or(t2, t1), t0, k);
      }
    }
  }

  lemma FieldBelow(bytes: seq<Byte>, bs: nat, c: nat, amount: nat)
    requires bs <= 7 && c < |bytes|
    requires (bs + amount > 8 ==> c + 1 < |bytes|) && (bs + amount > 16 ==> c + 2 < |bytes|)
    ensures Field(bytes, bs, c, amount) < Pow2(amount)
  {
    if bs + amount > 8 {
      var t0, t1 := Term(bytes[c], false, bs, amount), Term(bytes[c + 1], true, 8 - bs, amount);
      OrBelow(t1, t0, amount);
      if bs + amount > 16 {
        var t2 := Term(bytes[c + 2], true, 16 - bs, amount);
        OrBelow(t2, t1, amount);
        OrBelow(Or(t2, t1), t0, amount);
      }
    }
  }

  /** The field is the number its bits of the stream spell, least significant first. */
  lemma FieldIsValue(bytes: seq<Byte>, bs: nat, c: nat, amount: nat, s: seq<bool>)
    requires bs <= 7 && c < |bytes| && bs + amount <= 24 && |s| == amount && Holds(bytes, 8 * c + bs, s)
    ensures (bs + amount > 8 ==> c + 1 < |bytes|) && (bs + amount > 16 ==> c + 2 < |bytes|)
    ensures Field(bytes, bs, c, amount) == Value(s)
  {
    forall k | 0 <= k < amount ensures Bit(Field(bytes, bs, c, amount), k) == s[k] {
      FieldBit(bytes, bs, c, amount, k);
    }
    FieldBelow(bytes, bs, c, amount);
    FromBits(Field(bytes, bs, c, amount), s);
  }
}
