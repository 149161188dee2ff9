/** Canonical prefix codes from code lengths (section 3.2.2 of RFC 1951). */
module CanonicalCodes {
  import opened Bits

  /** How many of the first n symbols have codes of b bits. */
  function Count(lengths: seq<nat>, b: nat, n: nat): nat
    requires n <= |lengths|
  {
    if n == 0 then 0 else Count(lengths, b, n - 1) + if lengths[n - 1] == b then 1 else 0
  }

  /** How many b-bit strings the codes of at most b bits among the first n symbols take up. */
  function Taken(lengths: seq<nat>, b: nat, n: nat): nat
    requires n <= |lengths|
  {
    if b == 0 then 0 else 2 * Taken(lengths, b - 1, n) + Count(lengths, b, n)
  }

  /** The numerically smallest code of b bits. */
  function First(lengths: seq<nat>, b: nat): nat
    requires b > 0
  {
    2 * Taken(lengths, b - 1, |lengths|)
  }

  /** The code of symbol i: codes of one length are consecutive in symbol order. */
  function Code(lengths: seq<nat>, i: nat): nat
    requires i < |lengths| && lengths[i] > 0
  {
    First(lengths, lengths[i]) + Count(lengths, lengths[i], i)
  }

  function KraftSum(lengths: seq<nat>, m: nat, n: nat): nat
    requires n <= |lengths| && forall i :: 0 <= i < |lengths| ==> lengths[i] <= m
  {
    if n == 0 then 0 else KraftSum(lengths, m, n - 1) + if lengths[n - 1] > 0 then Pow2(m - lengths[n - 1]) else 0
  }

  /** Kraft's inequality for lengths of at most m bits. */
  predicate Kraft(lengths: seq<nat>, m: nat) {
    (forall i :: 0 <= i < |lengths| ==> lengths[i] <= m) && KraftSum(lengths, m, |lengths|) <= Pow2(m)
  }

  lemma {:induction false} TakenNext(lengths: seq<nat>, b: nat, n: nat)
    requires n < |lengths|
    ensures Taken(lengths, b, n + 1) == Taken(lengths, b, n) + if 1 <= lengths[n] <= b then Pow2(b - lengths[n]) else 0
  {
    if b > 0 {
      TakenNext(lengths, b - 1, n);
    }
  }

  /** Kraft's sum is what the codes take up at the longest length. */
  lemma {:induction false} KraftIsTaken(lengths: seq<nat>, m: nat, n: nat)
    requires n <= |lengths| && forall i :: 0 <= i < |lengths| ==> lengths[i] <= m
    ensures KraftSum(lengths, m, n) == Taken(lengths, m, n)
  {
    if n > 0 {
      KraftIsTaken(lengths, m, n - 1);
      TakenNext(lengths, m, n - 1);
    } else {
      TakenNone(lengths, m);
    }
  }

  lemma {:induction false} TakenNone(lengths: seq<nat>, b: nat)
    ensures Taken(lengths, b, 0) == 0
  {
    if b > 0 {
      TakenNone(lengths, b - 1);
    }
  }

  /** What is taken at b bits blocks its extensions at c bits. */
  lemma {:induction false} TakenGrows(lengths: seq<nat>, b: nat, c: nat)
    requires b <= c
    ensures Taken(lengths, c, |lengths|) >= Pow2(c - b) * Taken(lengths, b, |lengths|)
    decreases c
  {
    if b < c {
      TakenGrows(lengths, b, c - 1);
      Regroup(2, Pow2(c - 1 - b), Taken(lengths, b, |lengths|));
    }
  }

  lemma {:induction false} CountUpTo(lengths: seq<nat>, b: nat, i: nat, j: nat)
    requires i <= j <= |lengths|
    ensures Count(lengths, b, i) <= Count(lengths, b, j)
    ensures i < j && lengths[i] == b ==> Count(lengths, b, i) < Count(lengths, b, j)
  {
    if i < j {
      CountUpTo(lengths, b, i, j - 1);
    }
  }

  /** Within one length every code lies in the range reserved for that length. */
  lemma CodeInRange(lengths: seq<nat>, i: nat)
    requires i < |lengths| && lengths[i] > 0
    ensures First(lengths, lengths[i]) <= Code(lengths, i) < Taken(lengths, lengths[i], |lengths|)
  {
    CountUpTo(lengths, lengths[i], i, |lengths|);
  }

  lemma {:induction false} RoomLeft(lengths: seq<nat>, m: nat, b: nat)
    requires Kraft(lengths, m) && b <= m
    ensures Taken(lengths, b, |lengths|) <= Pow2(b)
  {
    KraftIsTaken(lengths, m, |lengths|);
    TakenGrows(lengths, b, m);
    Pow2Add(m - b, b);
    Cancel(Pow2(m - b), Taken(lengths, b, |lengths|), Pow2(b));
  }

  /** Symbol j's code comes before symbol i's: it is shorter, or as long and of an earlier symbol. */
  predicate Before(lengths: seq<nat>, j: nat, i: nat)
    requires i < |lengths| && j < |lengths|
  {
    0 < lengths[j] < lengths[i] || (0 < lengths[j] == lengths[i] && j < i)
  }

  /** The m-bit strings taken up by those of the first n symbols whose codes come before symbol i's. */
  function Share(lengths: seq<nat>, m: nat, i: nat, n: nat): nat
    requires n <= |lengths| && i < |lengths| && lengths[i] <= m
  {
    if n == 0 then 0
    else Share(lengths, m, i, n - 1) + if Before(lengths, n - 1, i) then Pow2(m - lengths[n - 1]) else 0
  }

  /** A code, drawn out to m bits, is the number of m-bit strings taken up by all codes before it. */
  lemma CodeIsShare(lengths: seq<nat>, m: nat, i: nat)
    requires i < |lengths| && 0 < lengths[i] <= m
    ensures Code(lengths, i) * Pow2(m - lengths[i]) == Share(lengths, m, i, |lengths|)
  {
    ShareSoFar(lengths, m, i, |lengths|);
  }

  lemma ShareNext(lengths: seq<nat>, m: nat, i: nat, n: nat)
    requires n < |lengths| && i < |lengths| && lengths[i] <= m
    ensures Share(lengths, m, i, 0) == 0
    ensures Share(lengths, m, i, n + 1) == Share(lengths, m, i, n) + if Before(lengths, n, i) then Pow2(m - lengths[n]) else 0
  {}

  lemma CountNext(lengths: seq<nat>, b: nat, n: nat)
    requires n < |lengths|
    ensures Count(lengths, b, 0) == 0
    ensures Count(lengths, b, n + 1) == Count(lengths, b, n) + if lengths[n] == b then 1 else 0
  {}

  lemma Scaled(x: nat, y: nat, q: nat)
    ensures (x + y) * q == x * q + y * q
  {}

  lemma {:induction false} ShareSoFar(lengths: seq<nat>, m: nat, i: nat, n: nat)
    requires i < |lengths| && 0 < lengths[i] <= m && n <= |lengths|
    ensures var l := lengths[i];
      (2 * Taken(lengths, l - 1, n) + Count(lengths, l, if n < i then n else i)) * Pow2(m - l) == Share(lengths, m, i, n)
  {
    hide Share, Taken, Count, Pow2;
    var l := lengths[i];
    ShareNext(lengths, m, i, if n > 0 then n - 1 else 0);
    CountNext(lengths, l, if n > 0 then n - 1 else 0);
    if n == 0 {
      TakenNone(lengths, l - 1);
    } else {
      ShareSoFar(lengths, m, i, n - 1);
      TakenNext(lengths, l - 1, n - 1);
      var k := lengths[n - 1];
      var before := 2 * Taken(lengths, l - 1, n - 1) + Count(lengths, l, if n - 1 < i then n - 1 else i);
      if 0 < k < l {
        Doubled(l, k);
        Pow2Add(l - k, m - l);
        Scaled(before, Pow2(l - k), Pow2(m - l));
      } else if k == l && n - 1 < i {
        Scaled(before, 1, Pow2(m - l));
      }
    }
  }

  lemma Doubled(l: nat, k: nat)
    requires 0 < k < l
    ensures 2 * Pow2(l - 1 - k) == Pow2(l - k)
  {}

  /** Codes of one length are consecutive in symbol order. */
  lemma {:induction false} CodesInOrder(lengths: seq<nat>, i: nat, j: nat)
    requires i < j < |lengths| && lengths[i] == lengths[j] > 0
    ensures Code(lengths, i) < Code(lengths, j)
    ensures (forall k :: i < k < j ==> lengths[k] != lengths[i]) ==> Code(lengths, j) == Code(lengths, i) + 1
  {
    CountUpTo(lengths, lengths[i], i, j);
    if forall k :: i < k < j ==> lengths[k] != lengths[i] {
      CountSame(lengths, lengths[i], i + 1, j);
    }
  }

  lemma {:induction false} CountSame(lengths: seq<nat>, b: nat, i: nat, j: nat)
    requires i <= j <= |lengths| && forall k :: i <= k < j ==> lengths[k] != b
    ensures Count(lengths, b, i) == Count(lengths, b, j)
  {
    if i < j {
      CountSame(lengths, b, i, j - 1);
    }
  }

  /** Under Kraft's inequality every code fits its length. */
  lemma CodeFits(lengths: seq<nat>, m: nat, i: nat)
    requires Kraft(lengths, m) && i < |lengths| && lengths[i] > 0
    ensures Code(lengths, i) < Pow2(lengths[i])
  {
    CodeInRange(lengths, i);
    RoomLeft(lengths, m, lengths[i]);
  }

  /** Conversely, lengths that break the inequality leave some symbol a code too large for its length. */
  lemma {:induction false} OverfullOverflows(lengths: seq<nat>, b: nat) returns (i: nat)
    requires Taken(lengths, b, |lengths|) > Pow2(b)
    ensures i < |lengths| && 0 < lengths[i] <= b && Code(lengths, i) >= Pow2(lengths[i])
  {
    if Count(lengths, b, |lengths|) == 0 {
      i := OverfullOverflows(lengths, b - 1);
    } else {
      i := LastOf(lengths, b, |lengths|);
    }
  }

  lemma {:induction false} LastOf(lengths: seq<nat>, b: nat, n: nat) returns (i: nat)
    requires n <= |lengths| && Count(lengths, b, n) > 0
    ensures i < n && lengths[i] == b && Count(lengths, b, i) == Count(lengths, b, n) - 1
  {
    if lengths[n - 1] == b {
      i := n - 1;
    } else {
      i := LastOf(lengths, b, n - 1);
    }
  }

  /** All codes fit their lengths exactly when Kraft's inequality holds. */
  lemma CodesFitIffKraft(lengths: seq<nat>, m: nat)
    requires forall i :: 0 <= i < |lengths| ==> lengths[i] <= m
    ensures Kraft(lengths, m) <==> forall i :: 0 <= i < |lengths| && lengths[i] > 0 ==> Code(lengths, i) < Pow2(lengths[i])
  {
    if Kraft(lengths, m) {
      forall i | 0 <= i < |lengths| && lengths[i] > 0 ensures Code(lengths, i) < Pow2(lengths[i]) {
        CodeFits(lengths, m, i);
      }
    } else {
      KraftIsTaken(lengths, m, |lengths|);
      var i := OverfullOverflows(lengths, m);
    }
  }

  // ---------- Codes as bit strings ----------

  /** The low len bits of c, most significant first. */
  function CodeBits(c: nat, len: nat): (s: seq<bool>)
    ensures |s| == len
  {
    if len == 0 then [] else CodeBits(c / 2, len - 1) + [c % 2 == 1]
  }

  /** The most significant bit comes first. */
  lemma {:induction false} CodeBitsAt(c: nat, len: nat, k: nat)
    requires k < len
    ensures CodeBits(c, len)[k] <==> c / Pow2(len - 1 - k) % 2 == 1
  {
    if k < len - 1 {
      CodeBitsAt(c / 2, len - 1, k);
      DivPow2(c, len - 1 - k);
    }
  }

  lemma DivPow2(c: nat, n: nat)
    requires n > 0
    ensures c / 2 / Pow2(n - 1) == c / Pow2(n)
  {
    DivDiv(c, 2, Pow2(n - 1));
  }

  /** Reading the string from its front, as the tree is walked. */
  lemma {:induction false} CodeBitsFront(c: nat, len: nat)
    requires len > 0
    ensures CodeBits(c, len) == [Bit(c, len - 1)] + CodeBits(c, len - 1)
  {
    if len > 1 {
      CodeBitsFront(c / 2, len - 1);
      assert [Bit(c, len - 1)] + CodeBits(c / 2, len - 2) + [c % 2 == 1] == [Bit(c, len - 1)] + (CodeBits(c / 2, len - 2) + [c % 2 == 1]);
    }
  }

  /** The bit the source tests: (c >> k) & 1. */
  lemma {:induction false} BitByShift(c: nat, k: nat)
    ensures Bit(c, k) == (Shr(c, k) % 2 == 1)
  {
    if k > 0 {
      BitByShift(c / 2, k - 1);
    }
  }

  lemma {:induction false} CodeBitsInjective(a: nat, b: nat, len: nat)
    requires a < Pow2(len) && b < Pow2(len) && CodeBits(a, len) == CodeBits(b, len)
    ensures a == b
  {
    if len > 0 {
      var sa, sb := CodeBits(a, len), CodeBits(b, len);
      assert sa[..len - 1] == CodeBits(a / 2, len - 1) && sb[..len - 1] == CodeBits(b / 2, len - 1);
      assert sa[len - 1] == (a % 2 == 1) && sb[len - 1] == (b % 2 == 1);
      CodeBitsInjective(a / 2, b / 2, len - 1);
    }
  }

  lemma {:induction false} CodeBitsPrefix(c: nat, len: nat, k: nat)
    requires k <= len
    ensures CodeBits(c, len)[..k] == CodeBits(c / Pow2(len - k), k)
    decreases len
  {
    if k < len {
      CodeBitsPrefix(c / 2, len - 1, k);
      DivDiv(c, 2, Pow2(len - 1 - k));
      assert CodeBits(c, len)[..k] == CodeBits(c / 2, len - 1)[..k];
    }
  }

  /** The bit string of symbol i. */
  function Word(lengths: seq<nat>, i: nat): (s: seq<bool>)
    requires i < |lengths| && lengths[i] > 0
    ensures |s| == lengths[i]
  {
    CodeBits(Code(lengths, i), lengths[i])
  }

  lemma {:induction false} LaterLengthsAbove(lengths: seq<nat>, i: nat, j: nat)
    requires i < |lengths| && j < |lengths| && 0 < lengths[i] < lengths[j]
    ensures Code(lengths, j) / Pow2(lengths[j] - lengths[i]) > Code(lengths, i)
  {
    var b, c := lengths[i], lengths[j];
    var p, t := Pow2(c - b), Taken(lengths, b, |lengths|);
    CodeInRange(lengths, i);
    CodeInRange(lengths, j);
    TakenGrows(lengths, b, c - 1);
    Regroup(2, Pow2(c - 1 - b), t);
    assert Code(lengths, j) >= p * t;
    Quotient(Code(lengths, j), p, t);
  }

  lemma Quotient(x: nat, d: nat, q: nat)
    requires d >= 1 && x >= d * q
    ensures x / d >= q
  {
    DivBounds(x, d);
    if x / d < q {
      MulMono(d, x / d + 1, q);
    }
  }

  /** Under Kraft's inequality no word is a prefix of another. */
  lemma PrefixFree(lengths: seq<nat>, m: nat, i: nat, j: nat)
    requires Kraft(lengths, m) && i < |lengths| && j < |lengths| && i != j && lengths[i] > 0 && lengths[j] > 0
    ensures !(Word(lengths, i) <= Word(lengths, j))
  {
    if lengths[i] <= lengths[j] {
      var d := Pow2(lengths[j] - lengths[i]);
      CodeBitsPrefix(Code(lengths, j), lengths[j], lengths[i]);
      CodeFits(lengths, m, i);
      CodeFits(lengths, m, j);
      ShiftedFits(Code(lengths, j), lengths[j], lengths[i]);
      if lengths[i] == lengths[j] {
        SameLengthDiffer(lengths, i, j);
      } else {
        LaterLengthsAbove(lengths, i, j);
      }
      if Word(lengths, i) <= Word(lengths, j) {
        assert Word(lengths, j)[..lengths[i]] == Word(lengths, i);
        CodeBitsInjective(Code(lengths, i), Code(lengths, j) / d, lengths[i]);
        assert false;
      }
    }
  }

  lemma ShiftedFits(c: nat, len: nat, k: nat)
    requires c < Pow2(len) && k <= len
    ensures c / Pow2(len - k) < Pow2(k)
  {
    Pow2Add(len - k, k);
    DivBounds(c, Pow2(len - k));
    if c / Pow2(len - k) >= Pow2(k) {
      MulMono(Pow2(len - k), Pow2(k), c / Pow2(len - k));
    }
  }

  lemma SameLengthDiffer(lengths: seq<nat>, i: nat, j: nat)
    requires i < |lengths| && j < |lengths| && i != j && lengths[i] == lengths[j] > 0
    ensures Code(lengths, i) != Code(lengths, j)
  {
    if i < j {
      CountUpTo(lengths, lengths[i], i, j);
    } else {
      CountUpTo(lengths, lengths[i], j, i);
    }
  }
}
