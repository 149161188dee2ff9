/** Decimal text of 64-bit integers: printing and parsing. */
module Decimal {
  import opened Basics

  const I64: nat := 0x8000_0000_0000_0000
  const BILLION: nat := 1_000_000_000

  predicate IsDigit(c: char) {
    '0' <= c <= '9'
  }

  function DigitChar(d: nat): (c: char)
    requires d < 10
    ensures IsDigit(c) && DigitOf(c) == d
  {
    ('0' as int + d) as char
  }

  function DigitOf(c: char): (d: nat)
    requires IsDigit(c)
    ensures d < 10
  {
    c as int - '0' as int
  }

  /** The ten digits and their values. */
  lemma DigitValues(d: nat)
    requires d < 10
    ensures DigitChar(d) == "0123456789"[d] && DigitOf("0123456789"[d]) == d
    ensures forall c :: IsDigit(c) <==> c in "0123456789"
  {}

  predicate AllDigits(s: string) {
    forall i :: 0 <= i < |s| ==> IsDigit(s[i])
  }

  function Pow10(k: nat): (r: nat)
    ensures r >= 1
  {
    if k == 0 then 1 else 10 * Pow10(k - 1)
  }

  /** The decimal form without leading zeros. */
  function Dec(v: nat): (s: string)
    ensures s != [] && AllDigits(s)
  {
    (if v < 10 then [] else Dec(v / 10)) + [DigitChar(v % 10)]
  }

  /** The last k decimal digits. */
  function Padded(k: nat, v: nat): (s: string)
    ensures |s| == k && AllDigits(s)
  {
    if k == 0 then [] else Padded(k - 1, v / 10) + [DigitChar(v % 10)]
  }

  /** The number a string of digits stands for. */
  function Number(s: string): nat
    requires AllDigits(s)
  {
    if s == [] then 0 else 10 * Number(s[..|s| - 1]) + DigitOf(s[|s| - 1])
  }

  // ---------- Dec is the decimal form ----------

  lemma NumberNext(s: string, d: nat)
    requires AllDigits(s) && d < 10
    ensures Number(s + [DigitChar(d)]) == 10 * Number(s) + d
  {
    assert (s + [DigitChar(d)])[..|s|] == s;
  }

  lemma {:induction false} DecNumber(v: nat)
    ensures Number(Dec(v)) == v
  {
    var s := Dec(v);
    if v >= 10 {
      DecNumber(v / 10);
      NumberNext(Dec(v / 10), v % 10);
    } else {
      NumberNext([], v);
      assert s == [] + [DigitChar(v)];
    }
  }

  lemma {:induction false} DecCanonical(v: nat)
    ensures Dec(v)[0] == '0' ==> Dec(v) == "0"
  {
    if v >= 10 {
      DecCanonical(v / 10);
      assert Dec(v)[0] == Dec(v / 10)[0];
      assert Dec(v / 10) == "0" ==> Number(Dec(v / 10)) == 0 by {
        assert "0"[..0] == [];
      }
      DecNumber(v / 10);
    }
  }

  /** No other digit string without a leading zero stands for v. */
  lemma {:induction false} DecUnique(s: string, v: nat)
    requires s != [] && AllDigits(s) && (s[0] == '0' ==> s == "0") && Number(s) == v
    ensures s == Dec(v)
    decreases |s|
  {
    var t, d := s[..|s| - 1], DigitOf(s[|s| - 1]);
    assert s == t + [s[|s| - 1]] && DigitChar(d) == s[|s| - 1];
    assert v == 10 * Number(t) + d;
    hide Number, AllDigits, DigitChar, DigitOf;
    if t == [] {
      NoNumber();
    } else {
      assert t[0] == s[0] && |s| > 1;
      DigitsBefore(s);
      DecUnique(t, Number(t));
      NonZero(t);
    }
  }

  /** The decimal form of v is the one digit string without a leading zero that stands for v. */
  lemma DecIsUnique(s: string, v: nat)
    ensures s == Dec(v) <==> s != [] && AllDigits(s) && (s[0] == '0' ==> s == "0") && Number(s) == v
  {
    hide Dec, Number;
    if s == Dec(v) {
      DecNumber(v);
      DecCanonical(v);
    } else if s != [] && AllDigits(s) && (s[0] == '0' ==> s == "0") && Number(s) == v {
      DecUnique(s, v);
    }
  }

  lemma NoNumber()
    ensures AllDigits([]) && Number([]) == 0
  {}

  lemma DigitsBefore(s: string)
    requires s != [] && AllDigits(s)
    ensures AllDigits(s[..|s| - 1])
  {}

  lemma {:induction false} NonZero(s: string)
    requires s != [] && AllDigits(s) && s[0] != '0'
    ensures Number(s) > 0
    decreases |s|
  {
    if |s| > 1 {
      NonZero(s[..|s| - 1]);
    } else {
      assert s[..0] == [];
    }
  }

  lemma {:induction false} DecLength(v: nat, k: nat)
    requires k >= 1 && v < Pow10(k)
    ensures |Dec(v)| <= k
  {
    if v >= 10 {
      DecLength(v / 10, k - 1);
    }
  }

  /** A 64-bit value has at most 20 digits. */
  lemma TwentyDigits(v: nat)
    requires v < WORD64
    ensures |Dec(v)| <= 20
  {
    assert Pow10(4) == 10_000;
    assert Pow10(8) == 100_000_000;
    assert Pow10(12) == 1_000_000_000_000;
    assert Pow10(16) == 10_000_000_000_000_000;
    assert Pow10(20) == 100_000_000_000_000_000_000;
    DecLength(v, 20);
  }

  // ---------- Printing in groups of nine digits ----------

  lemma {:induction false} DecSplit(q: nat, r: nat, k: nat)
    requires q >= 1 && r < Pow10(k)
    ensures Dec(q * Pow10(k) + r) == Dec(q) + Padded(k, r)
  {
    if k > 0 {
      var t := q * Pow10(k - 1);
      Tenfold(q, Pow10(k - 1));
      DecSplit(q, r / 10, k - 1);
      DecTens(t, r);
      assert Dec(q) + Padded(k - 1, r / 10) + [DigitChar(r % 10)] == Dec(q) + (Padded(k - 1, r / 10) + [DigitChar(r % 10)]);
    }
  }

  lemma Tenfold(q: nat, p: nat)
    requires q >= 1 && p >= 1
    ensures q * (10 * p) == 10 * (q * p) && q * p >= 1
  {}

  lemma DecTens(t: nat, r: nat)
    requires t >= 1
    ensures Dec(10 * t + r) == Dec(t + r / 10) + [DigitChar(r % 10)]
  {
    var v := 10 * t + r;
    assert v / 10 == t + r / 10 && v % 10 == r % 10;
  }

  /** Groups of nine digits, the first to be written stored last. */
  function Groups(parts: seq<nat>): string {
    if parts == [] then [] else Padded(9, parts[|parts| - 1]) + Groups(parts[..|parts| - 1])
  }

  lemma NoGroups()
    ensures forall s: string :: s + Groups([]) == s
  {}

  lemma GroupsLast(s: string, last: string, parts: seq<nat>)
    requires parts != [] && last == Padded(9, parts[|parts| - 1])
    ensures s + Groups(parts) == s + last + Groups(parts[..|parts| - 1])
  {
    hide Padded, Groups;
    GroupsUnfold(parts);
    Associates(s, last, Groups(parts[..|parts| - 1]));
  }

  lemma GroupsUnfold(parts: seq<nat>)
    requires parts != []
    ensures Groups(parts) == Padded(9, parts[|parts| - 1]) + Groups(parts[..|parts| - 1])
  {
    hide Padded;
  }

  lemma Associates<X>(a: seq<X>, b: seq<X>, c: seq<X>)
    ensures a + (b + c) == a + b + c
  {}

  lemma Billion()
    ensures Pow10(9) == BILLION
  {
    assert Pow10(3) == 1000;
    assert Pow10(6) == 1000_000;
  }

  lemma GroupsNext(v0: nat, q: nat, r: nat, parts: seq<nat>)
    requires q >= 1 && r < BILLION && Dec(v0) == Dec(q * BILLION + r) + Groups(parts)
    ensures Dec(v0) == Dec(q) + Groups(parts + [r])
  {
    hide Dec, Padded, Pow10;
    Billion();
    DecSplit(q, r, 9);
    assert (parts + [r])[..|parts|] == parts;
  }

  /** The digits above the last. */
  function Front(h: nat): string {
    if h == 0 then [] else Dec(h)
  }

  lemma FrontNext(h: nat, c: char)
    requires h != 0 && c == DigitChar(h % 10)
    ensures Front(h) == Front(h / 10) + [c]
  {
    hide DigitChar;
  }

  lemma Carry(h: nat, tmp: string, c: char)
    requires h != 0 && c == DigitChar(h % 10)
    ensures Front(h) + Reversed(tmp) == Front(h / 10) + Reversed(tmp + [c])
  {
    hide Reversed, Front, DigitChar;
    ReversedNext(tmp, c);
    FrontNext(h, c);
    assert Front(h / 10) + [c] + Reversed(tmp) == Front(h / 10) + ([c] + Reversed(tmp));
  }

  lemma LastDigit(h: nat, tmp: string)
    requires tmp == [DigitChar(h % 10)]
    ensures Dec(h) == Front(h / 10) + Reversed(tmp)
  {
    assert Reversed(tmp) == tmp;
  }

  /** The digits of h, least significant first. */
  method DigitsBackwards(h0: nat) returns (tmp: string)
    ensures Reversed(tmp) == Dec(h0)
  {
    hide Dec, Reversed;
    tmp := [DigitChar(h0 % 10)];
    LastDigit(h0, tmp);
    var h: nat := h0 / 10;
    while h != 0
      invariant Dec(h0) == Front(h) + Reversed(tmp)
    {
      var c := DigitChar(h % 10);
      Carry(h, tmp, c);
      tmp := tmp + [c];
      h := h / 10;
    }
    assert Front(0) + Reversed(tmp) == Reversed(tmp);
  }

  method Reverse(s: string) returns (r: string)
    ensures r == Reversed(s)
  {
    r := [];
    var i := 0;
    while i < |s|
      invariant i <= |s| && Reversed(s) == Reversed(s[i..]) + r
    {
      assert s[i..][1..] == s[i + 1..];
      r := [s[i]] + r;
      i := i + 1;
    }
  }

  /** One group of nine digits, filled from its end. */
  method Nine(x0: nat) returns (s: string)
    ensures s == Padded(9, x0)
  {
    var buf := new char[9];
    var x, i := x0, 9;
    while i > 0
      invariant 0 <= i <= 9 && Padded(9, x0) == Padded(i, x) + buf[i..]
    {
      i := i - 1;
      buf[i] := DigitChar(x % 10);
      x := x / 10;
    }
    s := buf[..];
  }

  /** u64_to_dec: the decimal form, at most 20 digits long. */
  method U64ToDec(v0: nat) returns (tmp: string)
    requires v0 < WORD64
    ensures tmp == Dec(v0) && |tmp| <= 20
  {
    hide Dec, Reversed, Padded, Groups;
    NoGroups();
    var v: nat := v0;
    var parts: seq<nat> := [];
    while v >= BILLION
      invariant Dec(v0) == Dec(v) + Groups(parts)
      invariant |parts| <= 2 && (|parts| == 1 ==> v < 18446744074) && (|parts| == 2 ==> v < 19) && v < WORD64
    {
      var q: nat := v / BILLION;
      var r: nat := v - q * BILLION;
      GroupsNext(v0, q, r, parts);
      parts := parts + [r];
      v := q;
    }
    tmp := DigitsBackwards(v);
    tmp := Reverse(tmp);
    while |parts| > 0
      invariant Dec(v0) == tmp + Groups(parts)
    {
      var nine := Nine(parts[|parts| - 1]);
      GroupsLast(tmp, nine, parts);
      tmp := tmp + nine;
      parts := parts[..|parts| - 1];
    }
    TwentyDigits(v0);
  }

  // ---------- Parsing ----------

  /** How many digits s begins with. */
  function Run(s: string): (k: nat)
    ensures k <= |s| && AllDigits(s[..k]) && (k < |s| ==> !IsDigit(s[k]))
  {
    if s == [] || !IsDigit(s[0]) then 0 else 1 + Run(s[1..])
  }

  lemma {:induction false} RunUnique(s: string, k: nat)
    requires k <= |s| && AllDigits(s[..k]) && (k < |s| ==> !IsDigit(s[k]))
    ensures Run(s) == k
  {
    if k > 0 {
      assert s[..k][0] == s[0];
      assert s[1..][..k - 1] == s[..k][1..];
      RunUnique(s[1..], k - 1);
    }
  }

  /** The low 64 bits of n read as a signed number. */
  function ToInt64(n: int): (r: int)
    ensures 0 - I64 <= r < I64 && (r - n) % WORD64 == 0
  {
    var m := n % WORD64;
    if m >= I64 then m - WORD64 else m
  }

  /** parse_int_u64: the number the leading digits stand for, modulo 2^64. */
  method ParseIntU64(str: string) returns (result: nat)
    ensures result == Number(str[..Run(str)]) % WORD64
  {
    result := 0;
    var i := 0;
    while i < |str| && str[i] != '\0'
      invariant i <= |str| && AllDigits(str[0..i]) && result == Number(str[0..i]) % WORD64
    {
      var c := str[i];
      if !IsDigit(c) {
        break;
      }
      var digit := DigitOf(c);
      Accumulate(str, 0, i, result, digit);
      result := (result * 10 + digit) % WORD64;
      i := i + 1;
    }
    RunUnique(str, i);
  }

  lemma Horner(n: nat, d: nat)
    ensures (n % WORD64 * 10 + d) % WORD64 == (10 * n + d) % WORD64
  {
    var q := n / WORD64;
    assert 10 * n + d == (n % WORD64 * 10 + d) + WORD64 * (10 * q);
    ModMore(n % WORD64 * 10 + d, 10 * q);
  }

  lemma ModMore(x: int, k: int)
    ensures (x + WORD64 * k) % WORD64 == x % WORD64
  {}

  /** What parse_int64 makes of a text. */
  function Int64Of(s: string): int {
    if s != [] && s[0] == '-' then ToInt64(0 - Number(s[1..][..Run(s[1..])])) else ToInt64(Number(s[..Run(s)]))
  }

  lemma Accumulate(str: string, from: nat, i: nat, result: nat, digit: nat)
    requires from <= i < |str| && AllDigits(str[from..i]) && result == Number(str[from..i]) % WORD64
    requires IsDigit(str[i]) && digit == DigitOf(str[i])
    ensures AllDigits(str[from..i + 1]) && (result * 10 + digit) % WORD64 == Number(str[from..i + 1]) % WORD64
  {
    hide Number;
    Horner(Number(str[from..i]), digit);
    assert str[from..i + 1] == str[from..i] + [DigitChar(digit)];
    NumberNext(str[from..i], digit);
  }

  /** parse_int64. */
  method ParseInt64(str: string) returns (v: int)
    ensures v == Int64Of(str)
  {
    var result: nat := 0;
    var neg := false;
    var i := 0;
    ghost var from := if str != [] && str[0] == '-' then 1 else 0;
    while i < |str|
      invariant i <= |str| && (neg <==> from == 1 && i > 0) && (i == 0 ==> result == 0)
      invariant i > 0 ==> from <= i && AllDigits(str[from..i]) && result == Number(str[from..i]) % WORD64
    {
      var c := str[i];
      var digit: nat := 0;
      if i == 0 && c == '-' {
        neg := true;
      } else if '0' <= c <= '9' {
        digit := DigitOf(c);
      } else {
        break;
      }
      if from <= i {
        Accumulate(str, from, i, result, digit);
      }
      result := (result * 10 + digit) % WORD64;
      i := i + 1;
    }
    SliceFront(str, from, |str|, if i < from then 0 else i - from);
    assert str[from..] == str[from..|str|];
    RunUnique(str[from..], if i < from then 0 else i - from);
    v := if neg then ToInt64(0 - result) else ToInt64(result);
    SignedMod(Number(str[from..][..Run(str[from..])]));
  }

  lemma InRange(n: int)
    requires 0 - I64 <= n < I64
    ensures ToInt64(n) == n
  {
    if n < 0 {
      ModMore(n + WORD64, 0 - 1);
    }
  }

  lemma SignedMod(n: nat)
    ensures ToInt64(n % WORD64) == ToInt64(n) && ToInt64(0 - n % WORD64) == ToInt64(0 - n)
  {
    ModMore(0 - n % WORD64, 0 - n / WORD64);
  }

  // ---------- Printing and parsing agree ----------

  /** The text of a signed number as "%lli" prints it. */
  function Signed(n: int): (s: string)
    ensures s != []
  {
    if n < 0 then "-" + Dec(0 - n) else Dec(n)
  }

  /** The "%lli" branch of the formatter: magnitude computed without overflow, then the sign. */
  method FormatInt64(sv: int) returns (s: string)
    requires 0 - I64 <= sv < I64
    ensures s == Signed(sv) && |s| <= 21
  {
    var negative := sv < 0;
    var mag: nat := if negative then (0 - (sv + 1)) % WORD64 + 1 else sv;
    s := U64ToDec(mag);
    if negative {
      s := "-" + s;
    }
  }

  lemma AllRun(s: string)
    requires AllDigits(s)
    ensures s[..Run(s)] == s
  {
    assert s[..|s|] == s;
    RunUnique(s, |s|);
  }

  /** parse_int_u64 reads back what u64_to_dec writes. */
  lemma U64RoundTrip(v: nat)
    requires v < WORD64
    ensures Number(Dec(v)[..Run(Dec(v))]) % WORD64 == v
  {
    AllRun(Dec(v));
    DecNumber(v);
  }

  /** parse_int64 reads back every signed 64-bit number, the smallest included. */
  lemma Int64RoundTrip(n: int)
    requires 0 - I64 <= n < I64
    ensures Int64Of(Signed(n)) == n
  {
    hide ToInt64, Dec;
    InRange(n);
    var d := Dec(if n < 0 then 0 - n else n);
    AllRun(d);
    DecNumber(if n < 0 then 0 - n else n);
    if n < 0 {
      assert Signed(n)[1..] == d;
    } else {
      assert d[0] != '-';
    }
  }
}
