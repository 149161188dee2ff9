/** Text of 64-bit numbers in bases up to 16: printing, and parsing of hexadecimal. */
module NumberBases {
  import opened Basics
  import opened Bits

  function DigitChar(d: nat, upper: bool): char
    requires d < 16
  {
    if upper then "0123456789ABCDEF"[d] else "0123456789abcdef"[d]
  }

  lemma DivShrinks(v: nat, b: nat)
    requires b >= 2
    ensures v % b < b && (v >= b ==> v / b < v)
  {
    DivMod(v, b);
    MulMono(v / b, 2, b);
  }

  /** v in base b without leading zeros. */
  function Numeral(v: nat, b: nat, upper: bool): (s: string)
    requires 2 <= b <= 16
    ensures s != []
  {
    DivShrinks(v, b);
    (if v < b then [] else Numeral(v / b, b, upper)) + [DigitChar(v % b, upper)]
  }

  /** Nothing for 0, which is what comes before the first digit. */
  function Leading(v: nat, b: nat, upper: bool): string
    requires 2 <= b <= 16
  {
    if v == 0 then [] else Numeral(v, b, upper)
  }

  lemma LeadingNext(v: nat, b: nat, upper: bool)
    requires 2 <= b <= 16 && v > 0
    ensures Leading(v, b, upper) == Leading(v / b, b, upper) + [DigitChar(v % b, upper)]
  {
    hide DigitChar;
    if v < b {
      assert v / b == 0;
    }
  }

  /** Shifting further is dividing again. */
  lemma ShiftMore(v: nat, i: nat, k: nat)
    ensures Shr(v, i + k) == Shr(v, i) / Pow2(k)
  {
    ShrIsDivision(v, i);
    ShrIsDivision(v, i + k);
    Pow2Add(i, k);
    DivDiv(v, Pow2(i), Pow2(k));
  }

  /** A multiple of k. */
  predicate OnGrid(i: int, k: nat) {
    k == 1 || (k == 3 && i % 3 == 0) || (k == 4 && i % 4 == 0)
  }

  lemma GridDown(i: int, k: nat)
    requires OnGrid(i, k) && i >= 0
    ensures OnGrid(i - k, k) && (i - k >= 0 || i - k == 0 - k)
  {
    if k == 3 {
      ThirdsDown(i);
    } else if k == 4 {
      QuartersDown(i);
    }
  }

  lemma ThirdsDown(i: nat)
    requires i % 3 == 0
    ensures (i - 3) % 3 == 0 && (i == 0 || i >= 3)
  {
  }

  lemma QuartersDown(i: nat)
    requires i % 4 == 0
    ensures (i - 4) % 4 == 0 && (i == 0 || i >= 4)
  {
  }

  /** Emit k bits at a time from the top, without the leading zeros. */
  method EmitShifted(v: nat, top: nat, k: nat, upper: bool) returns (tmp: string)
    requires v < WORD64 && (k == 1 || k == 3 || k == 4) && v < Pow2(top + k) && OnGrid(top, k)
    ensures tmp == Numeral(v, Pow2(k), upper)
  {
    hide Numeral, Shr, Mask, DigitChar, OnGrid;
    assert Pow2(1) == 2 && Pow2(3) == 8 && Pow2(4) == 16;
    tmp := [];
    var started := false;
    var i: int := top;
    ghost var w: nat := Shr(v, top + k);
    AllShiftedOut(v, top + k);
    while i >= 0
      invariant 0 - k <= i <= top && (i >= 0 || i == 0 - k) && OnGrid(i, k)
      invariant w == Shr(v, i + k) && started == (w != 0) && tmp == Leading(w, Pow2(k), upper)
      decreases i + k
    {
      var nib := Mask(Shr(v, i), k);
      ghost var next := Shr(v, i);
      MaskIsRemainder(next, k);
      ShiftMore(v, i, k);
      if !started && nib == 0 {
        ZeroDigit(next, Pow2(k));
      } else {
        started := true;
        SomeDigit(next, Pow2(k));
        LeadingNext(next, Pow2(k), upper);
        tmp := tmp + [DigitChar(nib, upper)];
      }
      w := next;
      GridDown(i, k);
      i := i - k;
    }
    NothingShifted(v);
    if tmp == [] {
      tmp := ['0'];
      ZeroNumeral(Pow2(k), upper);
    }
  }

  lemma ZeroDigit(v: nat, b: nat)
    requires b >= 2 && v % b == 0 && v / b == 0
    ensures v == 0
  {
    DivMod(v, b);
  }

  lemma SomeDigit(v: nat, b: nat)
    requires b >= 2 && (v % b != 0 || v / b != 0)
    ensures v > 0
  {
  }

  lemma AllShiftedOut(v: nat, i: nat)
    requires v < Pow2(i)
    ensures Shr(v, i) == 0
  {
    ShrIsDivision(v, i);
    DivUnique(v, Pow2(i), 0, 0);
  }

  lemma NothingShifted(v: nat)
    ensures Shr(v, 0) == v
  {
  }

  lemma ZeroNumeral(b: nat, upper: bool)
    requires 2 <= b <= 16
    ensures Numeral(0, b, upper) == ['0'] && Leading(0, b, upper) == []
    ensures forall v: nat :: v > 0 ==> Leading(v, b, upper) != []
  {
  }

  lemma HalfBelow(v: nat, b: nat, n: nat)
    requires b >= 2 && n < 64 && v < Pow2(64 - n)
    ensures v / b < Pow2(64 - n - 1)
  {
    DivMod(v, b);
    MulMono(v / b, 2, b);
    assert Pow2(64 - n) == 2 * Pow2(64 - n - 1);
  }

  function LastDigit(v: nat, b: nat): nat
    requires b >= 2
  {
    v % b
  }

  function Rest(v: nat, b: nat): nat
    requires b >= 2
  {
    v / b
  }

  lemma SmallRest(v: nat, b: nat)
    requires v < b
    ensures v / b == 0 && v % b == v
  {}

  /** Dividing takes a bit off at least, and ends at zero. */
  lemma RestBelow(v: nat, b: nat, n: nat)
    requires b >= 2 && n < 64 && v < Pow2(64 - n)
    ensures Rest(v, b) < Pow2(64 - n - 1) && LastDigit(v, b) < b
    ensures if v == 0 then LastDigit(v, b) == Rest(v, b) == 0 else Rest(v, b) < v
  {
    hide Pow2;
    HalfBelow(v, b, n);
    DivShrinks(v, b);
    if v < b {
      SmallRest(v, b);
    }
  }

  /** The last digit changes sides. */
  lemma DigitMoves(v: nat, b: nat, tmp: string, all: string)
    requires 2 <= b <= 16 && v > 0 && Leading(v, b, false) + Reversed(tmp) == all && LastDigit(v, b) < b
    ensures Leading(Rest(v, b), b, false) + Reversed(tmp + [DigitChar(LastDigit(v, b), false)]) == all
  {
    hide Leading, Reversed;
    var c := DigitChar(v % b, false);
    LeadingNext(v, b, false);
    ReversedNext(tmp, c);
    assert Leading(v / b, b, false) + ([c] + Reversed(tmp)) == Leading(v / b, b, false) + [c] + Reversed(tmp);
  }

  lemma OnlyZero(b: nat)
    requires 2 <= b <= 16
    ensures Numeral(0, b, false) == ['0'] == [DigitChar(0, false)] && Leading(0, b, false) == []
    ensures Reversed<char>([]) == [] && Reversed([DigitChar(0, false)]) == [DigitChar(0, false)]
  {
  }

  lemma NumeralLeads(v: nat, b: nat)
    requires 2 <= b <= 16
    ensures v > 0 ==> Leading(v, b, false) == Numeral(v, b, false)
  {
  }

  lemma BelowOne(v: nat, n: nat)
    requires v < Pow2(n) && v > 0
    ensures n > 0
  {
  }

  /** Digits from the last one, at most 65, then reversed. */
  method EmitDivided(v0: nat, b: nat) returns (tmp: string)
    requires v0 < WORD64 && 2 <= b <= 16
    ensures tmp == Numeral(v0, b, false)
  {
    hide Numeral, Leading, LastDigit, Rest, Pow2, DigitChar, Reversed;
    Pow2Values();
    OnlyZero(b);
    NumeralLeads(v0, b);
    var v: nat := v0;
    tmp := [];
    while true
      invariant |tmp| <= 63 && v < Pow2(64 - |tmp|) && (v == 0 <==> v0 == 0) && (v0 == 0 ==> tmp == [])
      invariant v0 > 0 ==> Leading(v, b, false) + Reversed(tmp) == Numeral(v0, b, false)
      decreases v
    {
      RestBelow(v, b, |tmp|);
      var c := DigitChar(LastDigit(v, b), false);
      if v > 0 {
        DigitMoves(v, b, tmp, Numeral(v0, b, false));
      }
      tmp := tmp + [c];
      assert v0 == 0 ==> tmp == [c];
      v := Rest(v, b);
      if !(v != 0 && |tmp| < 65) {
        break;
      }
      BelowOne(v, 64 - |tmp|);
    }
    assert v0 > 0 ==> Leading(v, b, false) + Reversed(tmp) == Reversed(tmp);
    tmp := Reversed(tmp);
  }

  lemma TopShifts()
    ensures Pow2(64) == WORD64 <= Pow2(66)
  {
    Pow2Values();
    assert Pow2(66) == 4 * Pow2(64);
  }

  /** The numeral of v, in capitals only in base 16. */
  method U64ToBase(v: nat, base: nat, upper: bool) returns (tmp: string)
    requires v < WORD64 && 2 <= base <= 16
    ensures tmp == Numeral(v, base, upper && base == 16)
  {
    hide Numeral;
    TopShifts();
    if base == 16 {
      tmp := EmitShifted(v, 60, 4, upper);
    } else if base == 8 {
      tmp := EmitShifted(v, 63, 3, false);
    } else if base == 2 {
      tmp := EmitShifted(v, 63, 1, false);
    } else {
      tmp := EmitDivided(v, base);
    }
  }

  // ----- parsing

  function HexDigit(c: char): (d: nat)
    requires IsHex(c)
    ensures d < 16
  {
    if c <= '9' then c as nat - '0' as nat
    else if 'a' <= c then c as nat - 'a' as nat + 10
    else c as nat - 'A' as nat + 10
  }

  /** The digits in either case and their values. */
  lemma HexDigitValues(d: nat)
    requires d < 16
    ensures HexDigit("0123456789abcdef"[d]) == HexDigit("0123456789ABCDEF"[d]) == d
    ensures DigitChar(d, false) == "0123456789abcdef"[d] && DigitChar(d, true) == "0123456789ABCDEF"[d]
    ensures forall c :: IsHex(c) <==> c in "0123456789abcdefABCDEF"
  {}

  predicate AllHex(s: string) {
    forall i :: 0 <= i < |s| ==> IsHex(s[i])
  }

  /** The number some digits stand for in base b. */
  function NumberIn(s: string, b: nat): nat
    requires AllHex(s)
  {
    if s == [] then 0 else b * NumberIn(s[..|s| - 1], b) + HexDigit(s[|s| - 1])
  }

  /** How many characters of the prefixes `#`, `0x` and their like the text starts with. */
  function PrefixLength(s: string): (n: nat)
    ensures n <= |s|
  {
    if |s| >= 2 && (s[0] == '#' || IsHex(s[0])) && (s[1] == 'x' || s[1] == 'X') then 2
    else if |s| >= 1 && s[0] == '#' then 1
    else 0
  }

  /** The end of the digits that start at i. */
  function DigitsEnd(s: string, i: nat): (e: nat)
    requires i <= |s|
    ensures i <= e <= |s| && AllHex(s[i..e]) && (e < |s| ==> !IsHex(s[e]))
    decreases |s| - i
  {
    if i < |s| && IsHex(s[i]) then
      var e := DigitsEnd(s, i + 1);
      assert s[i..e] == [s[i]] + s[i + 1..e];
      e
    else i
  }

  lemma {:induction false} DigitsGoOn(s: string, i: nat, j: nat)
    requires i <= j <= |s| && AllHex(s[i..j])
    ensures DigitsEnd(s, i) == DigitsEnd(s, j)
    decreases j - i
  {
    if i < j {
      assert s[i] == s[i..j][0];
      assert s[i + 1..j] == s[i..j][1..];
      DigitsGoOn(s, i + 1, j);
    }
  }

  lemma HexNext(s: string, i: nat, j: nat, result: nat, digit: nat)
    requires i <= j < |s| && AllHex(s[i..j]) && IsHex(s[j]) && digit == HexDigit(s[j])
    requires result == NumberIn(s[i..j], 16) % WORD64
    ensures AllHex(s[i..j + 1]) && Or(Shl(result, 4) % WORD64, digit) == NumberIn(s[i..j + 1], 16) % WORD64
  {
    hide Or, Shl, HexDigit;
    var t := s[i..j + 1];
    assert t[..|t| - 1] == s[i..j] && t == s[i..j] + [s[j]];
    var n := NumberIn(s[i..j], 16);
    ShlIsProduct(result, 4);
    assert Pow2(4) == 16;
    WrapSteps(n, result, digit);
    var r := result * 16 % WORD64;
    OrSwap(digit, r / 16, 4, r);
  }

  lemma WrapSteps(n: nat, result: nat, digit: nat)
    requires result == n % WORD64 && digit < 16
    ensures result * 16 % WORD64 % 16 == 0 && result * 16 % WORD64 / 16 * 16 == result * 16 % WORD64
    ensures result * 16 % WORD64 + digit == (16 * n + digit) % WORD64
  {
    var q := n / WORD64;
    assert n == WORD64 * q + result;
    var p := result * 16 / WORD64;
    var r := result * 16 % WORD64;
    assert result * 16 == WORD64 * p + r;
    assert r % 16 == 0;
    assert 16 * n + digit == WORD64 * (16 * q + p) + (r + digit);
    assert r + digit < WORD64;
    DivUnique(16 * n + digit, WORD64, 16 * q + p, WORD64 * (16 * q + p));
    DivMod(16 * n + digit, WORD64);
  }

  /** What a text parses as: the number after its prefix, in 64 bits. */
  function ParsedHex(s: string): nat {
    NumberIn(s[PrefixLength(s)..DigitsEnd(s, PrefixLength(s))], 16) % WORD64
  }

  method ParseHexU64(str: string) returns (result: nat)
    ensures result == ParsedHex(str)
  {
    hide Or, Shl, NumberIn, HexDigit;
    ghost var p := PrefixLength(str);
    result := 0;
    NoDigits(str, p);
    var i: nat := 0;
    while i < |str|
      invariant i <= |str| && result < WORD64 && (i == 0 ==> result == 0)
      invariant i == 1 ==> str[0] == '#' || IsHex(str[0])
      invariant i == 1 && p == 1 ==> result == 0
      invariant p <= i ==> AllHex(str[p..i]) && result == NumberIn(str[p..i], 16) % WORD64
    {
      var c := str[i];
      var digit := 0;
      if i == 1 && (c == 'x' || c == 'X') {
        result := 0;
      } else if i == 0 && c == '#' {
        result := 0;
      } else if IsHex(c) {
        digit := HexDigit(c);
        if p <= i {
          HexNext(str, p, i, result, digit);
        }
      } else {
        break;
      }
      StaysInWord(result, digit);
      result := Or(Shl(result, 4) % WORD64, digit);
      i := i + 1;
    }
    DigitsGoOn(str, p, i);
  }

  lemma StaysInWord(result: nat, digit: nat)
    requires digit < 16
    ensures Or(Shl(result, 4) % WORD64, digit) < WORD64
    ensures result == 0 && digit == 0 ==> Or(Shl(result, 4) % WORD64, digit) == 0
  {
    hide Or, Shl, Pow2;
    ShlIsProduct(0, 4);
    OrNothing(0);
    Pow2Values();
    OrBelow(Shl(result, 4) % WORD64, digit, 64);
  }

  lemma NoDigits(s: string, p: nat)
    requires p <= |s|
    ensures AllHex(s[p..p]) && NumberIn(s[p..p], 16) == 0
  {
  }

  /** The first b digits, letters in one case. */
  function DigitsOf(b: nat, upper: bool): string
    requires b <= 16
  {
    if upper then "0123456789ABCDEF"[..b] else "0123456789abcdef"[..b]
  }

  lemma DigitIs(d: nat, b: nat, upper: bool)
    requires d < b <= 16
    ensures DigitChar(d, upper) in DigitsOf(b, upper)
    ensures IsHex(DigitChar(d, upper)) && HexDigit(DigitChar(d, upper)) == d
    ensures DigitChar(d, upper) == '0' <==> d == 0
  {
    assert DigitChar(d, upper) == DigitsOf(b, upper)[d];
  }

  lemma DivPositive(v: nat, b: nat)
    requires v >= b >= 2
    ensures v / b > 0
  {}

  lemma NothingIn(b: nat)
    ensures AllHex([]) && NumberIn([], b) == 0
  {}

  lemma NumberNext(s: string, c: char, b: nat)
    requires AllHex(s) && IsHex(c)
    ensures AllHex(s + [c]) && NumberIn(s + [c], b) == b * NumberIn(s, b) + HexDigit(c)
  {
    hide IsHex, HexDigit;
    assert (s + [c])[..|s|] == s;
  }

  /** The numeral has digits of the base only, stands for v and has no leading zeros. */
  lemma {:induction false} NumeralStands(v: nat, b: nat, upper: bool)
    requires 2 <= b <= 16
    ensures var n := Numeral(v, b, upper); AllHex(n) && NumberIn(n, b) == v && if v == 0 then n == "0" else n[0] != '0'
    ensures forall c :: c in Numeral(v, b, upper) ==> c in DigitsOf(b, upper)
  {
    hide DigitChar, HexDigit, IsHex, DigitsOf, NumberIn;
    var s, c := Numeral(v, b, upper), DigitChar(v % b, upper);
    DivShrinks(v, b);
    DivMod(v, b);
    DigitIs(v % b, b, upper);
    if v < b {
      assert s == [] + [c];
      NumberNext([], c, b);
      NothingIn(b);
    } else {
      var front := Numeral(v / b, b, upper);
      NumeralStands(v / b, b, upper);
      DivPositive(v, b);
      NumberNext(front, c, b);
      assert s == front + [c] && s[0] == front[0];
    }
  }

  lemma PrefixBefore(prefix: string, digits: string, rest: string)
    requires prefix in {"", "#"} || (|prefix| == 2 && prefix[0] in "#0123456789abcdefABCDEF" && prefix[1] in "xX")
    requires AllHex(digits) && (rest != [] ==> !IsHex(rest[0]))
    requires |prefix| + |digits| == 1 && rest != [] ==> rest[0] !in "xX"
    requires |prefix| + |digits| == 0 && rest != [] ==> rest[0] != '#'
    ensures PrefixLength(prefix + (digits + rest)) == |prefix|
  {
    hide PrefixLength;
    var t := digits + rest;
    if |digits| > 1 {
      assert t[0] == digits[0] && t[1] == digits[1] && IsHex(t[0]) && IsHex(t[1]);
    } else if |digits| == 1 {
      assert t[0] == digits[0] && IsHex(t[0]) && (|t| > 1 ==> t[1] == rest[0]);
    } else {
      assert t == rest;
    }
    PrefixIs(prefix, t);
  }

  lemma PrefixIs(prefix: string, rest: string)
    requires prefix in {"", "#"} || (|prefix| == 2 && prefix[0] in "#0123456789abcdefABCDEF" && prefix[1] in "xX")
    requires |prefix| == 1 && rest != [] ==> rest[0] !in "xX"
    requires |prefix| == 0 && rest != [] ==> rest[0] != '#' && (|rest| > 1 && IsHex(rest[0]) ==> rest[1] !in "xX")
    ensures PrefixLength(prefix + rest) == |prefix|
  {
    var s := prefix + rest;
    if |prefix| == 2 {
      assert s[0] == prefix[0] && s[1] == prefix[1];
    } else if |prefix| == 1 {
      assert s[0] == '#' && (rest != [] ==> s[1] == rest[0]);
    } else {
      assert s == rest;
    }
  }

  lemma DigitsStop(s: string, e: nat)
    requires e <= |s| && (e < |s| ==> !IsHex(s[e]))
    ensures DigitsEnd(s, e) == e
  {}

  lemma Parts(prefix: string, digits: string, rest: string)
    ensures var s, p, e := prefix + (digits + rest), |prefix|, |prefix| + |digits|;
      prefix + digits + rest == s && s[p..e] == digits && (e < |s| ==> s[e] == rest[0])
  {}

  lemma ParsedAs(s: string, p: nat, e: nat)
    requires p <= e <= |s| && PrefixLength(s) == p && DigitsEnd(s, p) == e
    ensures ParsedHex(s) == NumberIn(s[p..e], 16) % WORD64
  {}

  /** A text is a prefix, digits and a rest: it parses as the number of its digits, in 64 bits. */
  lemma ParsesDigits(prefix: string, digits: string, rest: string)
    requires prefix in {"", "#"} || (|prefix| == 2 && prefix[0] in "#0123456789abcdefABCDEF" && prefix[1] in "xX")
    requires AllHex(digits) && (rest != [] ==> !IsHex(rest[0]))
    // Neither the digits nor the rest go on with what would belong to the prefix.
    requires |prefix| + |digits| == 1 && rest != [] ==> rest[0] !in "xX"
    requires |prefix| + |digits| == 0 && rest != [] ==> rest[0] != '#'
    ensures ParsedHex(prefix + digits + rest) == NumberIn(digits, 16) % WORD64
  {
    hide NumberIn, PrefixLength, DigitsEnd, IsHex, ParsedHex;
    var s, p, e := prefix + (digits + rest), |prefix|, |prefix| + |digits|;
    Parts(prefix, digits, rest);
    PrefixBefore(prefix, digits, rest);
    DigitsGoOn(s, p, e);
    DigitsStop(s, e);
    ParsedAs(s, p, e);
  }

  /** A number printed in base 16, with or without a prefix, parses back. */
  lemma HexRoundTrip(v: nat, upper: bool, prefix: string)
    requires v < WORD64 && prefix in {"", "#", "0x", "0X", "#x"}
    ensures ParsedHex(prefix + Numeral(v, 16, upper)) == v
  {
    hide Numeral, NumberIn, ParsedHex;
    var t := Numeral(v, 16, upper);
    NumeralStands(v, 16, upper);
    ParsesDigits(prefix, t, []);
    assert prefix + t + [] == prefix + t;
  }
}
