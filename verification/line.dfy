/** The line rasteriser. */
module Line {
  import opened Bits
  import opened Divisors

  /** The 32-bit signed numbers. */
  const MAX_INT: int := 0x7fff_ffff
  const MIN_INT: int := 0 - 0x8000_0000

  datatype Pixel = Pixel(x: int, y: int)

  function Abs(a: int): nat {
    if a < 0 then 0 - a else a
  }

  function Max(a: nat, b: nat): nat {
    if a > b then a else b
  }

  /** Division truncates towards zero. */
  function Half(a: int): int {
    if a < 0 then 0 - (0 - a) / 2 else a / 2
  }

  /** i steps from one coordinate towards another. */
  function Walk(from: int, to: int, i: int): int {
    if from < to then from + i else from - i
  }

  /** After i steps in x and j in y, how far the point is off the line, times the line's longer extent. */
  function Offset(dx: nat, dy: nat, i: int, j: int): int {
    dx * j - dy * i
  }

  /** Where i steps in x and j in y lead. */
  function At(x0: int, y0: int, x1: int, y1: int, i: int, j: int): Pixel {
    Pixel(Walk(x0, x1, i), Walk(y0, y1, j))
  }

  function Longer(dx: nat, dy: nat, i: nat, j: nat): nat {
    if dx > dy then i else j
  }

  /**
   * The point after i and j steps is inside the box, and half a pixel off the line at most; of two points
   * exactly half a pixel off, it is the one behind the line. This leaves one point for every round.
   */
  ghost predicate Tracks(dx: nat, dy: nat, i: nat, j: nat) {
    && i <= dx && j <= dy
    && var d := 2 * (dx * j - dy * i);
       if dx > dy then 0 - dx <= d < dx else 0 - dy < d <= dy || dy == 0 == d
  }

  /** Two points of one round that track the line are the same. */
  lemma OnePoint(dx: nat, dy: nat, i: nat, j: nat, k: nat, l: nat)
    requires Tracks(dx, dy, i, j) && Tracks(dx, dy, k, l) && Longer(dx, dy, i, j) == Longer(dx, dy, k, l)
    ensures i == k && j == l
  {
    if dx > dy {
      Nearby(dx, j, l, dy * i);
    } else if dy > 0 {
      Nearby(dy, i, k, dx * j);
    }
  }

  /** Multiples of a within half of a of one place, with one end of the range left out, are the same. */
  lemma Nearby(a: nat, j: nat, l: nat, at: int)
    requires a > 0 && 0 - a - a < 2 * (a * j - at) - 2 * (a * l - at) < a + a
    ensures j == l
  {
    if j < l {
      MoreTimes(a, j, l);
    } else if l < j {
      MoreTimes(a, l, j);
    }
  }

  /** The error term is the offset from where it started, and stays within one step of the shorter direction. */
  ghost predicate ErrorOk(dx: nat, dy: nat, i: nat, j: nat, err: int) {
    i <= dx && j <= dy && err == Half(if dx > dy then dx else 0 - dy) + Offset(dx, dy, i, j) &&
    if dx > dy then 0 <= err < dx else 0 - dy < err <= 0 || dy == 0 == err
  }

  lemma OffsetSteps(dx: nat, dy: nat, i: int, j: int)
    ensures Offset(dx, dy, i + 1, j) == Offset(dx, dy, i, j) - dy
    ensures Offset(dx, dy, i, j + 1) == Offset(dx, dy, i, j) + dx
    ensures Offset(dx, dy, 0, 0) == 0
  {
  }

  lemma MoreTimes(a: nat, b: nat, j: nat)
    requires b < j
    ensures a * b + a <= a * j
  {
    Distribute(a, b, j - b);
    MulMono(a, 1, j - b);
  }

  lemma Slack(a: nat, b: nat, i: nat, j: nat, off: int)
    requires off == a * j - b * i && i <= a && 0 - a < off < a
    ensures j <= b && (i == a ==> j == b)
  {
    MulMono(b, i, a);
    if j > b {
      MoreTimes(a, b, j);
    } else if j < b {
      MoreTimes(a, j, b);
    }
  }

  lemma ErrorTracks(dx: nat, dy: nat, i: nat, j: nat, err: int)
    requires ErrorOk(dx, dy, i, j, err)
    ensures Tracks(dx, dy, i, j)
  {
    assert Offset(dx, dy, i, j) == dx * j - dy * i;
    hide Offset;
  }

  /** At the far end of the longer direction the shorter one has arrived too, and not earlier. */
  lemma Arrives(dx: nat, dy: nat, i: nat, j: nat, off: int)
    requires off == Offset(dx, dy, i, j)
    ensures dx > dy && i <= dx && 0 - dx < off < dx ==> j <= dy && (i == dx ==> j == dy)
    ensures dx <= dy && j <= dy && 0 - dy < off < dy ==> i <= dx && (j == dy ==> i == dx)
  {
    if dx > dy && i <= dx && 0 - dx < off < dx {
      Slack(dx, dy, i, j, off);
    }
    if dx <= dy && j <= dy && 0 - dy < off < dy {
      Slack(dy, dx, j, i, 0 - off);
    }
  }

  /** One round. */
  lemma ErrorNext(dx: nat, dy: nat, i: nat, j: nat, err: int, i': nat, j': nat, err': int)
    requires ErrorOk(dx, dy, i, j, err) && !(i == dx && j == dy)
    requires i' == (if err > 0 - dx then i + 1 else i) && j' == (if err < dy then j + 1 else j)
    requires err' == err - (if err > 0 - dx then dy else 0) + (if err < dy then dx else 0)
    ensures ErrorOk(dx, dy, i', j', err') && Longer(dx, dy, i', j') == Longer(dx, dy, i, j) + 1
  {
    hide Offset;
    OffsetSteps(dx, dy, i, j);
    OffsetSteps(dx, dy, i + 1, j);
    Arrives(dx, dy, i, j, Offset(dx, dy, i, j));
    Arrives(dx, dy, i', j', Offset(dx, dy, i', j'));
  }

  /** The pixel drawn in round t. */
  ghost predicate OnLine(x0: int, y0: int, x1: int, y1: int, t: nat, p: Pixel) {
    exists i: nat, j: nat {:trigger At(x0, y0, x1, y1, i, j)} ::
      p == At(x0, y0, x1, y1, i, j) && t == Longer(Abs(x0 - x1), Abs(y1 - y0), i, j) &&
      Tracks(Abs(x0 - x1), Abs(y1 - y0), i, j)
  }

  ghost predicate AllOnLine(x0: int, y0: int, x1: int, y1: int, pixels: seq<Pixel>) {
    forall t {:trigger pixels[t]} :: 0 <= t < |pixels| ==> OnLine(x0, y0, x1, y1, t, pixels[t])
  }

  lemma OneMorePixel(x0: int, y0: int, x1: int, y1: int, pixels: seq<Pixel>, i: nat, j: nat)
    requires AllOnLine(x0, y0, x1, y1, pixels) && |pixels| == Longer(Abs(x0 - x1), Abs(y1 - y0), i, j)
    requires Tracks(Abs(x0 - x1), Abs(y1 - y0), i, j)
    ensures AllOnLine(x0, y0, x1, y1, pixels + [At(x0, y0, x1, y1, i, j)])
  {
    assert OnLine(x0, y0, x1, y1, |pixels|, At(x0, y0, x1, y1, i, j));
  }

  // ----- how low the error term gets

  /** By how much the lowest error term before a step in x is above 0 - dx. */
  function Lift(dx: nat, dy: nat): (r: nat)
    requires 0 < dx
    ensures 0 < r <= Gcd(dx, dy)
  {
    Gcd(dx, dy) - dy / 2 % Gcd(dx, dy)
  }

  lemma LiftIsMultiple(dx: nat, dy: nat) returns (h: nat)
    requires 0 < dx
    ensures Lift(dx, dy) + dy / 2 == Gcd(dx, dy) * h
  {
    var g := Gcd(dx, dy);
    DivMod(dy / 2, g);
    h := 1 + dy / 2 / g;
    Distribute(g, 1, dy / 2 / g);
  }

  /** No error term at which a step in x is taken is lower. */
  lemma LowestBefore(dx: nat, dy: nat, i: nat, j: nat, err: int)
    requires 0 < dx <= dy && ErrorOk(dx, dy, i, j, err) && err > 0 - dx
    ensures err >= Lift(dx, dy) - dx
  {
    hide Gcd, Lift;
    var g := Gcd(dx, dy);
    var h := LiftIsMultiple(dx, dy);
    var p, q := Divides(dx, dy);
    Multiples(g, p, q, dx, dy, i, j);
    NotBelow(g, p * j - q * i + p, h, Lift(dx, dy), err + dx);
  }

  lemma NotBelow(g: nat, z: int, h: int, lift: nat, e: int)
    requires e == lift + (g * z - g * h) && 0 < e && lift <= g
    ensures e >= lift
  {
    if z < h {
      MoreTimesInt(g, z, h);
    } else if z > h {
      MoreTimesInt(g, h, z);
    }
  }

  lemma Multiples(g: nat, p: nat, q: nat, dx: nat, dy: nat, i: nat, j: nat)
    requires dx == g * p && dy == g * q
    ensures dx * j - dy * i + dx == g * (p * j - q * i + p)
  {
    assert g * p * j == g * (p * j) && g * q * i == g * (q * i);
    assert g * (p * j - q * i + p) == g * (p * j) - g * (q * i) + g * p;
  }

  lemma MoreTimesInt(g: nat, z: int, h: int)
    requires z < h
    ensures g * z + g <= g * h
  {
    DistributeInt(g, z, h - z);
    MulMono(g, 1, h - z);
  }

  lemma DistributeInt(a: int, x: int, y: int)
    ensures a * (x + y) == a * x + a * y
  {
  }

  /** The round in which the error term is that low. */
  lemma LowestRound(dx: nat, dy: nat) returns (t: nat, q: int)
    requires 0 < dx <= dy
    ensures t < dy && dx * t == Lift(dx, dy) + dy / 2 - dx + dy * q
  {
    hide Gcd, Lift;
    var h := LiftIsMultiple(dx, dy);
    var x, y := Bezout(dx, dy);
    var k: int, r: int := PositiveRest(x * h, dy);
    Turn(dx, dy, x, y, h, Gcd(dx, dy), k, r);
    t := r - 1;
    q := 0 - (y * h + dx * k);
  }

  lemma PositiveRest(u: int, dy: nat) returns (k: int, r: int)
    requires dy > 0
    ensures u == dy * k + r && 0 < r <= dy
  {
    k, r := u / dy, u % dy;
    if r == 0 {
      DistributeInt(dy, k, 0 - 1);
      k, r := k - 1, dy;
    }
  }

  lemma Turn(dx: nat, dy: nat, x: int, y: int, h: nat, g: nat, k: int, r: int)
    requires dx * x + dy * y == g && x * h == dy * k + r
    ensures dx * (r - 1) == g * h - dx + dy * (0 - (y * h + dx * k))
  {
    Scaled(dx, dy, x, y, h, g);
    Expand(dx, dy, k, r, x * h);
    DistributeInt(dy, y * h, dx * k);
    Negated(dy, y * h + dx * k);
    DistributeInt(dx, r, 0 - 1);
  }

  lemma Negated(a: int, b: int)
    ensures a * (0 - b) == 0 - a * b
  {
  }

  lemma Scaled(dx: nat, dy: nat, x: int, y: int, h: nat, g: nat)
    requires dx * x + dy * y == g
    ensures dx * (x * h) + dy * (y * h) == g * h
  {
    DistributeInt(h, dx * x, dy * y);
    Associate(dx, x, h);
    Associate(dy, y, h);
  }

  lemma Associate(a: int, b: int, c: int)
    ensures a * (b * c) == c * (a * b)
  {
  }

  lemma Expand(dx: nat, dy: nat, k: int, r: int, u: int)
    requires u == dy * k + r
    ensures dx * u == dy * (dx * k) + dx * r
  {
    DistributeInt(dx, dy * k, r);
    Associate(dy, dx, k);
    Associate(dx, dy, k);
    assert dy * dx == dx * dy;
  }

  lemma LowestThen(dx: nat, dy: nat, t: nat, q: int, i: nat, err: int)
    requires 0 < dx <= dy && t < dy && dx * t == Lift(dx, dy) + dy / 2 - dx + dy * q
    requires ErrorOk(dx, dy, i, t, err) && Lift(dx, dy) <= dx
    ensures err == Lift(dx, dy) - dx
  {
    var low := Lift(dx, dy) - dx;
    assert err == low + dy * (q - i) by {
      assert dy * (q - i) == dy * q - dy * i;
    }
    if q - i >= 1 {
      MoreTimesInt(dy, 0, q - i);
    } else if q - i <= 0 - 1 {
      MoreTimesInt(dy, q - i, 0);
    }
  }

  lemma LiftIsSmall(dx: nat, dy: nat)
    requires 0 < dx
    ensures Lift(dx, dy) <= dx
  {
    var p, q := Divides(dx, dy);
    if Gcd(dx, dy) > dx {
      if p > 0 {
        MulMono(Gcd(dx, dy), 1, p);
      }
    }
  }

  /** The lowest value the error term takes. */
  function Lowest(dx: nat, dy: nat): int {
    if 0 < dx <= dy then Lift(dx, dy) - dx - dy else 0 - dy
  }

  /** Exactly when the error term stays in 32 bits. */
  predicate ErrorFits(dx: nat, dy: nat) {
    0 < dx <= dy ==> dx + dy - Lift(dx, dy) <= 0x8000_0000
  }

  /** The error term in the middle of a round, after the step in x. */
  function AfterX(dx: nat, dy: nat, err: int): int {
    if err > 0 - dx then err - dy else err
  }

  /** The error term after n rounds of the loop. */
  function ErrorAt(dx: nat, dy: nat, n: nat): int {
    if n == 0 then Half(if dx > dy then dx else 0 - dy)
    else
      var err := ErrorAt(dx, dy, n - 1);
      AfterX(dx, dy, err) + if err < dy then dx else 0
  }

  /** Every value the error term takes in n rounds is between the bounds. */
  ghost predicate TermsWithin(dx: nat, dy: nat, n: nat, low: int, high: int) {
    forall k: nat :: k <= n ==>
      low <= ErrorAt(dx, dy, k) <= high && (k < n ==> low <= AfterX(dx, dy, ErrorAt(dx, dy, k)) <= high)
  }

  lemma TermsNext(dx: nat, dy: nat, n: nat, low: int, high: int, err: int)
    requires TermsWithin(dx, dy, n, low, high) && err == ErrorAt(dx, dy, n)
    requires low <= AfterX(dx, dy, err) <= high && low <= AfterX(dx, dy, err) + (if err < dy then dx else 0) <= high
    ensures TermsWithin(dx, dy, n + 1, low, high)
    ensures ErrorAt(dx, dy, n + 1) == AfterX(dx, dy, err) + if err < dy then dx else 0
  {
    hide AfterX, Half;
  }

  /** The error terms of one round lie between the bounds, and in the lowest round reach the lower one. */
  lemma RoundWithin(dx: nat, dy: nat, i: nat, j: nat, err: int)
    requires ErrorOk(dx, dy, i, j, err) && !(i == dx && j == dy)
    ensures err > 0 - dx ==> Lowest(dx, dy) <= err - dy <= Max(dx, dy)
    ensures Lowest(dx, dy) <= err <= Max(dx, dy)
  {
    hide Offset, Lift;
    if 0 < dx <= dy {
      LiftIsSmall(dx, dy);
      if err > 0 - dx {
        LowestBefore(dx, dy, i, j, err);
      }
    }
  }

  lemma FitsIff(dx: nat, dy: nat, n: nat, low: nat)
    requires dx <= MAX_INT && dy <= MAX_INT && TermsWithin(dx, dy, n, Lowest(dx, dy), Max(dx, dy))
    requires 0 < dx <= dy ==> low < n && AfterX(dx, dy, ErrorAt(dx, dy, low)) == Lowest(dx, dy)
    ensures TermsWithin(dx, dy, n, MIN_INT, MAX_INT) <==> ErrorFits(dx, dy)
  {
    hide AfterX, ErrorAt, Lift;
  }

  /** The longest diagonal: both differences fit, the error term does not. */
  lemma LongDiagonalDoesNotFit()
    ensures !ErrorFits(0x7fff_ffff, 0x7fff_ffff)
  {
    var d := 0x7fff_ffff;
    assert Gcd(d, d) == d by {
      assert d % d == 0;
    }
  }

  /** Differences that add up to no more than 2^31 always fit. */
  lemma ShortFits(dx: nat, dy: nat)
    requires dx + dy <= 0x8000_0000
    ensures ErrorFits(dx, dy)
  {
  }

  lemma LowestHere(dx: nat, dy: nat, low: nat, q: int, i: nat, err: int)
    requires 0 < dx <= dy && low < dy && dx * low == Lift(dx, dy) + dy / 2 - dx + dy * q
    requires ErrorOk(dx, dy, i, low, err)
    ensures err > 0 - dx && err - dy == Lowest(dx, dy)
  {
    LiftIsSmall(dx, dy);
    LowestThen(dx, dy, low, q, i, err);
  }

  lemma StartWithin(dx: nat, dy: nat, err: int)
    requires if dx > dy then 0 <= err <= dx else 0 - dy <= err <= 0
    ensures Lowest(dx, dy) <= err <= Max(dx, dy)
  {
    if 0 < dx <= dy {
      LiftIsSmall(dx, dy);
    }
  }

  lemma ErrorStarts(dx: nat, dy: nat)
    ensures ErrorOk(dx, dy, 0, 0, Half(if dx > dy then dx else 0 - dy))
    ensures ErrorAt(dx, dy, 0) == Half(if dx > dy then dx else 0 - dy)
    ensures TermsWithin(dx, dy, 0, Lowest(dx, dy), Max(dx, dy))
  {
    StartWithin(dx, dy, Half(if dx > dy then dx else 0 - dy));
  }

  lemma ErrorBounds(dx: nat, dy: nat, i: nat, j: nat, err: int)
    requires ErrorOk(dx, dy, i, j, err)
    ensures i <= dx && j <= dy && if dx > dy then 0 <= err <= dx else 0 - dy <= err <= 0
  {
  }

  /** Walking starts at one coordinate, moves by one, and is at the other after as many steps as they differ by. */
  lemma Walks(from: int, to: int, i: nat)
    ensures Walk(from, to, 0) == from && Walk(from, to, i + 1) == Walk(from, to, i) + if from < to then 1 else 0 - 1
    ensures Walk(from, to, i) == to <==> i == Abs(from - to)
    ensures Abs(from - to) == Abs(to - from) == if from < to then to - from else from - to
  {
  }

  lemma NoPixels(x0: int, y0: int, x1: int, y1: int)
    ensures AllOnLine(x0, y0, x1, y1, [])
  {
  }

  /** What holds after n rounds, i of them with a step in x and j with one in y; the error term is lowest in round low. */
  ghost predicate Underway(dx: nat, dy: nat, low: nat, n: nat, i: nat, j: nat, err: int) {
    && ErrorOk(dx, dy, i, j, err) && i <= dx && j <= dy && n == Longer(dx, dy, i, j)
    && err == ErrorAt(dx, dy, n) && TermsWithin(dx, dy, n, Lowest(dx, dy), Max(dx, dy))
    && (0 < dx <= dy ==> exists q: int {:trigger IsLowRound(dx, dy, low, q)} :: IsLowRound(dx, dy, low, q))
    && (0 < dx <= dy && low < n ==> AfterX(dx, dy, ErrorAt(dx, dy, low)) == Lowest(dx, dy))
  }

  ghost predicate IsLowRound(dx: nat, dy: nat, low: nat, q: int) {
    0 < dx <= dy && low < dy && dx * low == Lift(dx, dy) + dy / 2 - dx + dy * q
  }

  lemma Begins(dx: nat, dy: nat) returns (low: nat)
    ensures Underway(dx, dy, low, 0, 0, 0, Half(if dx > dy then dx else 0 - dy))
  {
    hide ErrorOk, Lift, TermsWithin, ErrorAt, Lowest, Half;
    low := 0;
    if 0 < dx <= dy {
      var q: int;
      low, q := LowestRound(dx, dy);
      assert IsLowRound(dx, dy, low, q);
    }
    ErrorStarts(dx, dy);
  }

  lemma GoesOn(dx: nat, dy: nat, low: nat, n: nat, i: nat, j: nat, e2: int, i': nat, j': nat, err: int)
    requires Underway(dx, dy, low, n, i, j, e2) && !(i == dx && j == dy)
    requires i' == (if e2 > 0 - dx then i + 1 else i) && j' == (if e2 < dy then j + 1 else j)
    requires err == e2 - (if e2 > 0 - dx then dy else 0) + (if e2 < dy then dx else 0)
    ensures Underway(dx, dy, low, n + 1, i', j', err)
  {
    hide ErrorOk, Lift, TermsWithin, ErrorAt, Lowest, Half;
    RoundWithin(dx, dy, i, j, e2);
    if 0 < dx <= dy && j == low {
      var q: int :| IsLowRound(dx, dy, low, q);
      LowestHere(dx, dy, low, q, i, e2);
    }
    ErrorNext(dx, dy, i, j, e2, i', j', err);
    ErrorBounds(dx, dy, i', j', err);
    StartWithin(dx, dy, err);
    TermsNext(dx, dy, n, Lowest(dx, dy), Max(dx, dy), e2);
  }

  lemma Rounds(dx: nat, dy: nat, low: nat, n: nat, i: nat, j: nat, err: int)
    requires Underway(dx, dy, low, n, i, j, err)
    ensures i <= dx && j <= dy && n == Longer(dx, dy, i, j) && Tracks(dx, dy, i, j)
    ensures i == dx && j == dy ==> n == Max(dx, dy)
    ensures !(i == dx && j == dy) ==> n < Max(dx, dy)
  {
    ErrorTracks(dx, dy, i, j, err);
    Arrives(dx, dy, i, j, Offset(dx, dy, i, j));
  }

  lemma Ends(dx: nat, dy: nat, low: nat, n: nat, i: nat, j: nat, err: int)
    requires Underway(dx, dy, low, n, i, j, err) && i == dx <= MAX_INT && j == dy <= MAX_INT
    ensures TermsWithin(dx, dy, n, MIN_INT, MAX_INT) <==> ErrorFits(dx, dy)
  {
    hide ErrorOk, Lift, TermsWithin, ErrorAt, Lowest, ErrorFits;
    FitsIff(dx, dy, n, low);
  }

  /**
   * The pixels the line is drawn with, in order. All values the error term takes on the way fit 32
   * bits, so that the computation is the one the code makes, exactly when ErrorFits holds.
   */
  method DrawLine(x0: int, y0: int, x1: int, y1: int) returns (pixels: seq<Pixel>)
    requires Abs(x0 - x1) <= MAX_INT && Abs(y1 - y0) <= MAX_INT
    ensures |pixels| == Max(Abs(x0 - x1), Abs(y1 - y0)) + 1
    ensures pixels[0] == Pixel(x0, y0) && pixels[|pixels| - 1] == Pixel(x1, y1)
    ensures AllOnLine(x0, y0, x1, y1, pixels)
    ensures TermsWithin(Abs(x0 - x1), Abs(y1 - y0), |pixels| - 1, MIN_INT, MAX_INT) <==> ErrorFits(Abs(x0 - x1), Abs(y1 - y0))
  {
    hide Offset, Tracks, Underway, AllOnLine, TermsWithin, ErrorFits, Gcd, Half, OnLine, Walk, Abs;
    var dx: int := Abs(x0 - x1);
    var sx := if x0 < x1 then 1 else 0 - 1;
    var dy: int := Abs(y1 - y0);
    var sy := if y0 < y1 then 1 else 0 - 1;
    var err := Half(if dx > dy then dx else 0 - dy);
    var x, y := x0, y0;
    pixels := [];
    ghost var i: nat, j: nat := 0, 0;
    ghost var low := Begins(dx, dy);
    NoPixels(x0, y0, x1, y1);
    Walks(x0, x1, i);
    Walks(y0, y1, j);
    while true
      invariant Pixel(x, y) == At(x0, y0, x1, y1, i, j)
      invariant Underway(dx, dy, low, |pixels|, i, j, err)
      invariant |pixels| > 0 ==> pixels[0] == Pixel(x0, y0)
      invariant |pixels| == 0 ==> i == j == 0
      invariant AllOnLine(x0, y0, x1, y1, pixels)
      decreases Max(dx, dy) - |pixels|
    {
      Rounds(dx, dy, low, |pixels|, i, j, err);
      OneMorePixel(x0, y0, x1, y1, pixels, i, j);
      Walks(x0, x1, i);
      Walks(y0, y1, j);
      pixels := pixels + [Pixel(x, y)];
      if x == x1 && y == y1 {
        break;
      }
      var e2 := err;
      ghost var a: nat, b: nat := i, j;
      if e2 > 0 - dx {
        err, x, i := err - dy, x + sx, i + 1;
      }
      if e2 < dy {
        err, y, j := err + dx, y + sy, j + 1;
      }
      GoesOn(dx, dy, low, |pixels| - 1, a, b, e2, i, j, err);
    }
    Ends(dx, dy, low, |pixels| - 1, i, j, err);
  }
}
