/** The list of dirty rectangles of a drawing context. */
module DirtyRects {
  import opened Basics

  const MAX_DIRTY_RECTS := 64
  const FULL_REDRAW_THRESHOLD_PCT := 35

  datatype Rect = Rect(x: nat, y: nat, w: nat, h: nat) {
    predicate Covers(px: nat, py: nat) {
      x <= px < x + w && y <= py < y + h
    }

    predicate Full() {
      w > 0 && h > 0
    }

    predicate Inside(width: nat, height: nat) {
      x + w <= width && y + h <= height
    }
  }

  type Pixel = (nat, nat)

  function Add32(a: nat, b: nat): nat {
    (a + b) % WORD32
  }

  /** The smallest rectangle around two. */
  function Merged(a: Rect, b: Rect): Rect {
    var x := if a.x < b.x then a.x else b.x;
    var y := if a.y < b.y then a.y else b.y;
    var x2 := if a.x + a.w > b.x + b.w then a.x + a.w else b.x + b.w;
    var y2 := if a.y + a.h > b.y + b.h then a.y + a.h else b.y + b.h;
    Rect(x, y, x2 - x, y2 - y)
  }

  /** A coordinate is stored as a signed number, and two stored coordinates are compared as such. */
  function Signed32(x: nat): int {
    if x < WORD32 / 2 then x else x - WORD32
  }

  /** Both or neither of two coordinates are below 2^31. */
  predicate SameHalf(a: nat, b: nat) {
    a < WORD32 / 2 <==> b < WORD32 / 2
  }

  /** The signed comparison is the one of the coordinates exactly in this case. */
  lemma SignedOrder(a: nat, b: nat)
    requires a < WORD32 && b < WORD32 && a != b
    ensures (Signed32(a) < Signed32(b) <==> a < b) <==> SameHalf(a, b)
  {
  }

  function Chosen(a: nat, b: nat): nat {
    if SameHalf(a, b) then if a < b then a else b else if a < b then b else a
  }

  /** r reaches to the far edges of both, and from the near ones if the coordinates are in the same half, else from the nearer one. */
  predicate Joined(a: Rect, b: Rect, r: Rect) {
    && r.x == Chosen(a.x, b.x) && r.y == Chosen(a.y, b.y)
    && r.x + r.w == Merged(a, b).x + Merged(a, b).w && r.y + r.h == Merged(a, b).y + Merged(a, b).h
  }

  lemma SignedChoice(a: nat, b: nat)
    requires a < WORD32 && b < WORD32
    ensures (if Signed32(a) < Signed32(b) then a else b) == Chosen(a, b)
  {
  }

  lemma JoinedIsMerged(a: Rect, b: Rect, r: Rect)
    requires Joined(a, b, r)
    ensures r == Merged(a, b) <==> SameHalf(a.x, b.x) && SameHalf(a.y, b.y)
  {
  }

  /** The far edges and the chosen near ones make a rectangle. */
  lemma JoinedFrom(a: Rect, b: Rect, r: Rect, maxX: nat, maxY: nat)
    requires maxX == (if a.x + a.w > b.x + b.w then a.x + a.w else b.x + b.w)
    requires maxY == (if a.y + a.h > b.y + b.h then a.y + a.h else b.y + b.h)
    requires r.x == Chosen(a.x, b.x) && r.y == Chosen(a.y, b.y) && r.x + r.w == maxX && r.y + r.h == maxY
    ensures Joined(a, b, r)
  {
  }

  lemma ChosenIsOne(a: nat, b: nat)
    ensures Chosen(a, b) == a || Chosen(a, b) == b
  {
  }

  /**
   * Two rectangles that share a pixel are joined, and become the smallest one around both exactly when
   * their coordinates are in the same half.
   */
  method TryMerge(a: Rect, b: Rect) returns (merged: bool, r: Rect)
    requires a.x + a.w < WORD32 && a.y + a.h < WORD32 && b.x + b.w < WORD32 && b.y + b.h < WORD32
    ensures if merged then Joined(a, b, r) else r == a
    ensures merged ==> (r == Merged(a, b) <==> SameHalf(a.x, b.x) && SameHalf(a.y, b.y))
    ensures a.Full() && b.Full() ==> (merged <==> ShareAPixel(a, b))
  {
    hide ShareAPixel, Joined, Chosen, Signed32, SameHalf, Merged;
    if a.Full() && b.Full() {
      SharedPixel(a, b);
    }
    SignedChoice(a.x, b.x);
    SignedChoice(a.y, b.y);
    ChosenIsOne(a.x, b.x);
    ChosenIsOne(a.y, b.y);
    var ax2, ay2, bx2, by2 := Add32(a.x, a.w), Add32(a.y, a.h), Add32(b.x, b.w), Add32(b.y, b.h);
    if a.x >= bx2 || b.x >= ax2 || a.y >= by2 || b.y >= ay2 {
      return false, a;
    }
    var minX := if Signed32(a.x) < Signed32(b.x) then a.x else b.x;
    var minY := if Signed32(a.y) < Signed32(b.y) then a.y else b.y;
    var maxX := if ax2 > bx2 then ax2 else bx2;
    var maxY := if ay2 > by2 then ay2 else by2;
    merged, r := true, Rect(minX, minY, maxX - minX, maxY - minY);
    JoinedFrom(a, b, r, maxX, maxY);
    JoinedIsMerged(a, b, r);
  }

  /** Across the middle of the 32-bit range the first pixel is lost. */
  method LostPixel() returns (merged: bool, r: Rect)
    ensures merged && Rect(0x7fff_ffff, 0, 2, 1).Covers(0x7fff_ffff, 0) && !r.Covers(0x7fff_ffff, 0)
  {
    var a, b := Rect(0x7fff_ffff, 0, 2, 1), Rect(0x8000_0000, 0, 1, 1);
    assert a.Covers(0x8000_0000, 0) && b.Covers(0x8000_0000, 0);
    merged, r := TryMerge(a, b);
  }

  ghost predicate ShareAPixel(a: Rect, b: Rect) {
    exists px, py :: a.Covers(px, py) && b.Covers(px, py)
  }

  lemma SharedPixel(a: Rect, b: Rect)
    requires a.Full() && b.Full()
    ensures ShareAPixel(a, b) <==> a.x < b.x + b.w && b.x < a.x + a.w && a.y < b.y + b.h && b.y < a.y + a.h
  {
    if a.x < b.x + b.w && b.x < a.x + a.w && a.y < b.y + b.h && b.y < a.y + a.h {
      var px := if a.x < b.x then b.x else a.x;
      var py := if a.y < b.y then b.y else a.y;
      assert a.Covers(px, py) && b.Covers(px, py);
    }
  }

  predicate Encloses(r: Rect, a: Rect) {
    r.x <= a.x && a.x + a.w <= r.x + r.w && r.y <= a.y && a.y + a.h <= r.y + r.h
  }

  /** Merging gives the smallest rectangle around both, so it stays on the screen and covers the pixels of both. */
  lemma MergedHolds(a: Rect, b: Rect, width: nat, height: nat)
    requires a.Inside(width, height) && b.Inside(width, height)
    ensures Merged(a, b).Inside(width, height)
    ensures a.Full() ==> Merged(a, b).Full()
    ensures forall r :: Encloses(r, a) && Encloses(r, b) <==> Encloses(r, Merged(a, b))
    ensures forall px, py :: a.Covers(px, py) || b.Covers(px, py) ==> Merged(a, b).Covers(px, py)
  {
  }

  /** A width clipped to the screen. */
  function Clip(x: nat, w: nat, width: nat): nat
    requires x <= width
  {
    if Add32(x, w) > width then width - x else w
  }

  /** Clipping keeps a rectangle on the screen exactly when its far edge does not wrap around. */
  lemma ClipFits(x: nat, w: nat, width: nat)
    requires x < width < WORD32 && w < WORD32
    ensures x + Clip(x, w, width) <= width <==> x + w < WORD32
    ensures x + w < WORD32 ==> x + Clip(x, w, width) == if x + w < width then x + w else width
  {
    if x + w >= WORD32 {
      assert (x + w) % WORD32 == x + w - WORD32;
    }
  }

  // ----- the list

  ghost predicate Covered(rs: seq<Rect>, px: nat, py: nat) {
    exists r :: r in rs && r.Covers(px, py)
  }

  ghost predicate AllInside(rs: seq<Rect>, width: nat, height: nat) {
    forall r :: r in rs ==> r.Inside(width, height) && r.Full()
  }

  /** us covers whatever rs covers. */
  ghost predicate CoversAll(us: seq<Rect>, rs: seq<Rect>) {
    forall px, py :: Covered(rs, px, py) ==> Covered(us, px, py)
  }

  lemma CoversAllTrans(a: seq<Rect>, b: seq<Rect>, c: seq<Rect>)
    requires CoversAll(a, b) && CoversAll(b, c)
    ensures CoversAll(a, c)
  {
  }

  /** No coordinate on the screen is past the middle of the 32-bit range. */
  predicate Small(width: nat, height: nat) {
    width <= WORD32 / 2 && height <= WORD32 / 2
  }

  lemma InsideAt(rs: seq<Rect>, i: nat, width: nat, height: nat)
    requires i < |rs| && AllInside(rs, width, height)
    ensures rs[i].Inside(width, height) && rs[i].Full()
  {
  }

  lemma JoinedInside(a: Rect, b: Rect, m: Rect, width: nat, height: nat)
    requires Joined(a, b, m) && a.Inside(width, height) && a.Full() && b.Inside(width, height) && b.Full()
    ensures m.Inside(width, height) && m.Full()
    ensures Small(width, height) ==> m == Merged(a, b)
  {
  }

  lemma MergedCovers(rs: seq<Rect>, i: nat, b: Rect, width: nat, height: nat)
    requires i < |rs| && AllInside(rs, width, height) && b.Inside(width, height) && b.Full()
    ensures CoversAll(rs[i := Merged(rs[i], b)], rs + [b])
  {
    var us := rs[i := Merged(rs[i], b)];
    MergedHolds(rs[i], b, width, height);
    assert us[i] in us;
    forall px, py | Covered(rs + [b], px, py) ensures Covered(us, px, py) {
      var r :| r in rs + [b] && r.Covers(px, py);
      if r != b && r != rs[i] {
        var k :| 0 <= k < |rs| && rs[k] == r;
        assert us[k] in us;
      } else {
        assert us[i].Covers(px, py);
      }
    }
  }

  lemma Appended(rs: seq<Rect>, b: Rect, width: nat, height: nat)
    requires AllInside(rs, width, height) && b.Inside(width, height) && b.Full()
    ensures AllInside(rs + [b], width, height)
  {
  }

  lemma CoversItself(rs: seq<Rect>)
    ensures CoversAll(rs, rs)
  {
  }

  // ----- entering rectangles one by one

  /** What becomes of a when it is joined with b. */
  function Join(a: Rect, b: Rect): (r: Rect)
    ensures Joined(a, b, r)
  {
    var m, x, y := Merged(a, b), Chosen(a.x, b.x), Chosen(a.y, b.y);
    Rect(x, y, m.x + m.w - x, m.y + m.h - y)
  }

  lemma JoinIs(a: Rect, b: Rect, m: Rect)
    requires Joined(a, b, m)
    ensures m == Join(a, b)
  {}

  /** r joins the first rectangle it shares a pixel with, or is appended. */
  ghost function Entered(rs: seq<Rect>, r: Rect): (us: seq<Rect>)
    ensures us != []
  {
    if rs == [] then [r]
    else if ShareAPixel(rs[0], r) then [Join(rs[0], r)] + rs[1..]
    else [rs[0]] + Entered(rs[1..], r)
  }

  /** The rectangles entered one after another into an empty list. */
  ghost function Compacted(rs: seq<Rect>): seq<Rect> {
    if rs == [] then [] else Entered(Compacted(rs[..|rs| - 1]), rs[|rs| - 1])
  }

  lemma {:induction false} EnteredAt(rs: seq<Rect>, r: Rect, i: nat)
    requires i <= |rs| && forall j :: 0 <= j < i ==> !ShareAPixel(rs[j], r)
    requires i < |rs| ==> ShareAPixel(rs[i], r)
    ensures Entered(rs, r) == if i < |rs| then rs[i := Join(rs[i], r)] else rs + [r]
  {
    if i > 0 {
      EnteredAt(rs[1..], r, i - 1);
    }
  }

  /** Where a rectangle is entered. */
  lemma {:induction false} Enters(rs: seq<Rect>, r: Rect) returns (i: nat)
    ensures i <= |rs| && (forall j :: 0 <= j < i ==> !ShareAPixel(rs[j], r)) && (i < |rs| ==> ShareAPixel(rs[i], r))
    ensures Entered(rs, r) == if i < |rs| then rs[i := Join(rs[i], r)] else rs + [r]
  {
    i := 0;
    while i < |rs| && !ShareAPixel(rs[i], r)
      invariant i <= |rs| && forall j :: 0 <= j < i ==> !ShareAPixel(rs[j], r)
    {
      i := i + 1;
    }
    EnteredAt(rs, r, i);
  }

  lemma EnteredHolds(rs: seq<Rect>, r: Rect, width: nat, height: nat)
    requires AllInside(rs, width, height) && r.Inside(width, height) && r.Full()
    ensures AllInside(Entered(rs, r), width, height) && |Entered(rs, r)| <= |rs| + 1
    ensures Small(width, height) ==> CoversAll(Entered(rs, r), rs + [r])
  {
    hide Entered, AllInside, CoversAll, ShareAPixel, Joined, Merged, Join;
    var i := Enters(rs, r);
    if i < |rs| {
      InsideAt(rs, i, width, height);
      JoinedInside(rs[i], r, Join(rs[i], r), width, height);
      Replaced(rs, i, Join(rs[i], r), width, height);
      if Small(width, height) {
        MergedCovers(rs, i, r, width, height);
      }
    } else {
      Appended(rs, r, width, height);
      CoversItself(rs + [r]);
    }
  }

  lemma Replaced(rs: seq<Rect>, i: nat, m: Rect, width: nat, height: nat)
    requires i < |rs| && AllInside(rs, width, height) && m.Inside(width, height) && m.Full()
    ensures AllInside(rs[i := m], width, height)
  {}

  lemma CoversMore(us: seq<Rect>, rs: seq<Rect>, r: Rect)
    requires CoversAll(us, rs)
    ensures CoversAll(us + [r], rs + [r])
  {
    forall px, py | Covered(rs + [r], px, py) ensures Covered(us + [r], px, py) {
      var a :| a in rs + [r] && a.Covers(px, py);
      assert r in us + [r];
      if a in rs {
        assert Covered(rs, px, py);
        var b :| b in us && b.Covers(px, py);
        assert b in us + [r];
      }
    }
  }

  /** Compacting keeps the rectangles on the screen and, on a small one, whatever they cover. */
  lemma {:induction false} CompactedHolds(rs: seq<Rect>, width: nat, height: nat)
    requires AllInside(rs, width, height)
    ensures AllInside(Compacted(rs), width, height) && |Compacted(rs)| <= |rs|
    ensures Small(width, height) ==> CoversAll(Compacted(rs), rs)
  {
    if rs == [] {
      CoversItself(rs);
    } else {
      hide Entered, CoversAll;
      var front, last := rs[..|rs| - 1], rs[|rs| - 1];
      InsideAt(rs, |rs| - 1, width, height);
      CompactedHolds(front, width, height);
      EnteredHolds(Compacted(front), last, width, height);
      if Small(width, height) {
        CoversMore(Compacted(front), front, last);
        assert front + [last] == rs;
        CoversAllTrans(Compacted(rs), Compacted(front) + [last], rs);
      }
    }
  }

  /** Every edge of u is one of a rectangle of rs that u encloses, so u is no larger than it has to be. */
  ghost predicate Tight(u: Rect, rs: seq<Rect>) {
    && (exists a :: a in rs && Encloses(u, a) && a.x == u.x)
    && (exists a :: a in rs && Encloses(u, a) && a.y == u.y)
    && (exists a :: a in rs && Encloses(u, a) && a.x + a.w == u.x + u.w)
    && (exists a :: a in rs && Encloses(u, a) && a.y + a.h == u.y + u.h)
  }

  lemma TightItself(rs: seq<Rect>, u: Rect)
    requires u in rs
    ensures Tight(u, rs)
  {
    assert Encloses(u, u);
  }

  lemma TightMore(u: Rect, rs: seq<Rect>, r: Rect)
    requires Tight(u, rs)
    ensures Tight(u, rs + [r])
  {
    forall a | a in rs ensures a in rs + [r] {}
  }

  lemma TightJoin(a: Rect, b: Rect, rs: seq<Rect>)
    requires Tight(a, rs) && Tight(b, rs)
    ensures Tight(Merged(a, b), rs)
  {
    var m := Merged(a, b);
    forall c | Encloses(a, c) || Encloses(b, c) ensures Encloses(m, c) {}
  }

  /** On a small screen no rectangle grows by more than compacting asks for. */
  lemma {:induction false} CompactedTight(rs: seq<Rect>, width: nat, height: nat)
    requires AllInside(rs, width, height) && Small(width, height)
    ensures forall u :: u in Compacted(rs) ==> Tight(u, rs)
  {
    if rs != [] {
      hide Entered, Tight, Join, Merged, ShareAPixel, AllInside;
      var front, last := rs[..|rs| - 1], rs[|rs| - 1];
      InsideFront(rs, width, height);
      CompactedHolds(front, width, height);
      CompactedTight(front, width, height);
      assert front + [last] == rs;
      var us := Compacted(front);
      forall u | u in us ensures Tight(u, rs) {
        TightMore(u, front, last);
      }
      TightItself(rs, last);
      var i := Enters(us, last);
      if i < |us| {
        InsideAt(us, i, width, height);
        InsideAt(rs, |rs| - 1, width, height);
        JoinedInside(us[i], last, Join(us[i], last), width, height);
        TightJoin(us[i], last, rs);
      }
    }
  }

  lemma InsideFront(rs: seq<Rect>, width: nat, height: nat)
    requires rs != [] && AllInside(rs, width, height)
    ensures AllInside(rs[..|rs| - 1], width, height)
  {}

  /** Compacting leaves alone exactly the lists in which no two rectangles share a pixel; all others get shorter. */
  lemma {:induction false} CompactedIff(rs: seq<Rect>)
    ensures |Compacted(rs)| <= |rs| && (Disjoint(rs) <==> Compacted(rs) == rs) && (Disjoint(rs) <==> |Compacted(rs)| == |rs|)
  {
    if rs != [] {
      hide Entered, ShareAPixel;
      var front, last := rs[..|rs| - 1], rs[|rs| - 1];
      CompactedIff(front);
      assert front + [last] == rs;
      var i := Enters(Compacted(front), last);
      if Disjoint(front) && i < |front| {
        assert !Disjoint(rs) by {
          assert ShareAPixel(rs[i], rs[|rs| - 1]);
        }
      }
    }
  }

  // ----- compacting in place

  /** The rectangles of rs entered one after another into us. */
  ghost function EnteredAll(us: seq<Rect>, rs: seq<Rect>): seq<Rect>
    decreases rs
  {
    if rs == [] then us else EnteredAll(Entered(us, rs[0]), rs[1..])
  }

  lemma {:induction false} CompactedOn(us: seq<Rect>, rs: seq<Rect>)
    ensures Compacted(us + rs) == EnteredAll(Compacted(us), rs)
    decreases rs
  {
    if rs == [] {
      assert us + rs == us;
    } else {
      var next := us + [rs[0]];
      assert next[..|next| - 1] == us;
      assert us + rs == next + rs[1..];
      CompactedOn(next, rs[1..]);
    }
  }

  /** A row begins: the first rectangle is still alone. */
  lemma RowBegins(rs: seq<Rect>)
    requires rs != []
    ensures Compacted(rs) == EnteredAll([rs[0]] + Compacted([]), rs[1..])
  {
    var one := [rs[0]];
    assert one[..0] == [] && one + rs[1..] == rs && one + Compacted([]) == one;
    CompactedOn(one, rs[1..]);
  }

  /** One comparison of a row: b joins its first rectangle a, or is kept for the rows to come. */
  lemma RowNext(a: Rect, kept: seq<Rect>, b: Rect, rest: seq<Rect>)
    ensures EnteredAll([a] + Compacted(kept), [b] + rest) ==
            if ShareAPixel(a, b) then EnteredAll([Join(a, b)] + Compacted(kept), rest)
            else EnteredAll([a] + Compacted(kept + [b]), rest)
  {
    var us := [a] + Compacted(kept);
    assert us[1..] == Compacted(kept) && ([b] + rest)[1..] == rest && (kept + [b])[..|kept|] == kept;
  }

  lemma RowEnds(rs: seq<Rect>, i: nat)
    requires i < |rs|
    ensures rs[|rs|..] == []
    ensures rs[..i] + EnteredAll([rs[i]] + Compacted(rs[i + 1..|rs|]), []) == rs[..i + 1] + Compacted(rs[i + 1..])
  {
    assert rs[i + 1..|rs|] == rs[i + 1..] && rs[..i + 1] == rs[..i] + [rs[i]];
  }

  lemma NothingLeft(rs: seq<Rect>, i: nat)
    requires i == |rs|
    ensures rs[..i] + Compacted(rs[i..]) == rs
  {
    assert rs[i..] == [] && rs[..i] == rs;
  }

  /** Rectangle i has become m, and j has left. */
  lemma AfterRemoval(now: seq<Rect>, i: nat, j: nat, m: Rect, us: seq<Rect>, width: nat, height: nat)
    requires i < j < |now| && us == now[i := m][..j] + now[i := m][j + 1..] && AllInside(now[i := m], width, height)
    ensures us[..i] == now[..i] && us[i] == m && us[i + 1..j] == now[i + 1..j] && us[j..] == now[j + 1..]
    ensures AllInside(us, width, height)
  {}

  /** The summed areas, in 64 bits. */
  function Area(rs: seq<Rect>): nat {
    if rs == [] then 0 else (Area(rs[..|rs| - 1]) + rs[|rs| - 1].w * rs[|rs| - 1].h) % WORD64
  }

  /** The rectangles add up to so much of the screen that all of it is to be redrawn. */
  predicate Mostly(rs: seq<Rect>, width: nat, height: nat) {
    Area(rs) * 100 % WORD64 >= width * height * FULL_REDRAW_THRESHOLD_PCT % WORD64
  }

  // ----- the measure in pixels

  ghost function Pixels(r: Rect): set<Pixel> {
    set px: nat, py: nat | r.x <= px < r.x + r.w && r.y <= py < r.y + r.h :: (px, py)
  }

  /** All pixels of the rectangles, each as often as it is covered. */
  ghost function Painted(rs: seq<Rect>): multiset<Pixel> {
    if rs == [] then multiset{} else Painted(rs[..|rs| - 1]) + multiset(Pixels(rs[|rs| - 1]))
  }

  ghost function CoveredPixels(rs: seq<Rect>): set<Pixel> {
    if rs == [] then {} else CoveredPixels(rs[..|rs| - 1]) + Pixels(rs[|rs| - 1])
  }

  lemma {:induction false} ColumnSize(x: nat, y: nat, h: nat)
    ensures |Pixels(Rect(x, y, 1, h))| == h
    decreases h
  {
    if h == 0 {
      assert Pixels(Rect(x, y, 1, h)) == {};
    } else {
      ColumnSize(x, y, h - 1);
      assert Pixels(Rect(x, y, 1, h)) == Pixels(Rect(x, y, 1, h - 1)) + {(x, y + h - 1)};
    }
  }

  lemma LastColumn(r: Rect, rest: Rect, column: Rect)
    requires r.w > 0 && rest == Rect(r.x, r.y, r.w - 1, r.h) && column == Rect(r.x + r.w - 1, r.y, 1, r.h)
    ensures Pixels(r) == Pixels(rest) + Pixels(column) && Pixels(rest) !! Pixels(column)
  {
    assert Pixels(r) == Pixels(rest) + Pixels(column);
  }

  lemma OneColumnMore(w: nat, h: nat)
    requires w > 0
    ensures w * h == (w - 1) * h + h
  {}

  /** A rectangle has as many pixels as its width times its height. */
  lemma {:induction false} PixelCount(r: Rect)
    ensures |Pixels(r)| == r.w * r.h
    decreases r.w
  {
    if r.w == 0 {
      assert Pixels(r) == {};
    } else {
      hide Pixels;
      var rest, column := Rect(r.x, r.y, r.w - 1, r.h), Rect(r.x + r.w - 1, r.y, 1, r.h);
      PixelCount(rest);
      ColumnSize(column.x, r.y, r.h);
      LastColumn(r, rest, column);
      OneColumnMore(r.w, r.h);
    }
  }

  /** The area is the number of pixels, each counted as often as it is covered. */
  lemma {:induction false} AreaCounts(rs: seq<Rect>)
    ensures Area(rs) == |Painted(rs)| % WORD64
  {
    if rs != [] {
      var last := rs[|rs| - 1];
      AreaCounts(rs[..|rs| - 1]);
      PixelCount(last);
      assert |multiset(Pixels(last))| == |Pixels(last)|;
      SumWraps(|Painted(rs[..|rs| - 1])|, last.w * last.h);
    }
  }

  lemma SumWraps(a: nat, b: nat)
    ensures (a % WORD64 + b) % WORD64 == (a + b) % WORD64
  {}

  ghost predicate Disjoint(rs: seq<Rect>) {
    forall i, j :: 0 <= i < j < |rs| ==> !ShareAPixel(rs[i], rs[j])
  }

  lemma {:induction false} CoveredIn(rs: seq<Rect>, p: Pixel)
    ensures p in CoveredPixels(rs) <==> Covered(rs, p.0, p.1)
  {
    if rs != [] {
      var front, last := rs[..|rs| - 1], rs[|rs| - 1];
      CoveredIn(front, p);
      assert rs == front + [last];
      assert p in Pixels(last) <==> last.Covers(p.0, p.1);
      assert Covered(rs, p.0, p.1) <==> Covered(front, p.0, p.1) || last.Covers(p.0, p.1) by {
        assert forall r :: r in rs <==> r in front || r == last;
      }
    }
  }

  /** Rectangles of which no two share a pixel cover as many pixels as they have. */
  lemma {:induction false} PaintedOnce(rs: seq<Rect>)
    requires Disjoint(rs)
    ensures |CoveredPixels(rs)| == |Painted(rs)|
  {
    if rs != [] {
      var front, last := rs[..|rs| - 1], rs[|rs| - 1];
      PaintedOnce(front);
      assert |multiset(Pixels(last))| == |Pixels(last)|;
      forall p | p in CoveredPixels(front) ensures p !in Pixels(last) {
        CoveredIn(front, p);
        var i :| 0 <= i < |front| && front[i].Covers(p.0, p.1);
        assert !ShareAPixel(rs[i], last);
        assert rs[i].Covers(p.0, p.1);
      }
      assert CoveredPixels(front) !! Pixels(last);
    }
  }

  /** With pixels counted as often as they are covered, and the products taken in 64 bits. */
  lemma MostlyCounts(rs: seq<Rect>, width: nat, height: nat)
    ensures Mostly(rs, width, height) <==> |Painted(rs)| % WORD64 * 100 % WORD64 >= width * height * 35 % WORD64
  {
    AreaCounts(rs);
  }

  lemma NoWrap(n: nat, area: nat)
    requires n * 100 < WORD64 && area < WORD64
    ensures n % WORD64 * 100 % WORD64 >= area % WORD64 <==> n * 100 >= area
  {}

  /** Without overlaps and wrap-around: 35 percent of the screen or more are covered. */
  lemma MostlyIff(rs: seq<Rect>, width: nat, height: nat)
    requires Disjoint(rs) && |CoveredPixels(rs)| * 100 < WORD64 && width * height * 35 < WORD64
    ensures Mostly(rs, width, height) <==> |CoveredPixels(rs)| * 100 >= width * height * 35
  {
    hide Mostly, Disjoint, CoveredPixels, Painted;
    MostlyCounts(rs, width, height);
    PaintedOnce(rs);
    NoWrap(|CoveredPixels(rs)|, width * height * 35);
  }

  /** There is no room for r and nothing for it to merge with. */
  ghost predicate Crowded(rs: seq<Rect>, r: Rect) {
    |rs| == MAX_DIRTY_RECTS && forall i :: 0 <= i < |rs| ==> !ShareAPixel(rs[i], r)
  }

  /** The part of a rectangle that is on the screen. */
  function Clipped(x: nat, y: nat, w: nat, h: nat, width: nat, height: nat): Rect
    requires x <= width && y <= height
  {
    Rect(x, y, Clip(x, w, width), Clip(y, h, height))
  }

  class DrawContext {
    const width: nat
    const height: nat
    const rects: array<Rect>
    var count: nat
    var full: bool
    /** The pixels on the screen marked so far. */
    ghost var marked: iset<Pixel>

    ghost function Stored(): seq<Rect>
      requires count <= rects.Length
      reads this, rects
    {
      rects[..count]
    }

    ghost predicate Shape()
      reads this, rects
    {
      width < WORD32 && height < WORD32 && count <= rects.Length == MAX_DIRTY_RECTS &&
      AllInside(Stored(), width, height)
    }

    /** On a small screen every marked pixel is in a stored rectangle, unless everything is to be redrawn. */
    ghost predicate Valid()
      reads this, rects
    {
      Shape() && (full || !Small(width, height) || forall px, py :: (px, py) in marked ==> Covered(Stored(), px, py))
    }

    constructor (width: nat, height: nat)
      requires width < WORD32 && height < WORD32
      ensures Valid() && fresh(rects) && marked == iset{} && count == 0 && !full
      ensures this.width == width && this.height == height
    {
      this.width := width;
      this.height := height;
      rects := new Rect[MAX_DIRTY_RECTS];
      count := 0;
      full := false;
      marked := iset{};
    }

    /** Move the rectangles after j down by one. */
    method RemoveAt(j: nat)
      requires count <= rects.Length && j < count
      modifies rects, `count
      ensures count == old(count) - 1 && Stored() == old(Stored()[..j] + Stored()[j + 1..])
    {
      var k := j + 1;
      while k < count
        invariant count == old(count) && j + 1 <= k <= count
        invariant rects[..k - 1] == old(rects[..j] + rects[j + 1..k])
        invariant rects[k..] == old(rects[k..])
      {
        rects[k - 1] := rects[k];
        k := k + 1;
      }
      count := count - 1;
    }

    /** Merge the new rectangle into the first one it overlaps, or append it; give up when the list is full. */
    method Insert(r: Rect) returns (ok: bool)
      requires Shape() && r.Inside(width, height) && r.Full()
      modifies rects, `count, `full
      ensures Shape() && full == (old(full) || !ok) && ok == !Crowded(old(Stored()), r)
      ensures Stored() == if ok then Entered(old(Stored()), r) else old(Stored())
    {
      hide AllInside, Entered, Joined, Join, Merged, ShareAPixel;
      ghost var was := Stored();
      EnteredHolds(was, r, width, height);
      var i := 0;
      while i < count
        invariant count == old(count) && full == old(full) && i <= count && Shape() && Stored() == was
        invariant forall j :: 0 <= j < i ==> !ShareAPixel(was[j], r)
      {
        InsideAt(was, i, width, height);
        var merged, m := TryMerge(rects[i], r);
        rects[i] := m;
        if merged {
          JoinIs(was[i], r, m);
          EnteredAt(was, r, i);
          assert Stored() == was[i := m];
          assert ShareAPixel(was[i], r);
          return true;
        }
        assert Stored() == was;
        i := i + 1;
      }
      EnteredAt(was, r, i);
      if count < MAX_DIRTY_RECTS {
        rects[count] := r;
        count := count + 1;
        assert Stored() == was + [r];
        return true;
      }
      full := true;
      return false;
    }

    /** Merge overlapping rectangles of the list with one another: as if they were entered one after another. */
    method Compact()
      requires Shape()
      modifies rects, `count
      ensures Shape() && Stored() == Compacted(old(Stored()))
    {
      hide AllInside, Compacted, EnteredAll, Joined, Join, Merged, ShareAPixel;
      ghost var was := Stored();
      CompactedHolds(was, width, height);
      var i := 0;
      while i < count
        invariant i <= count && Shape() && Stored()[..i] + Compacted(Stored()[i..]) == Compacted(was)
        decreases rects.Length - i
      {
        var j := i + 1;
        RowBegins(Stored()[i..]);
        assert Stored()[i..][1..] == Stored()[j..] && Stored()[j..j] == [];
        while j < count
          invariant i < j <= count && Shape()
          invariant Stored()[..i] + EnteredAll([Stored()[i]] + Compacted(Stored()[i + 1..j]), Stored()[j..]) == Compacted(was)
          decreases count + count - j
        {
          ghost var now := Stored();
          InsideAt(now, i, width, height);
          InsideAt(now, j, width, height);
          RowNext(now[i], now[i + 1..j], now[j], now[j + 1..]);
          assert [now[j]] + now[j + 1..] == now[j..];
          var merged, m := TryMerge(rects[i], rects[j]);
          rects[i] := m;
          if merged {
            JoinIs(now[i], now[j], m);
            JoinedInside(now[i], now[j], m, width, height);
            Replaced(now, i, m, width, height);
            assert Stored() == now[i := m];
            RemoveAt(j);
            AfterRemoval(now, i, j, m, Stored(), width, height);
          } else {
            assert Stored() == now;
            assert now[i + 1..j + 1] == now[i + 1..j] + [now[j]];
            j := j + 1;
          }
        }
        RowEnds(Stored(), i);
        i := i + 1;
      }
      NothingLeft(Stored(), i);
    }

    /** Whether the rectangles' areas add up to so much of the screen that all of it is redrawn. */
    method MostlyDirty() returns (most: bool)
      requires count <= rects.Length
      ensures most == Mostly(Stored(), width, height)
      ensures most <==> |Painted(Stored())| % WORD64 * 100 % WORD64 >= width * height * 35 % WORD64
    {
      hide Painted;
      var area := 0;
      for r := 0 to count
        invariant area == Area(rects[..r])
      {
        assert rects[..r + 1][..r] == rects[..r];
        area := (area + rects[r].w * rects[r].h) % WORD64;
      }
      MostlyCounts(Stored(), width, height);
      return area * 100 % WORD64 >= width * height * FULL_REDRAW_THRESHOLD_PCT % WORD64;
    }

    /** Mark a rectangle whose edges do not wrap around. */
    method MarkDirty(x: nat, y: nat, w: nat, h: nat)
      requires Valid() && x + w < WORD32 && y + h < WORD32
      modifies this, rects
      ensures Valid() && marked == old(marked) + OnScreen(x, y, w, h, width, height)
      // Everything is to be redrawn from when the list overflows or covers most of the screen.
      ensures full == (old(full) ||
              (x < width && y < height && w > 0 && h > 0 &&
               (Crowded(old(Stored()), Clipped(x, y, w, h, width, height)) || Mostly(Stored(), width, height))))
      ensures Stored() == if old(full) || x >= width || y >= height || w == 0 || h == 0 ||
                             Crowded(old(Stored()), Clipped(x, y, w, h, width, height)) then old(Stored())
                          else Compacted(Entered(old(Stored()), Clipped(x, y, w, h, width, height)))
    {
      marked := marked + OnScreen(x, y, w, h, width, height);
      if full {
        return;
      }
      if x >= width || y >= height {
        return;
      }
      ClipFits(x, w, width);
      ClipFits(y, h, height);
      var r := Rect(x, y, Clip(x, w, width), Clip(y, h, height));
      if r.w == 0 || r.h == 0 {
        return;
      }
      hide Mostly, Crowded, Clip, AllInside, Entered, Compacted;
      MarkRect(x, y, w, h, r);
    }

    /** Enter the part on the screen. */
    method MarkRect(x: nat, y: nat, w: nat, h: nat, r: Rect)
      requires Shape() && !full && r.Inside(width, height) && r.Full() && r.x == x && r.y == y
      requires x + r.w == (if x + w < width then x + w else width) && y + r.h == (if y + h < height then y + h else height)
      requires Small(width, height) ==> forall px, py :: (px, py) in marked ==>
                 Covered(Stored(), px, py) || (px, py) in OnScreen(x, y, w, h, width, height)
      modifies rects, `count, `full
      ensures Valid() && full == (Crowded(old(Stored()), r) || Mostly(Stored(), width, height))
      ensures Stored() == if Crowded(old(Stored()), r) then old(Stored()) else Compacted(Entered(old(Stored()), r))
    {
      hide Mostly, Crowded, AllInside, OnScreen, Covered, CoversAll, Entered, Compacted;
      ghost var was := Stored();
      var ok := Insert(r);
      if !ok {
        return;
      }
      Compact();
      if Small(width, height) {
        MarkedCovered(was, Stored(), r, x, y, w, h, width, height);
      }
      var most := MostlyDirty();
      if most {
        full := true;
      }
    }
  }

  ghost function OnScreen(x: nat, y: nat, w: nat, h: nat, width: nat, height: nat): iset<Pixel> {
    iset px: nat, py: nat | x <= px < x + w && y <= py < y + h && px < width && py < height :: (px, py)
  }

  /** Entering the part of a marked rectangle that is on the screen, and compacting, covers what was covered and what is marked. */
  lemma MarkedCovered(was: seq<Rect>, now: seq<Rect>, r: Rect, x: nat, y: nat, w: nat, h: nat, width: nat, height: nat)
    requires AllInside(was, width, height) && r.Inside(width, height) && r.Full() && Small(width, height)
    requires now == Compacted(Entered(was, r)) && r.x == x && r.y == y
    requires x + r.w == (if x + w < width then x + w else width) && y + r.h == (if y + h < height then y + h else height)
    ensures forall px: nat, py: nat :: Covered(was, px, py) || (px, py) in OnScreen(x, y, w, h, width, height) ==> Covered(now, px, py)
  {
    hide AllInside, Entered, Compacted;
    EnteredHolds(was, r, width, height);
    CompactedHolds(Entered(was, r), width, height);
    forall px: nat, py: nat | Covered(was, px, py) || (px, py) in OnScreen(x, y, w, h, width, height) ensures Covered(now, px, py) {
      if Covered(was, px, py) {
        var u :| u in was && u.Covers(px, py);
        assert u in was + [r];
      } else {
        assert r in was + [r] && r.Covers(px, py);
      }
      assert Covered(was + [r], px, py);
    }
  }
}
