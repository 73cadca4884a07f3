/** stb_rect_pack: the skyline as a value, and the geometry that makes packing safe. */
module Skyline {

  /** A skyline node: from column x up to the next node the boundary is at height y. */
  datatype Pt = Pt(x: nat, y: nat)

  /** A placed rectangle. */
  datatype Area = Area(x: nat, y: nat, w: nat, h: nat)

  ghost predicate Ordered(s: seq<Pt>) {
    forall n :: 0 <= n < |s| - 1 ==> Steps(s, n)
  }

  ghost predicate Steps(s: seq<Pt>, n: nat)
    requires n < |s| - 1
  {
    s[n].x < s[n + 1].x
  }

  /** Node x strictly increases from 0 to the sentinel, which stands at the width of the target. */
  ghost predicate Proper(sky: seq<Pt>, width: nat) {
    |sky| >= 2 && sky[0].x == 0 && sky[|sky| - 1].x == width && Ordered(sky)
  }

  /** The height of the segment that contains column t, when that is not before node from. */
  ghost function HeightFrom(sky: seq<Pt>, t: nat, from: nat): nat
    requires from < |sky|
    decreases |sky| - from
  {
    if from + 2 >= |sky| || t < sky[from + 1].x then sky[from].y else HeightFrom(sky, t, from + 1)
  }

  /** The height of the skyline at column t. */
  ghost function Height(sky: seq<Pt>, width: nat, t: nat): nat
    requires Proper(sky, width) && t < width
  {
    HeightFrom(sky, t, 0)
  }

  lemma {:induction false} HeightFromIs(sky: seq<Pt>, t: nat, from: nat, i: nat)
    requires Ordered(sky) && from <= i < |sky| - 1 && sky[i].x <= t < sky[i + 1].x
    ensures HeightFrom(sky, t, from) == sky[i].y
    decreases i - from
  {
    if from < i {
      Monotone(sky, from + 1, i);
      HeightFromIs(sky, t, from + 1, i);
    }
  }

  lemma HeightIs(sky: seq<Pt>, width: nat, t: nat, i: nat)
    requires Proper(sky, width) && i < |sky| - 1 && sky[i].x <= t < sky[i + 1].x
    ensures t < width && Height(sky, width, t) == sky[i].y
  {
    Monotone(sky, i + 1, |sky| - 1);
    HeightFromIs(sky, t, 0, i);
  }

  /** The segment that contains column t. */
  lemma {:induction false} Segment(sky: seq<Pt>, t: nat, from: nat) returns (i: nat)
    requires |sky| >= 2 && from < |sky| - 1 && sky[from].x <= t < sky[|sky| - 1].x
    ensures from <= i < |sky| - 1 && sky[i].x <= t < sky[i + 1].x
    decreases |sky| - from
  {
    if t < sky[from + 1].x {
      i := from;
    } else {
      i := Segment(sky, t, from + 1);
    }
  }

  lemma {:induction false} Monotone(sky: seq<Pt>, i: nat, j: nat)
    requires Ordered(sky) && i <= j < |sky|
    ensures sky[i].x <= sky[j].x && (i < j ==> sky[i].x < sky[j].x)
    decreases j
  {
    if i < j {
      Monotone(sky, i, j - 1);
      assert Steps(sky, j - 1);
    }
  }

  /** y is high enough to rest at over columns x..edge-1. */
  ghost predicate Rests(sky: seq<Pt>, width: nat, x: nat, edge: nat, y: nat)
    requires Proper(sky, width)
  {
    edge <= width && forall t: nat :: x <= t < edge ==> Height(sky, width, t) <= y
  }

  /** The greatest height over columns x..edge-1, and 0 over none. */
  ghost function Top(sky: seq<Pt>, width: nat, x: nat, edge: nat): nat
    requires Proper(sky, width) && x <= edge <= width
    decreases edge
  {
    if x == edge then 0 else Max(Top(sky, width, x, edge - 1), Height(sky, width, edge - 1))
  }

  function Max(a: nat, b: nat): nat { if a < b then b else a }

  /** y is the least height to rest at over columns x..edge-1. */
  ghost predicate Lowest(sky: seq<Pt>, width: nat, x: nat, edge: nat, y: nat)
    requires Proper(sky, width)
  {
    x <= edge <= width && y == Top(sky, width, x, edge)
  }

  lemma {:induction false} TopRests(sky: seq<Pt>, width: nat, x: nat, edge: nat)
    requires Proper(sky, width) && x <= edge <= width
    ensures Rests(sky, width, x, edge, Top(sky, width, x, edge))
    decreases edge
  {
    if x < edge {
      TopRests(sky, width, x, edge - 1);
    }
  }

  lemma {:induction false} TopLeast(sky: seq<Pt>, width: nat, x: nat, edge: nat, z: nat)
    requires Proper(sky, width) && x <= edge <= width && Rests(sky, width, x, edge, z)
    ensures Top(sky, width, x, edge) <= z
    decreases edge
  {
    if x < edge {
      TopLeast(sky, width, x, edge - 1, z);
    }
  }

  /** Lowest says what its name says: y rests, and nothing lower does. */
  lemma LowestMeans(sky: seq<Pt>, width: nat, x: nat, edge: nat, y: nat)
    requires Proper(sky, width) && x <= edge <= width
    ensures Lowest(sky, width, x, edge, y) <==>
      Rests(sky, width, x, edge, y) && forall z: nat :: Rests(sky, width, x, edge, z) ==> y <= z
  {
    TopRests(sky, width, x, edge);
    forall z: nat | Rests(sky, width, x, edge, z) ensures Top(sky, width, x, edge) <= z {
      TopLeast(sky, width, x, edge, z);
    }
  }

  /** Over n columns of segment k. */
  lemma {:induction false} TopFlat(sky: seq<Pt>, width: nat, x: nat, e: nat, n: nat, k: nat)
    requires Proper(sky, width) && x <= e && e + n <= width
    requires k < |sky| - 1 && sky[k].x <= e && e + n <= sky[k + 1].x
    ensures Top(sky, width, x, e + n) == if n == 0 then Top(sky, width, x, e) else Max(Top(sky, width, x, e), sky[k].y)
  {
    if n > 0 {
      TopFlat(sky, width, x, e, n - 1, k);
      HeightIs(sky, width, e + n - 1, k);
    }
  }

  ghost predicate Inside(r: Area, width: nat, height: nat) {
    r.w > 0 && r.h > 0 && r.x + r.w <= width && r.y + r.h <= height
  }

  ghost predicate Disjoint(r: Area, s: Area) {
    r.x + r.w <= s.x || s.x + s.w <= r.x || r.y + r.h <= s.y || s.y + s.h <= r.y
  }

  /** What makes a skyline safe to pack against: it is at or above the top of everything placed so far. */
  ghost predicate Above(sky: seq<Pt>, width: nat, r: Area)
    requires Proper(sky, width)
  {
    r.x + r.w <= width && forall t: nat :: r.x <= t < r.x + r.w ==> r.y + r.h <= Height(sky, width, t)
  }

  ghost predicate Packed(sky: seq<Pt>, width: nat, height: nat, placed: seq<Area>) {
    && Proper(sky, width)
    && (forall i :: 0 <= i < |placed| ==> Inside(placed[i], width, height) && Above(sky, width, placed[i]))
    && (forall i, j {:trigger Disjoint(placed[i], placed[j])} :: 0 <= i < j < |placed| ==> Disjoint(placed[i], placed[j]))
  }

  /**
   * The skyline after a rectangle of width w is put on the segment i with its left edge at x: the new node goes in
   * after segment i if that starts to the left of x and replaces it otherwise; the nodes up to j are dropped, and the
   * node j moves right to the rectangle's right edge.
   */
  function Stitch(sky: seq<Pt>, i: nat, j: nat, x: nat, w: nat, top: nat): seq<Pt>
    requires i < |sky| && Keep(sky, i, x) <= j < |sky|
  {
    sky[..Keep(sky, i, x)] + [Pt(x, top), Pt(Edge(sky, j, x, w), sky[j].y)] + sky[j + 1..]
  }

  /** How many nodes stay in front of the new one. */
  function Keep(sky: seq<Pt>, i: nat, x: nat): nat
    requires i < |sky|
  {
    if sky[i].x < x then i + 1 else i
  }

  function Edge(sky: seq<Pt>, j: nat, x: nat, w: nat): nat
    requires j < |sky|
  {
    if sky[j].x < x + w then x + w else sky[j].x
  }

  /** j is where the loop that drops covered nodes stops. */
  ghost predicate Stops(sky: seq<Pt>, i: nat, j: nat, x: nat, w: nat)
    requires i < |sky|
  {
    && Keep(sky, i, x) <= j < |sky|
    && (j + 1 < |sky| ==> sky[j + 1].x > x + w)
    && (j > Keep(sky, i, x) ==> sky[j].x <= x + w)
  }

  /** Where a rectangle may be put: its left edge is in segment i and it does not stick out on the right. */
  ghost predicate Fits(sky: seq<Pt>, width: nat, i: nat, x: nat, w: nat) {
    Proper(sky, width) && i < |sky| - 1 && sky[i].x <= x < sky[i + 1].x && w > 0 && x + w <= width
  }

  lemma StitchAt(sky: seq<Pt>, i: nat, j: nat, x: nat, w: nat, top: nat, n: nat)
    requires i < |sky| && Keep(sky, i, x) <= j < |sky|
    requires n < |Stitch(sky, i, j, x, w, top)|
    ensures Stitch(sky, i, j, x, w, top)[n] ==
      var k := Keep(sky, i, x);
      if n < k then sky[n]
      else if n == k then Pt(x, top)
      else if n == k + 1 then Pt(Edge(sky, j, x, w), sky[j].y)
      else sky[n - k - 1 + j]
  {
  }

  lemma StitchSteps(sky: seq<Pt>, width: nat, i: nat, j: nat, x: nat, w: nat, top: nat, n: nat)
    requires Fits(sky, width, i, x, w) && Stops(sky, i, j, x, w) && n < |Stitch(sky, i, j, x, w, top)| - 1
    ensures Steps(Stitch(sky, i, j, x, w, top), n)
  {
    var k := Keep(sky, i, x);
    StitchAt(sky, i, j, x, w, top, n);
    StitchAt(sky, i, j, x, w, top, n + 1);
    if n < k {
      assert Steps(sky, n);
    } else if n > k {
      assert Steps(sky, n - k - 1 + j);
    }
  }

  lemma StitchProper(sky: seq<Pt>, width: nat, i: nat, j: nat, x: nat, w: nat, top: nat)
    requires Fits(sky, width, i, x, w) && Stops(sky, i, j, x, w)
    ensures Proper(Stitch(sky, i, j, x, w, top), width)
  {
    var sky2 := Stitch(sky, i, j, x, w, top);
    forall n | 0 <= n < |sky2| - 1 ensures Steps(sky2, n) {
      StitchSteps(sky, width, i, j, x, w, top, n);
    }
    StitchEnds(sky, width, i, j, x, w, top);
  }

  lemma StitchEnds(sky: seq<Pt>, width: nat, i: nat, j: nat, x: nat, w: nat, top: nat)
    requires Fits(sky, width, i, x, w) && Stops(sky, i, j, x, w)
    ensures var sky2 := Stitch(sky, i, j, x, w, top); |sky2| >= 2 && sky2[0].x == 0 && sky2[|sky2| - 1].x == width
  {
    StitchAt(sky, i, j, x, w, top, 0);
    StitchAt(sky, i, j, x, w, top, |Stitch(sky, i, j, x, w, top)| - 1);
    Monotone(sky, j, |sky| - 1);
  }

  /** Inside the new node's segment the skyline becomes top; elsewhere it does not change. */
  lemma StitchHeight(sky: seq<Pt>, width: nat, i: nat, j: nat, x: nat, w: nat, top: nat, t: nat)
    requires Fits(sky, width, i, x, w) && Stops(sky, i, j, x, w) && t < width
    requires Proper(Stitch(sky, i, j, x, w, top), width)
    ensures Height(Stitch(sky, i, j, x, w, top), width, t)
         == if x <= t < Edge(sky, j, x, w) then top else Height(sky, width, t)
  {
    var s := Segment(sky, t, 0);
    var n := StitchSegment(sky, width, i, j, x, w, t, s);
    HeightIs(sky, width, t, s);
    SegmentAfter(sky, width, i, j, x, w, top, t, s, n);
    HeightIs(Stitch(sky, i, j, x, w, top), width, t, n);
  }

  lemma SegmentAfter(sky: seq<Pt>, width: nat, i: nat, j: nat, x: nat, w: nat, top: nat, t: nat, s: nat, n: nat)
    requires Fits(sky, width, i, x, w) && Stops(sky, i, j, x, w)
    requires s < |sky| - 1 && sky[s].x <= t < sky[s + 1].x
    requires SegmentMap(sky, i, j, x, w, t, s, n)
    ensures var sky2 := Stitch(sky, i, j, x, w, top);
      && n < |sky2| - 1 && sky2[n].x <= t < sky2[n + 1].x
      && sky2[n].y == if x <= t < Edge(sky, j, x, w) then top else sky[s].y
  {
    StitchAt(sky, i, j, x, w, top, n);
    StitchAt(sky, i, j, x, w, top, n + 1);
  }

  ghost predicate SegmentMap(sky: seq<Pt>, i: nat, j: nat, x: nat, w: nat, t: nat, s: nat, n: nat)
    requires i < |sky| && j < |sky|
  {
    var k := Keep(sky, i, x);
    if x <= t < Edge(sky, j, x, w) then n == k
    else if t < x then n == s < k
    else s >= j && n == s - j + k + 1
  }

  /** Which segment of the new skyline holds column t, which was in segment s of the old one. */
  lemma StitchSegment(sky: seq<Pt>, width: nat, i: nat, j: nat, x: nat, w: nat, t: nat, s: nat) returns (n: nat)
    requires Fits(sky, width, i, x, w) && Stops(sky, i, j, x, w)
    requires s < |sky| - 1 && sky[s].x <= t < sky[s + 1].x
    ensures SegmentMap(sky, i, j, x, w, t, s, n)
  {
    var k := Keep(sky, i, x);
    if x <= t < Edge(sky, j, x, w) {
      n := k;
    } else if t < x {
      if k <= s {
        Monotone(sky, k, s);
      }
      n := s;
    } else {
      if s < j {
        Monotone(sky, s + 1, j);
      }
      n := s - j + k + 1;
    }
  }

  /** sky2 is sky with the columns from x to edge set to top. */
  ghost predicate Raised(sky: seq<Pt>, sky2: seq<Pt>, width: nat, x: nat, edge: nat, top: nat) {
    && Proper(sky, width) && Proper(sky2, width)
    && forall t: nat :: t < width ==> Height(sky2, width, t) == if x <= t < edge then top else Height(sky, width, t)
  }

  lemma StitchRaises(sky: seq<Pt>, width: nat, i: nat, j: nat, x: nat, w: nat, top: nat) returns (sky2: seq<Pt>)
    requires Fits(sky, width, i, x, w) && Stops(sky, i, j, x, w)
    ensures sky2 == Stitch(sky, i, j, x, w, top)
    ensures Raised(sky, sky2, width, x, Edge(sky, j, x, w), top)
  {
    StitchProper(sky, width, i, j, x, w, top);
    sky2 := Stitch(sky, i, j, x, w, top);
    forall t: nat | t < width
      ensures Height(sky2, width, t) == if x <= t < Edge(sky, j, x, w) then top else Height(sky, width, t)
    {
      StitchHeight(sky, width, i, j, x, w, top, t);
    }
  }

  /** Nothing under the new node's segment is higher than the height at which the rectangle was put. */
  lemma UnderNew(sky: seq<Pt>, width: nat, i: nat, j: nat, x: nat, w: nat, y: nat)
    requires Fits(sky, width, i, x, w) && Stops(sky, i, j, x, w)
    requires Rests(sky, width, x, x + w, y)
    ensures x + w <= Edge(sky, j, x, w) && Rests(sky, width, x, Edge(sky, j, x, w), y)
  {
    Monotone(sky, j, |sky| - 1);
    HeightIs(sky, width, x, i);
    forall t: nat | x + w <= t < Edge(sky, j, x, w) ensures Height(sky, width, t) <= y {
      HeightIs(sky, width, t, i);
    }
  }

  /** What was under the old skyline is under the new one, and does not overlap what rests on the old one. */
  lemma StaysAbove(sky: seq<Pt>, sky2: seq<Pt>, width: nat, edge: nat, r: Area, p: Area)
    requires Raised(sky, sky2, width, r.x, edge, r.y + r.h) && Rests(sky, width, r.x, edge, r.y)
    requires r.w > 0 && r.x + r.w <= edge
    requires Above(sky, width, p) && p.w > 0
    ensures Above(sky2, width, p) && Disjoint(p, r)
  {
    if p.x < r.x + r.w && r.x < p.x + p.w {
      var t := if p.x >= r.x then p.x else r.x;
      assert p.y + p.h <= Height(sky, width, t) <= r.y;
    }
    forall t: nat | p.x <= t < p.x + p.w ensures p.y + p.h <= Height(sky2, width, t) {
      assert p.y + p.h <= Height(sky, width, t);
    }
  }

  lemma RaiseKeepsPacked(sky: seq<Pt>, sky2: seq<Pt>, width: nat, height: nat, placed: seq<Area>, edge: nat, r: Area)
    requires Packed(sky, width, height, placed) && Inside(r, width, height)
    requires Raised(sky, sky2, width, r.x, edge, r.y + r.h) && Rests(sky, width, r.x, edge, r.y)
    requires r.x + r.w <= edge
    ensures Packed(sky2, width, height, placed + [r])
  {
    forall n | 0 <= n < |placed| ensures Above(sky2, width, placed[n]) && Disjoint(placed[n], r) {
      StaysAbove(sky, sky2, width, edge, r, placed[n]);
    }
  }

  /** One successful placement, at or above the skyline over its columns, keeps the whole packing safe. */
  lemma PlaceKeepsPacked(sky: seq<Pt>, width: nat, height: nat, placed: seq<Area>, i: nat, j: nat, r: Area)
    requires Packed(sky, width, height, placed) && Inside(r, width, height)
    requires Fits(sky, width, i, r.x, r.w) && Stops(sky, i, j, r.x, r.w)
    requires Rests(sky, width, r.x, r.x + r.w, r.y)
    ensures Packed(Stitch(sky, i, j, r.x, r.w, r.y + r.h), width, height, placed + [r])
  {
    var sky2 := StitchRaises(sky, width, i, j, r.x, r.w, r.y + r.h);
    UnderNew(sky, width, i, j, r.x, r.w, r.y);
    RaiseKeepsPacked(sky, sky2, width, height, placed, Edge(sky, j, r.x, r.w), r);
  }

  /** Scanning one more segment: its height joins the maximum. */
  lemma LowestExtends(sky: seq<Pt>, width: nat, x: nat, e: nat, e2: nat, y: nat, k: nat)
    requires Proper(sky, width) && k < |sky| - 1
    requires x <= e < e2 <= sky[k + 1].x && sky[k].x <= e && e2 <= width
    requires Lowest(sky, width, x, e, y)
    ensures Lowest(sky, width, x, e2, if sky[k].y > y then sky[k].y else y)
  {
    TopFlat(sky, width, x, e, e2 - e, k);
  }

  lemma LowestEmpty(sky: seq<Pt>, width: nat, x: nat)
    requires Proper(sky, width) && x <= width
    ensures Lowest(sky, width, x, x, 0)
  {
  }

  /** The area caught below height y over columns a..b-1. */
  ghost function Trapped(sky: seq<Pt>, width: nat, a: nat, b: nat, y: nat): int
    requires Proper(sky, width) && a <= b <= width
    decreases b
  {
    if a == b then 0 else Trapped(sky, width, a, b - 1, y) + y - Height(sky, width, b - 1)
  }

  lemma OneMore(n: int, d: int)
    ensures n * d == (n - 1) * d + d
  {
  }

  lemma {:induction false} TrappedRaise(sky: seq<Pt>, width: nat, a: nat, n: nat, y: nat, d: int)
    requires Proper(sky, width) && a + n <= width && y + d >= 0
    ensures Trapped(sky, width, a, a + n, y + d) == Trapped(sky, width, a, a + n, y) + n * d
  {
    if n > 0 {
      TrappedRaise(sky, width, a, n - 1, y, d);
      OneMore(n, d);
    }
  }

  lemma {:induction false} TrappedFlat(sky: seq<Pt>, width: nat, a: nat, b: nat, n: nat, y: nat, d: int, k: nat)
    requires Proper(sky, width) && a <= b && b + n <= width
    requires k < |sky| - 1 && sky[k].x <= b && b + n <= sky[k + 1].x && y == sky[k].y + d
    ensures Trapped(sky, width, a, b + n, y) == Trapped(sky, width, a, b, y) + n * d
  {
    if n > 0 {
      TrappedFlat(sky, width, a, b, n - 1, y, d, k);
      HeightIs(sky, width, b + n - 1, k);
      OneMore(n, d);
    }
  }

  /** The area added by a segment of height h: all that was seen gains when h is the new maximum, else only what is added. */
  function Gain(h: nat, y: nat, seen: int, added: int): int {
    if h > y then seen * (h - y) else added * (y - h)
  }

  /** How the trapped area grows over one more segment: everything seen gains when the height goes up. */
  lemma TrappedExtends(sky: seq<Pt>, width: nat, x: nat, e: nat, e2: nat, y: nat, k: nat)
    requires Proper(sky, width) && k < |sky| - 1
    requires x <= e <= e2 <= sky[k + 1].x && sky[k].x <= e && e2 <= width
    ensures Trapped(sky, width, x, e2, if sky[k].y > y then sky[k].y else y)
         == Trapped(sky, width, x, e, y) + Gain(sky[k].y, y, e - x, e2 - e)
  {
    var h := sky[k].y;
    if h > y {
      TrappedRaise(sky, width, x, e - x, y, h - y);
      TrappedFlat(sky, width, x, e, e2 - e, h, 0, k);
    } else {
      TrappedFlat(sky, width, x, e, e2 - e, y, y - h, k);
    }
  }

  /** The part of the segment from a to b that lies over columns x..x+w-1. */
  function From(a: nat, x: nat): nat { if a < x then x else a }

  function Until(b: nat, x: nat, w: nat): nat { if b < x + w then b else x + w }

  /** Every segment but the last is above the ground, so that a rectangle never starts on the ground behind a node. */
  ghost predicate GroundLast(sky: seq<Pt>) {
    forall i :: 0 <= i < |sky| - 2 ==> sky[i].y > 0
  }

  lemma StitchGroundLast(sky: seq<Pt>, width: nat, i: nat, j: nat, x: nat, w: nat, top: nat)
    requires Fits(sky, width, i, x, w) && Stops(sky, i, j, x, w) && GroundLast(sky) && top > 0
    requires sky[i].y > 0 || x == sky[i].x
    ensures GroundLast(Stitch(sky, i, j, x, w, top))
  {
    var k, sky2 := Keep(sky, i, x), Stitch(sky, i, j, x, w, top);
    forall n | 0 <= n < |sky2| - 2 ensures sky2[n].y > 0 {
      StitchAt(sky, i, j, x, w, top, n);
    }
  }

  /** The running values of the scan under a place: height, wasted area, and width seen. */
  datatype Scan = Scan(y: nat, waste: int, visited: int)

  /** The body of the scan: the segment at height h from x to next joins in. */
  function Scanned(x: nat, h: nat, next: nat, x0: nat, w: nat, s: Scan): Scan {
    if h > s.y then
      Scan(h, s.waste + s.visited * (h - s.y), s.visited + (if x < x0 then next - x0 else next - x))
    else
      var under := if next - x + s.visited > w then w - s.visited else next - x;
      Scan(s.y, s.waste + under * (s.y - h), s.visited + under)
  }

  /** A segment keeps the waste exact while the width seen is. */
  lemma ScannedExact(x: nat, h: nat, next: nat, x0: nat, w: nat, s: Scan)
    requires x < next && x0 < next && x < x0 + w
    requires s.visited == From(x, x0) - x0 && (x >= x0 || h > s.y)
    ensures var t := Scanned(x, h, next, x0, w, s);
      && t.waste == s.waste + Gain(h, s.y, s.visited, Until(next, x0, w) - From(x, x0))
      && (next < x0 + w ==> t.visited == next - x0)
  {
  }

  ghost function Seen(sky: seq<Pt>, x: nat, w: nat, k: nat): nat
    requires k < |sky|
  {
    From(Until(sky[k].x, x, w), x)
  }

  /**
   * A scan over columns x..x+w-1 that stands at node k with the values s has seen the columns before that node, and knows
   * the least height to rest at over them and the area trapped below it.
   */
  ghost predicate Scanning(sky: seq<Pt>, width: nat, x: nat, w: nat, k: nat, s: Scan) {
    && Proper(sky, width) && k < |sky| && w > 0 && x + w <= width
    && Lowest(sky, width, x, Seen(sky, x, w, k), s.y)
    && s.waste == Trapped(sky, width, x, Seen(sky, x, w, k), s.y)
    && (sky[k].x < x + w ==> s.visited == Seen(sky, x, w, k) - x)
    && (sky[k].x <= x ==> s.y == 0)
  }

  lemma ScanStart(sky: seq<Pt>, width: nat, x: nat, w: nat, i: nat)
    requires Fits(sky, width, i, x, w)
    ensures Scanning(sky, width, x, w, i, Scan(0, 0, 0))
  {
    LowestEmpty(sky, width, x);
  }

  /** One segment; the width seen goes wrong only on the ground behind a node, which is the last segment. */
  lemma ScanStep(sky: seq<Pt>, width: nat, x: nat, w: nat, k: nat, s: Scan)
    requires Scanning(sky, width, x, w, k, s) && GroundLast(sky)
    requires k + 1 < |sky| && sky[k].x < x + w && x < sky[k + 1].x
    ensures Scanning(sky, width, x, w, k + 1, Scanned(sky[k].x, sky[k].y, sky[k + 1].x, x, w, s))
  {
    var e, e2 := Seen(sky, x, w, k), Seen(sky, x, w, k + 1);
    assert Steps(sky, k);
    LowestExtends(sky, width, x, e, e2, s.y, k);
    TrappedExtends(sky, width, x, e, e2, s.y, k);
    if sky[k].x >= x || sky[k].y > s.y {
      ScannedExact(sky[k].x, sky[k].y, sky[k + 1].x, x, w, s);
    } else {
      assert k == |sky| - 2;
    }
  }

  ghost predicate Bounded(sky: seq<Pt>, bound: nat) {
    forall i :: 0 <= i < |sky| ==> sky[i].y <= bound
  }

  lemma LowestBounded(sky: seq<Pt>, width: nat, x: nat, edge: nat, y: nat, bound: nat)
    requires Proper(sky, width) && Bounded(sky, bound) && Lowest(sky, width, x, edge, y)
    ensures y <= bound
  {
    forall t: nat | x <= t < edge ensures Height(sky, width, t) <= bound {
      var s := Segment(sky, t, 0);
      HeightIs(sky, width, t, s);
    }
    TopLeast(sky, width, x, edge, bound);
  }

  /** Where w columns rest with their left edge at column x. */
  ghost function RestAt(sky: seq<Pt>, width: nat, w: nat, x: nat): nat
    requires Proper(sky, width) && x + w <= width
  {
    Top(sky, width, x, x + w)
  }

  /** Node i is the leftmost of the first n nodes at which w columns rest lowest, and they rest there at y. */
  ghost predicate BestLeft(sky: seq<Pt>, width: nat, w: nat, y: nat, i: nat, n: nat)
    requires Proper(sky, width) && n <= |sky|
  {
    i < n && sky[i].x + w <= width && y == RestAt(sky, width, w, sky[i].x) && NoneLower(sky, width, w, y, i, n)
  }

  /** At none of the first n nodes do the columns rest lower than y, nor as low if the node is left of i. */
  ghost predicate NoneLower(sky: seq<Pt>, width: nat, w: nat, y: nat, i: nat, n: nat)
    requires Proper(sky, width) && n <= |sky|
  {
    n == 0 || (NoneLower(sky, width, w, y, i, n - 1) && NotLower(sky, width, w, y, i, n - 1))
  }

  ghost predicate NotLower(sky: seq<Pt>, width: nat, w: nat, y: nat, i: nat, k: nat)
    requires Proper(sky, width) && k < |sky|
  {
    sky[k].x + w <= width ==> y < RestAt(sky, width, w, sky[k].x) + (if k < i then 0 else 1)
  }

  lemma {:induction false} NoneLowerAt(sky: seq<Pt>, width: nat, w: nat, y: nat, i: nat, n: nat, k: nat)
    requires Proper(sky, width) && k < n <= |sky| && NoneLower(sky, width, w, y, i, n)
    ensures NotLower(sky, width, w, y, i, k)
  {
    if k < n - 1 {
      NoneLowerAt(sky, width, w, y, i, n - 1, k);
    }
  }

  /** A lower place than all so far. */
  lemma {:induction false} NoneLowerWeaken(sky: seq<Pt>, width: nat, w: nat, y: nat, i: nat, n: nat, y2: nat, i2: nat)
    requires Proper(sky, width) && n <= |sky| && NoneLower(sky, width, w, y, i, n) && y2 < y
    ensures NoneLower(sky, width, w, y2, i2, n)
  {
    if n > 0 {
      NoneLowerWeaken(sky, width, w, y, i, n - 1, y2, i2);
    }
  }

  lemma BestLeftExtends(sky: seq<Pt>, width: nat, w: nat, y: nat, i: nat, n: nat, y2: nat)
    requires Proper(sky, width) && n < |sky| && sky[n].x + w <= width && y2 == RestAt(sky, width, w, sky[n].x)
    requires n == 0 ==> y > y2
    requires n > 0 ==> BestLeft(sky, width, w, y, i, n)
    ensures if y2 < y then BestLeft(sky, width, w, y2, n, n + 1) else BestLeft(sky, width, w, y, i, n + 1)
  {
    if y2 < y {
      NoneLowerWeaken(sky, width, w, y, i, n, y2, n);
    }
  }

  /** Nodes too far right leave no room for w columns. */
  lemma {:induction false} NoneLowerAll(sky: seq<Pt>, width: nat, w: nat, y: nat, i: nat, n: nat, m: nat)
    requires Proper(sky, width) && n <= m <= |sky| && (n < |sky| ==> sky[n].x + w > width)
    requires NoneLower(sky, width, w, y, i, n)
    ensures NoneLower(sky, width, w, y, i, m)
  {
    if n < m {
      NoneLowerAll(sky, width, w, y, i, n, m - 1);
      Monotone(sky, n, m - 1);
    }
  }

  lemma BestLeftAll(sky: seq<Pt>, width: nat, w: nat, y: nat, i: nat, n: nat)
    requires Proper(sky, width) && n < |sky| && sky[n].x + w > width
    requires BestLeft(sky, width, w, y, i, n)
    ensures BestLeft(sky, width, w, y, i, |sky|)
  {
    NoneLowerAll(sky, width, w, y, i, n, |sky|);
  }

  // ---- Best fit ----

  /** A place under best-fit: where it rests, what area it wastes, and how far left it is; lower comes first. */
  datatype Offer = Offer(y: nat, waste: int, x: nat)

  predicate Preferred(a: Offer, b: Offer) {
    a.y < b.y || (a.y == b.y && (a.waste < b.waste || (a.waste == b.waste && a.x <= b.x)))
  }

  ghost function OfferAt(sky: seq<Pt>, width: nat, w: nat, x: nat): Offer
    requires Proper(sky, width) && x + w <= width
  {
    var y := RestAt(sky, width, w, x);
    Offer(y, Trapped(sky, width, x, x + w, y), x)
  }

  predicate Beats(best: Offer, o: Offer, h: nat, limit: int) { o.y + h <= limit ==> Preferred(best, o) }

  /** Nothing at the first n nodes that leaves h free below the limit is preferred to best. */
  ghost predicate NoBetterLeft(sky: seq<Pt>, width: nat, w: nat, h: nat, limit: nat, best: Offer, n: nat)
    requires Proper(sky, width) && n <= |sky|
  {
    n == 0 || (NoBetterLeft(sky, width, w, h, limit, best, n - 1) && BeatsAt(sky, width, w, h, limit, best, sky[n - 1].x))
  }

  /** Likewise for places whose right edge is at one of the first n nodes, where the code wants h to fit with room to spare. */
  ghost predicate NoBetterRight(sky: seq<Pt>, width: nat, w: nat, h: nat, limit: nat, best: Offer, n: nat)
    requires Proper(sky, width) && n <= |sky|
  {
    n == 0 || (NoBetterRight(sky, width, w, h, limit, best, n - 1) && BeatsAt(sky, width, w, h, limit - 1, best, sky[n - 1].x - w))
  }

  /** Column x is no place for w columns, or none that is preferred to best. */
  ghost predicate BeatsAt(sky: seq<Pt>, width: nat, w: nat, h: nat, limit: int, best: Offer, x: int)
    requires Proper(sky, width)
  {
    0 <= x && x + w <= width ==> Beats(best, OfferAt(sky, width, w, x), h, limit)
  }

  lemma BeatsOn(sky: seq<Pt>, width: nat, w: nat, h: nat, limit: int, best: Offer, best2: Offer, x: int)
    requires Proper(sky, width) && BeatsAt(sky, width, w, h, limit, best, x) && Preferred(best2, best)
    ensures BeatsAt(sky, width, w, h, limit, best2, x)
  {
  }

  lemma {:induction false} NoBetterLeftWeaken(sky: seq<Pt>, width: nat, w: nat, h: nat, limit: nat, best: Offer, best2: Offer, n: nat)
    requires Proper(sky, width) && Preferred(best2, best) && n <= |sky| && NoBetterLeft(sky, width, w, h, limit, best, n)
    ensures NoBetterLeft(sky, width, w, h, limit, best2, n)
  {
    if n > 0 {
      NoBetterLeftWeaken(sky, width, w, h, limit, best, best2, n - 1);
      BeatsOn(sky, width, w, h, limit, best, best2, sky[n - 1].x);
    }
  }

  lemma {:induction false} NoBetterRightWeaken(sky: seq<Pt>, width: nat, w: nat, h: nat, limit: nat, best: Offer, best2: Offer, n: nat)
    requires Proper(sky, width) && Preferred(best2, best) && n <= |sky| && NoBetterRight(sky, width, w, h, limit, best, n)
    ensures NoBetterRight(sky, width, w, h, limit, best2, n)
  {
    if n > 0 {
      NoBetterRightWeaken(sky, width, w, h, limit, best, best2, n - 1);
      BeatsOn(sky, width, w, h, limit - 1, best, best2, sky[n - 1].x - w);
    }
  }

  lemma {:induction false} NoBetterLeftAt(sky: seq<Pt>, width: nat, w: nat, h: nat, limit: nat, best: Offer, n: nat, k: nat)
    requires Proper(sky, width) && k < n <= |sky| && NoBetterLeft(sky, width, w, h, limit, best, n)
    ensures BeatsAt(sky, width, w, h, limit, best, sky[k].x)
  {
    if k < n - 1 {
      NoBetterLeftAt(sky, width, w, h, limit, best, n - 1, k);
    }
  }

  /** One more place on the left, when the offers so far are further left. */
  lemma LeftStep(sky: seq<Pt>, width: nat, w: nat, h: nat, limit: nat, best: Offer, n: nat, o: Offer, best2: Offer)
    requires Proper(sky, width) && n < |sky| && sky[n].x + w <= width && o == OfferAt(sky, width, w, sky[n].x)
    requires NoBetterLeft(sky, width, w, h, limit, best, n) && best.x <= sky[n].x
    requires best2 == if o.y + h <= limit && (o.y < best.y || (o.y == best.y && o.waste < best.waste)) then o else best
    ensures NoBetterLeft(sky, width, w, h, limit, best2, n + 1)
  {
    NoBetterLeftWeaken(sky, width, w, h, limit, best, best2, n);
  }

  /** One more place on the right. */
  lemma RightStep(sky: seq<Pt>, width: nat, w: nat, h: nat, limit: nat, best: Offer, n: nat, o: Offer, best2: Offer)
    requires Proper(sky, width) && n < |sky| && w <= sky[n].x <= width && o == OfferAt(sky, width, w, sky[n].x - w)
    requires NoBetterRight(sky, width, w, h, limit, best, n)
    requires best2 ==
      if o.y + h < limit && o.y <= best.y && (o.y < best.y || o.waste < best.waste || (o.waste == best.waste && o.x < best.x)) then o
      else best
    ensures NoBetterRight(sky, width, w, h, limit, best2, n + 1) && Preferred(best2, best)
  {
    NoBetterRightWeaken(sky, width, w, h, limit, best, best2, n);
  }

  /** No right edge is possible at nodes that are too far left. */
  lemma {:induction false} RightStart(sky: seq<Pt>, width: nat, w: nat, h: nat, limit: nat, best: Offer, n: nat)
    requires Proper(sky, width) && n <= |sky| && (n > 0 ==> sky[n - 1].x < w)
    ensures NoBetterRight(sky, width, w, h, limit, best, n)
  {
    if n > 1 {
      Monotone(sky, n - 2, n - 1);
    }
    if n > 0 {
      RightStart(sky, width, w, h, limit, best, n - 1);
    }
  }

  lemma {:induction false} NoBetterLeftAll(sky: seq<Pt>, width: nat, w: nat, h: nat, limit: nat, best: Offer, n: nat, m: nat)
    requires Proper(sky, width) && n <= m <= |sky| && (n < |sky| ==> sky[n].x + w > width)
    requires NoBetterLeft(sky, width, w, h, limit, best, n)
    ensures NoBetterLeft(sky, width, w, h, limit, best, m)
  {
    if n < m {
      NoBetterLeftAll(sky, width, w, h, limit, best, n, m - 1);
      Monotone(sky, n, m - 1);
    }
  }

  /** A place for the aligned width is a place for the width itself. */
  lemma RestsNarrower(sky: seq<Pt>, width: nat, i: nat, x: nat, w: nat, aligned: nat, y: nat)
    requires Fits(sky, width, i, x, aligned) && Lowest(sky, width, x, x + aligned, y) && 0 < w <= aligned
    ensures Fits(sky, width, i, x, w) && Rests(sky, width, x, x + w, y)
  {
    TopRests(sky, width, x, x + aligned);
  }

  datatype Heuristic = BottomLeft | BestFit

  /** What best-fit holds before it has found a place. */
  const NOOFFER: Offer := Offer(0x4000_0000, 0x4000_0000, 0)

  /**
   * The best place for w columns and height h under a heuristic is at (x, y) in segment i, or there is none: lowest and
   * then leftmost under bottom-left; with vertical room, lowest, then least wasteful, then leftmost under best-fit.
   */
  ghost predicate Best(sky: seq<Pt>, width: nat, height: nat, heuristic: Heuristic,
                       none: bool, x: nat, y: nat, i: nat, w: nat, h: nat)
    requires Proper(sky, width)
  {
    && (!none ==> Fits(sky, width, i, x, w) && y == RestAt(sky, width, w, x))
    && (heuristic == BottomLeft ==>
      if none then w > width else x == sky[i].x && BestLeft(sky, width, w, y, i, |sky|))
    && (heuristic == BestFit ==>
      && (none ==> y == NOOFFER.y) && (!none ==> y + h <= height)
      && var best := if none then NOOFFER else OfferAt(sky, width, w, x);
         NoBetterLeft(sky, width, w, h, height, best, |sky|) && NoBetterRight(sky, width, w, h, height, best, |sky|))
  }

  /** On the last segment, at height 0, nothing is trapped. */
  lemma GroundOffer(sky: seq<Pt>, width: nat, w: nat, x: nat)
    requires Proper(sky, width) && x + w <= width && sky[|sky| - 2].x <= x && sky[|sky| - 2].y == 0
    ensures OfferAt(sky, width, w, x) == Offer(0, 0, x)
  {
    TopFlat(sky, width, x, x, w, |sky| - 2);
    TrappedFlat(sky, width, x, x, w, 0, 0, |sky| - 2);
  }

  /** The best place never cuts the ground in the middle: further left it is as low and wastes nothing either. */
  lemma BestOnGround(sky: seq<Pt>, width: nat, height: nat, heuristic: Heuristic, x: nat, y: nat, i: nat, w: nat, h: nat)
    requires Proper(sky, width) && GroundLast(sky) && Best(sky, width, height, heuristic, false, x, y, i, w, h)
    ensures sky[i].y > 0 || x == sky[i].x
  {
    if sky[i].y == 0 && heuristic == BestFit {
      NoBetterLeftAt(sky, width, w, h, height, OfferAt(sky, width, w, x), |sky|, i);
      GroundOffer(sky, width, w, x);
      GroundOffer(sky, width, w, sky[i].x);
    }
  }
}
