/** stb_rect_pack: when the packer can run out of nodes. Widths are rounded up so that it does not, but nodes are not. */
module PackLimits {
  import opened Skyline
  import opened RectPack
  import opened PackRects

  lemma {:induction false} ColumnsGrow(sky: seq<Pt>, i: nat)
    requires Ordered(sky) && i < |sky|
    ensures i <= sky[i].x
  {
    if i > 0 {
      ColumnsGrow(sky, i - 1);
      assert Steps(sky, i - 1);
    }
  }

  /** With at least as many nodes as columns there is always one to spare. */
  lemma NodesSuffice(c: Context)
    requires c.Valid() && c.numNodes >= c.width
    ensures c.free != []
  {
    ColumnsGrow(c.sky, |c.sky| - 1);
  }

  /** So then a rectangle is refused only for want of room. */
  method PackWithEnoughNodes(c: Context, w: nat, h: nat) returns (r: FindResult, ghost none: bool, ghost x: nat, ghost y: nat, ghost i: nat)
    requires c.Valid() && w > 0 && h > 0 && c.numNodes >= c.width
    requires c.heuristic == BestFit ==> AlignUp(w, c.align) <= c.width
    modifies c`activeHead, c`freeHead, c`active, c`free, c`sky, c`placed, c.pool
    ensures Proper(old(c.sky), c.width)
    ensures Best(old(c.sky), c.width, c.height, c.heuristic, none, x, y, i, AlignUp(w, c.align), h)
    ensures c.Valid() && (r.link.NoLink? <==> none || y + h > c.height)
    ensures c.placed == if r.link.NoLink? then old(c.placed) else old(c.placed) + [Area(x, y, w, h)]
  {
    NodesSuffice(c);
    ghost var m;
    r, none, x, y, i, m := c.PackRectangle(w, h);
  }

  // ---- With fewer nodes ----

  /** There is a place for r, with vertical room, and r is refused all the same: every node is in use. */
  ghost predicate OutOfNodes(t: Target, sky: seq<Pt>, w: nat, h: nat, none: bool, x: nat, y: nat, i: nat) {
    && w > 0 && h > 0 && t.align >= 1 && Proper(sky, t.width)
    && Best(sky, t.width, t.height, t.heuristic, none, x, y, i, AlignUp(w, t.align), h)
    && !none && y + h <= t.height && |sky| == t.numNodes + 2
  }

  /** The rectangles of before are served one after the other on a new target; then r finds no node. */
  ghost predicate RunsOutAfter(t: Target, trace: seq<Stock>, choices: seq<Choice>, before: seq<Rect>, after: seq<Rect>,
                               r: Rect, c: Choice)
  {
    && AllSuit(t, before) && Traced(t, trace, choices, before, after, |before|)
    && trace[0] == Stock([Pt(0, 0), Pt(t.width, 65535)], [])
    && Suits(t, r) && OutOfNodes(t, trace[|before|].sky, r.w, r.h, c.none, c.x, c.y, c.i)
  }

  /** Some run on a new target comes to an end for want of nodes only. */
  ghost predicate CanRunOut(t: Target) {
    exists trace, choices, before, after, r, c :: RunsOutAfter(t, trace, choices, before, after, r, c)
  }

  /** A target as stbrp_init_target leaves it. */
  predicate New(t: Target) {
    && 1 <= t.width <= 0xffff && t.height <= 0xffff && 1 <= t.numNodes
    && t.heuristic == BottomLeft && t.align == Quantum(t.width, t.numNodes)
  }

  /** Too few nodes: fewer than columns, and the rectangle after the last node has room beside the others or on top of them. */
  predicate TooFewNodes(t: Target) {
    t.numNodes < t.width && (t.height >= 2 || (t.height == 1 && t.numNodes + t.align <= t.width))
  }

  /**
   * The exact condition under which a new target may run out of nodes although its widths are rounded up so that it should
   * not.
   */
  lemma RunsOutIff(t: Target)
    requires New(t)
    ensures CanRunOut(t) <==> TooFewNodes(t)
  {
    if TooFewNodes(t) {
      RunsOut(t);
    }
    forall trace, choices, before, after, r, c | RunsOutAfter(t, trace, choices, before, after, r, c) ensures TooFewNodes(t) {
      OnlyWithTooFew(t, trace, choices, before, after, r, c);
    }
  }

  // ---- Unit squares use up the nodes ----

  /** k unit squares side by side, and the ground behind them. */
  function Row(k: nat, width: nat): seq<Pt> { seq(k, i requires 0 <= i < k => Pt(i, 1)) + [Pt(k, 0), Pt(width, 65535)] }

  lemma RowProper(k: nat, width: nat)
    requires k < width
    ensures Proper(Row(k, width), width)
  {
  }

  lemma {:induction false} NoneLowerFrom(sky: seq<Pt>, width: nat, w: nat, y: nat, i: nat, n: nat)
    requires Proper(sky, width) && n <= |sky| && forall k :: 0 <= k < n ==> NotLower(sky, width, w, y, i, k)
    ensures NoneLower(sky, width, w, y, i, n)
  {
    if n > 0 {
      NoneLowerFrom(sky, width, w, y, i, n - 1);
    }
  }

  /** On top of a square the columns do not rest at height 0. */
  lemma AboveRow(k: nat, width: nat, a: nat, j: nat)
    requires Proper(Row(k, width), width) && a > 0 && j < k && j + a <= width
    ensures RestAt(Row(k, width), width, a, j) >= 1
  {
    TopRests(Row(k, width), width, j, j + a);
    HeightIs(Row(k, width), width, j, j);
  }

  /** The best place beside a row is on the ground right behind it. */
  lemma BesideRow(k: nat, width: nat, height: nat, a: nat, h: nat)
    requires k < width && Proper(Row(k, width), width) && a > 0 && k + a <= width
    ensures Best(Row(k, width), width, height, BottomLeft, false, k, 0, k, a, h)
  {
    var sky := Row(k, width);
    TopFlat(sky, width, k, k, a, k);
    forall j | 0 <= j < |sky| ensures NotLower(sky, width, a, 0, k, j) {
      if j < k && j + a <= width {
        AboveRow(k, width, a, j);
      }
    }
    NoneLowerFrom(sky, width, a, 0, k, |sky|);
  }

  /** Two best places are the same. */
  lemma BestUnique(sky: seq<Pt>, width: nat, height: nat, a: nat, h: nat, x: nat, y: nat, i: nat,
                   none2: bool, x2: nat, y2: nat, i2: nat)
    requires Proper(sky, width) && Best(sky, width, height, BottomLeft, false, x, y, i, a, h)
    requires Best(sky, width, height, BottomLeft, none2, x2, y2, i2, a, h)
    ensures !none2 && x2 == x && y2 == y && i2 == i
  {
    if !none2 {
      NoneLowerAt(sky, width, a, y, i, |sky|, i2);
      NoneLowerAt(sky, width, a, y2, i2, |sky|, i);
    }
  }

  lemma RowGrows(k: nat, width: nat)
    requires k + 1 < width
    ensures Stops(Row(k, width), k, k, k, 1)
    ensures Stitch(Row(k, width), k, k, k, 1, 1) == Row(k + 1, width)
  {
  }

  lemma RowGrowsOnly(k: nat, width: nat, m: nat)
    requires k + 1 < width && Stops(Row(k, width), k, m, k, 1)
    ensures m == k
  {
  }

  /** Rounding up leaves room for as many single columns as there are nodes. */
  lemma QuantumRoom(width: nat, n: nat)
    requires 1 <= n < width
    ensures n - 1 + Quantum(width, n) <= width
  {
    QuantumSpans(width, n);
    var p := Quantum(width, n) - 1;
    assert p * n < width;
    if p > 0 {
      SumBelowProduct(p, n);
    }
  }

  lemma SumBelowProduct(p: int, n: int)
    requires p >= 1 && n >= 1
    ensures p + n - 1 <= p * n
  {
    assert (p - 1) * (n - 1) == p * n - p - n + 1;
    assert (p - 1) * (n - 1) >= 0;
  }

  lemma AlignOne(a: nat)
    requires a >= 1
    ensures AlignUp(1, a) == a
  {
  }

  /** Bottom-left finds a place whenever the columns fit. */
  lemma {:induction false} BestAmong(sky: seq<Pt>, width: nat, a: nat, n: nat) returns (y: nat, i: nat)
    requires Proper(sky, width) && a <= width && 1 <= n <= |sky|
    ensures BestLeft(sky, width, a, y, i, n)
  {
    if n == 1 {
      y, i := RestAt(sky, width, a, 0), 0;
      assert NoneLower(sky, width, a, y, 0, 0) && NotLower(sky, width, a, y, 0, 0);
    } else {
      y, i := BestAmong(sky, width, a, n - 1);
      if sky[n - 1].x + a <= width {
        var y2 := RestAt(sky, width, a, sky[n - 1].x);
        BestLeftExtends(sky, width, a, y, i, n - 1, y2);
        if y2 < y {
          y, i := y2, n - 1;
        }
      } else {
        assert NotLower(sky, width, a, y, i, n - 1);
      }
    }
  }

  lemma BestExists(sky: seq<Pt>, width: nat, height: nat, a: nat, h: nat) returns (x: nat, y: nat, i: nat)
    requires Proper(sky, width) && 0 < a <= width
    ensures Best(sky, width, height, BottomLeft, false, x, y, i, a, h)
  {
    y, i := BestAmong(sky, width, a, |sky|);
    x := sky[i].x;
    assert Steps(sky, i);
  }

  /** Nothing on a row of squares rests higher than 1. */
  lemma RowLow(k: nat, width: nat, x: nat, edge: nat)
    requires k < width && Proper(Row(k, width), width) && x <= edge <= width
    ensures Top(Row(k, width), width, x, edge) <= 1
  {
    var sky := Row(k, width);
    forall t: nat | x <= t < edge ensures Height(sky, width, t) <= 1 {
      var s := Segment(sky, t, 0);
      HeightIs(sky, width, t, s);
    }
    TopLeast(sky, width, x, edge, 1);
  }

  /** When the row uses up the nodes, the best place for one more square has room, but there is no node. */
  lemma FullRow(t: Target, none: bool, x: nat, y: nat, i: nat)
    requires New(t) && TooFewNodes(t) && Proper(Row(t.numNodes, t.width), t.width)
    requires Best(Row(t.numNodes, t.width), t.width, t.height, BottomLeft, none, x, y, i, AlignUp(1, t.align), 1)
    ensures OutOfNodes(t, Row(t.numNodes, t.width), 1, 1, none, x, y, i)
  {
    var n, a := t.numNodes, t.align;
    AlignOne(a);
    QuantumRoom(t.width, n);
    if n + a <= t.width {
      BesideRow(n, t.width, t.height, a, 1);
      BestUnique(Row(n, t.width), t.width, t.height, a, 1, n, 0, n, none, x, y, i);
    } else {
      RowLow(n, t.width, x, x + a);
    }
  }

  const UNIT: Rect := Rect(0, 1, 1, 0, 0, 0)

  lemma SquareServed(t: Target, k: nat, placed: seq<Area>) returns (c: Choice, r: Rect, s2: Stock)
    requires New(t) && t.height >= 1 && k < t.numNodes < t.width
    ensures s2.sky == Row(k + 1, t.width)
    ensures Served(t, Stock(Row(k, t.width), placed), UNIT, c, r, s2)
  {
    RowProper(k, t.width);
    AlignOne(t.align);
    QuantumRoom(t.width, t.numNodes);
    BesideRow(k, t.width, t.height, t.align, 1);
    RowGrows(k, t.width);
    c, r := Choice(false, k, 0, k, k), UNIT.(x := k, y := 0);
    s2 := Stock(Row(k + 1, t.width), placed + [Area(k, 0, 1, 1)]);
  }

  lemma {:induction false} SquaresServed(t: Target, k: nat, before: seq<Rect>)
      returns (trace: seq<Stock>, choices: seq<Choice>, after: seq<Rect>)
    requires New(t) && t.height >= 1 && k <= t.numNodes < t.width
    requires |before| == t.numNodes && forall l :: 0 <= l < |before| ==> before[l] == UNIT
    ensures Traced(t, trace, choices, before, after, k)
    ensures trace[0] == Stock([Pt(0, 0), Pt(t.width, 65535)], []) && trace[k].sky == Row(k, t.width)
  {
    if k == 0 {
      trace, choices, after := [Stock([Pt(0, 0), Pt(t.width, 65535)], [])], [], before;
    } else {
      trace, choices, after := SquaresServed(t, k - 1, before);
      var c, r, s2 := SquareServed(t, k - 1, trace[k - 1].placed);
      TracedExtends(t, trace, choices, before, after, k - 1, r, c, s2);
      trace, choices, after := trace + [s2], choices + [c], after[k - 1 := r];
    }
  }

  /** One unit square for each node, and one more. */
  lemma RunsOut(t: Target)
    requires New(t) && TooFewNodes(t)
    ensures CanRunOut(t)
  {
    var before := seq(t.numNodes, l => UNIT);
    var trace, choices, after := SquaresServed(t, t.numNodes, before);
    RowProper(t.numNodes, t.width);
    AlignOne(t.align);
    QuantumRoom(t.width, t.numNodes);
    var x, y, i := BestExists(Row(t.numNodes, t.width), t.width, t.height, t.align, 1);
    FullRow(t, false, x, y, i);
    assert RunsOutAfter(t, trace, choices, before, after, UNIT, Choice(false, x, y, i, 0));
  }

  // ---- Otherwise it cannot happen ----

  /** At height 1 everything up to the last segment is full. */
  ghost predicate FullBefore(sky: seq<Pt>) {
    |sky| >= 2 && sky[|sky| - 2].y <= 1 && forall j :: 0 <= j < |sky| - 2 ==> sky[j].y == 1
  }

  /** So a rectangle of height 1 can only go on the ground, which is the last segment. */
  lemma OnlyBehind(sky: seq<Pt>, width: nat, x: nat, y: nat, i: nat, a: nat, h: nat)
    requires Proper(sky, width) && FullBefore(sky) && h > 0 && y + h <= 1
    requires Best(sky, width, 1, BottomLeft, false, x, y, i, a, h)
    ensures i == |sky| - 2 && x == sky[i].x && x + a <= width && y == 0
  {
    TopRests(sky, width, x, x + a);
    HeightIs(sky, width, x, i);
  }

  lemma StaysFull(sky: seq<Pt>, width: nat, i: nat, m: nat, x: nat, w: nat)
    requires Proper(sky, width) && FullBefore(sky) && i == |sky| - 2 && x == sky[i].x && Stops(sky, i, m, x, w)
    ensures FullBefore(Stitch(sky, i, m, x, w, 1))
  {
    var sky2 := Stitch(sky, i, m, x, w, 1);
    forall j | 0 <= j < |sky2| - 2 ensures sky2[j].y == 1 {
      StitchAt(sky, i, m, x, w, 1, j);
    }
    StitchAt(sky, i, m, x, w, 1, |sky2| - 2);
  }

  lemma {:induction false} ReachedFull(t: Target, trace: seq<Stock>, choices: seq<Choice>, before: seq<Rect>, after: seq<Rect>, l: nat)
    requires t.heuristic == BottomLeft && t.height == 1 && l <= |before|
    requires Traced(t, trace, choices, before, after, |before|) && trace[0].sky == [Pt(0, 0), Pt(t.width, 65535)]
    ensures FullBefore(trace[l].sky)
  {
    if l > 0 {
      ReachedFull(t, trace, choices, before, after, l - 1);
      assert TracedAt(t, trace, choices, before, after, l - 1);
      ServedFull(t, trace[l - 1], before[l - 1], choices[l - 1], after[l - 1], trace[l]);
    }
  }

  lemma ServedFull(t: Target, s: Stock, r0: Rect, c: Choice, r: Rect, s2: Stock)
    requires t.heuristic == BottomLeft && t.height == 1 && Served(t, s, r0, c, r, s2) && FullBefore(s.sky)
    ensures FullBefore(s2.sky)
  {
    if !r0.Empty() && !c.none && c.y + r0.h <= 1 && |s.sky| != t.numNodes + 2 {
      OnlyBehind(s.sky, t.width, c.x, c.y, c.i, AlignUp(r0.w, t.align), r0.h);
      StaysFull(s.sky, t.width, c.i, c.m, c.x, r0.w);
    }
  }

  lemma OnlyWithTooFew(t: Target, trace: seq<Stock>, choices: seq<Choice>, before: seq<Rect>, after: seq<Rect>, r: Rect, c: Choice)
    requires New(t) && RunsOutAfter(t, trace, choices, before, after, r, c)
    ensures TooFewNodes(t)
  {
    var sky := trace[|before|].sky;
    ColumnsGrow(sky, |sky| - 1);
    if t.height == 1 {
      ReachedFull(t, trace, choices, before, after, |before|);
      OnlyBehind(sky, t.width, c.x, c.y, c.i, AlignUp(r.w, t.align), r.h);
      ColumnsGrow(sky, c.i);
      var q := AlignUpIsMultiple(r.w, t.align);
      AtLeastOnce(q, t.align);
    }
  }

  lemma AtLeastOnce(q: nat, a: nat)
    requires q * a > 0
    ensures q * a >= a
  {
    assert q >= 1;
  }

  // ---- The code itself ----

  /** One more square in the row. */
  method AddSquare(c: Context, k: nat)
    requires c.Valid() && New(TargetOf(c)) && c.height >= 1 && k < c.numNodes < c.width && c.sky == Row(k, c.width)
    modifies c`activeHead, c`freeHead, c`active, c`free, c`sky, c`placed, c.pool
    ensures c.Valid() && c.sky == Row(k + 1, c.width) && c.placed == old(c.placed) + [Area(k, 0, 1, 1)]
  {
    AlignOne(c.align);
    QuantumRoom(c.width, c.numNodes);
    BesideRow(k, c.width, c.height, c.align, 1);
    RowGrows(k, c.width);
    ghost var none, x, y, i, m;
    var r;
    r, none, x, y, i, m := c.PackRectangle(1, 1);
    BestUnique(Row(k, c.width), c.width, c.height, c.align, 1, k, 0, k, none, x, y, i);
    RowGrowsOnly(k, c.width, m);
  }

  /** At the end of the row there is a place, but no node. */
  method Refused(c: Context) returns (r: FindResult, ghost none: bool, ghost x: nat, ghost y: nat, ghost i: nat)
    requires c.Valid() && New(TargetOf(c)) && TooFewNodes(TargetOf(c)) && c.sky == Row(c.numNodes, c.width)
    modifies c`activeHead, c`freeHead, c`active, c`free, c`sky, c`placed, c.pool
    ensures c.Valid() && c.placed == old(c.placed) && r.link.NoLink? && c.free == []
    ensures OutOfNodes(TargetOf(c), c.sky, 1, 1, none, x, y, i)
  {
    ghost var m;
    r, none, x, y, i, m := c.PackRectangle(1, 1);
    FullRow(TargetOf(c), none, x, y, i);
  }

  /** On a new target with too few nodes, one unit square for each node is placed, and the next one is refused for want of a node. */
  method RunOut(c: Context) returns (r: FindResult, ghost none: bool, ghost x: nat, ghost y: nat, ghost i: nat)
    requires c.Valid() && c.sky == [Pt(0, 0), Pt(c.width, 65535)] && New(TargetOf(c)) && TooFewNodes(TargetOf(c))
    modifies c`activeHead, c`freeHead, c`active, c`free, c`sky, c`placed, c.pool
    ensures c.Valid() && |c.placed| == |old(c.placed)| + c.numNodes && r.link.NoLink? && c.free == []
    ensures OutOfNodes(TargetOf(c), c.sky, 1, 1, none, x, y, i)
  {
    var k := 0;
    while k < c.numNodes
      invariant k <= c.numNodes && c.Valid() && c.sky == Row(k, c.width)
      invariant |c.placed| == |old(c.placed)| + k
    {
      AddSquare(c, k);
      k := k + 1;
    }
    r, none, x, y, i := Refused(c);
  }

  method NewTargetRunsOut(width: nat, height: nat, nodes: seq<Node>)
      returns (c: Context, r: FindResult, ghost none: bool, ghost x: nat, ghost y: nat, ghost i: nat)
    requires 1 <= |nodes| < width <= 0xffff && RectPack.Distinct(nodes)
    requires 2 <= height <= 0xffff || (height == 1 && |nodes| + Quantum(width, |nodes|) <= width)
    modifies nodes
    ensures c.Valid() && New(TargetOf(c)) && c.width == width && c.height == height && c.numNodes == |nodes| == |c.placed|
    ensures r.link.NoLink? && c.free == [] && OutOfNodes(TargetOf(c), c.sky, 1, 1, none, x, y, i)
  {
    c := new Context.InitTarget(width, height, nodes);
    r, none, x, y, i := RunOut(c);
  }
}
