/** stb_rect_pack: packing an array of rectangles; the library sort is a parameter. */
module PackRects {
  import opened Skyline
  import opened RectPack

  const MAXVAL: nat := 0xffff

  /** stbrp_rect; wasPacked doubles as the original index while the array is sorted. */
  datatype Rect = Rect(id: int, w: nat, h: nat, x: nat, y: nat, wasPacked: int) {
    predicate Empty() { w == 0 || h == 0 }

    predicate Refused() { x == MAXVAL && y == MAXVAL }

    function Spot(): Area { Area(x, y, w, h) }
  }

  /** rect_height_compare */
  function HeightCompare(p: Rect, q: Rect): int {
    if p.h > q.h then -1
    else if p.h < q.h then 1
    else if p.w > q.w then -1
    else if p.w < q.w then 1 else 0
  }

  /** rect_original_order */
  function OriginalOrder(p: int, q: int): int {
    if p < q then -1 else if p > q then 1 else 0
  }

  ghost predicate Permutation(perm: seq<nat>, n: nat) {
    && |perm| == n
    && Within(perm, n)
    && forall i, j :: 0 <= i < j < n ==> Differ(perm, i, j)
  }

  ghost predicate Differ(perm: seq<nat>, i: nat, j: nat) { i < |perm| && j < |perm| && perm[i] != perm[j] }

  /** order is what the library sort may do to the tagged array, and back is what it does to undo that. */
  ghost predicate SortsAndUnsorts(rects: seq<Rect>, order: seq<nat>, back: seq<nat>) {
    && Permutation(order, |rects|) && Permutation(back, |rects|)
    && (forall i, j {:trigger HeightCompare(rects[order[i]], rects[order[j]])} :: 0 <= i < j < |rects| ==>
      HeightCompare(rects[order[i]], rects[order[j]]) <= 0)
    && (forall i, j {:trigger OriginalOrder(order[back[i]], order[back[j]])} :: 0 <= i < j < |rects| ==>
      OriginalOrder(order[back[i]], order[back[j]]) <= 0)
  }

  /** In this order the rectangles get lower, or as high and narrower. */
  ghost predicate Descending(rects: seq<Rect>, order: seq<nat>) {
    Within(order, |rects|) && forall i, j :: 0 <= i < j < |order| ==> NotLowerThan(rects, order, i, j)
  }

  ghost predicate NotLowerThan(rects: seq<Rect>, order: seq<nat>, i: nat, j: nat)
    requires i < |order| && j < |order| && order[i] < |rects| && order[j] < |rects|
  {
    rects[order[i]].h > rects[order[j]].h || (rects[order[i]].h == rects[order[j]].h && rects[order[i]].w >= rects[order[j]].w)
  }

  /** The comparator lets the library sort do nothing else. */
  lemma SortedDescends(rects: seq<Rect>, order: seq<nat>, back: seq<nat>)
    requires SortsAndUnsorts(rects, order, back)
    ensures Descending(rects, order)
  {
    forall i, j | 0 <= i < j < |order| ensures NotLowerThan(rects, order, i, j) {
      assert HeightCompare(rects[order[i]], rects[order[j]]) <= 0;
    }
  }

  /** And it allows all such orders. */
  lemma DescendingSorts(rects: seq<Rect>, order: seq<nat>, back: seq<nat>)
    requires Permutation(order, |rects|) && Permutation(back, |rects|) && Descending(rects, order)
    requires forall i :: 0 <= i < |rects| ==> order[back[i]] == i
    ensures SortsAndUnsorts(rects, order, back)
  {
    forall i, j | 0 <= i < j < |rects| ensures HeightCompare(rects[order[i]], rects[order[j]]) <= 0 {
      assert NotLowerThan(rects, order, i, j);
    }
  }

  /** Sorting by the tags can only restore the original order. */
  lemma UnsortRestores(order: seq<nat>, back: seq<nat>, n: nat)
    requires Permutation(order, n) && Permutation(back, n)
    requires forall i, j {:trigger OriginalOrder(order[back[i]], order[back[j]])} :: 0 <= i < j < n ==>
      OriginalOrder(order[back[i]], order[back[j]]) <= 0
    ensures forall i :: 0 <= i < n ==> order[back[i]] == i
    ensures forall i :: 0 <= i < n ==> back[order[i]] == i
  {
    var tags := seq(n, i requires 0 <= i < n => order[back[i]]);
    forall i, j | 0 <= i < j < n ensures tags[i] < tags[j] {
      assert Differ(back, i, j);
      assert OriginalOrder(order[back[i]], order[back[j]]) <= 0;
      assert if back[i] < back[j] then Differ(order, back[i], back[j]) else Differ(order, back[j], back[i]);
    }
    forall i | 0 <= i < n ensures order[back[i]] == i {
      ClimbsFrom(tags, i);
      ClimbsTo(tags, i);
    }
    forall i | 0 <= i < n ensures back[order[i]] == i {
      var k := back[order[i]];
      if k != i {
        Injective(order, n, k, i);
      }
    }
  }

  lemma Injective(perm: seq<nat>, n: nat, i: nat, j: nat)
    requires Permutation(perm, n) && i < n && j < n && i != j
    ensures perm[i] != perm[j]
  {
    if i < j {
      assert Differ(perm, i, j);
    } else {
      assert Differ(perm, j, i);
    }
  }

  lemma {:induction false} ClimbsFrom(tags: seq<nat>, i: nat)
    requires i < |tags| && forall k, l :: 0 <= k < l < |tags| ==> tags[k] < tags[l]
    ensures i <= tags[i]
  {
    if i > 0 {
      ClimbsFrom(tags, i - 1);
    }
  }

  lemma {:induction false} ClimbsTo(tags: seq<nat>, i: nat)
    requires i < |tags| && forall k, l :: 0 <= k < l < |tags| ==> tags[k] < tags[l]
    requires forall k :: 0 <= k < |tags| ==> tags[k] < |tags|
    ensures tags[i] <= i
    decreases |tags| - i
  {
    if i < |tags| - 1 {
      ClimbsTo(tags, i + 1);
    }
  }

  /** The effect of the library sort, once it has settled on an order. */
  method Rearrange(rects: array<Rect>, perm: seq<nat>)
    requires Permutation(perm, rects.Length)
    modifies rects
    ensures forall k :: 0 <= k < rects.Length ==> rects[k] == old(rects[perm[k]])
  {
    var s := rects[..];
    var k := 0;
    while k < rects.Length
      invariant 0 <= k <= rects.Length
      invariant forall l :: 0 <= l < k ==> rects[l] == s[perm[l]]
    {
      rects[k] := s[perm[k]];
      k := k + 1;
    }
  }

  /** Lines 550-555. */
  method Tag(rects: array<Rect>)
    modifies rects
    ensures forall k :: 0 <= k < rects.Length ==> rects[k] == old(rects[k]).(wasPacked := k)
  {
    var i := 0;
    while i < rects.Length
      invariant 0 <= i <= rects.Length
      invariant forall k :: 0 <= k < i ==> rects[k] == old(rects[k]).(wasPacked := k)
      invariant forall k :: i <= k < rects.Length ==> rects[k] == old(rects[k])
    {
      rects[i] := rects[i].(wasPacked := i);
      i := i + 1;
    }
  }

  /** Lines 577-579. */
  method SetFlags(rects: array<Rect>)
    modifies rects
    ensures forall k :: 0 <= k < rects.Length ==> rects[k] == old(rects[k]).(wasPacked := if old(rects[k]).Refused() then 0 else 1)
  {
    var i := 0;
    while i < rects.Length
      invariant 0 <= i <= rects.Length
      invariant forall k :: 0 <= k < i ==> rects[k] == old(rects[k]).(wasPacked := if old(rects[k]).Refused() then 0 else 1)
      invariant forall k :: i <= k < rects.Length ==> rects[k] == old(rects[k])
    {
      rects[i] := rects[i].(wasPacked := if rects[i].Refused() then 0 else 1);
      i := i + 1;
    }
  }

  /** The rectangles at positions at of the array are exactly the non-empty ones packed so far, and lie at placed[base..]. */
  ghost predicate Recorded(rects: seq<Rect>, k: nat, at: seq<nat>, placed: seq<Area>, base: nat)
    requires k <= |rects|
  {
    && |placed| == base + |at|
    && (forall p :: 0 <= p < |at| ==> at[p] < k && !rects[at[p]].Empty() && !rects[at[p]].Refused() && placed[base + p] == rects[at[p]].Spot())
    && (forall p, q :: 0 <= p < q < |at| ==> at[p] < at[q])
    && (forall m :: 0 <= m < k && !rects[m].Empty() && !rects[m].Refused() ==> m in at)
    && (forall m :: 0 <= m < k && rects[m].Empty() ==> rects[m].x == 0 && rects[m].y == 0)
  }

  /** Only x and y have changed. */
  ghost predicate Moved(a: seq<Rect>, b: seq<Rect>) {
    |a| == |b| && forall k :: 0 <= k < |b| ==> b[k] == a[k].(x := b[k].x, y := b[k].y)
  }

  /** What does not change about a target, what does, and where a rectangle goes. */
  datatype Target = Target(width: nat, height: nat, align: nat, numNodes: nat, heuristic: Heuristic)

  datatype Stock = Stock(sky: seq<Pt>, placed: seq<Area>)

  datatype Choice = Choice(none: bool, x: nat, y: nat, i: nat, m: nat)

  ghost function TargetOf(c: Context): Target
    reads c`width, c`height, c`align, c`numNodes, c`heuristic
  {
    Target(c.width, c.height, c.align, c.numNodes, c.heuristic)
  }

  ghost function StockOf(c: Context): Stock
    reads c`sky, c`placed
  {
    Stock(c.sky, c.placed)
  }

  /** Sides are unsigned short; and best-fit must not be asked for widths that do not fit the target. */
  predicate Suits(t: Target, r: Rect) {
    r.w <= MAXVAL && r.h <= MAXVAL && (t.heuristic == BestFit && !r.Empty() ==> t.align >= 1 && AlignUp(r.w, t.align) <= t.width)
  }

  predicate AllSuit(t: Target, rects: seq<Rect>) { forall k :: 0 <= k < |rects| ==> Suits(t, rects[k]) }

  /**
   * One rectangle is served: an empty one at the origin, any other at the best place, unless there is none, the place has
   * no vertical room, or all nodes are in use; then it is refused and nothing changes.
   */
  ghost predicate Served(t: Target, s: Stock, r0: Rect, c: Choice, r: Rect, s2: Stock) {
    if r0.Empty() then r == r0.(x := 0, y := 0) && s2 == s
    else
      && t.align >= 1 && Proper(s.sky, t.width)
      && Best(s.sky, t.width, t.height, t.heuristic, c.none, c.x, c.y, c.i, AlignUp(r0.w, t.align), r0.h)
      && if c.none || c.y + r0.h > t.height || |s.sky| == t.numNodes + 2 then r == r0.(x := MAXVAL, y := MAXVAL) && s2 == s
         else
           && r == r0.(x := c.x, y := c.y) && Stops(s.sky, c.i, c.m, c.x, r0.w)
           && s2 == Stock(Stitch(s.sky, c.i, c.m, c.x, r0.w, c.y + r0.h), s.placed + [Area(c.x, c.y, r0.w, r0.h)])
  }

  /** Lines 562-571: one rectangle; the empty ones need no space, and MAXVAL marks the refused ones. */
  method PackOne(c: Context, r0: Rect) returns (r: Rect, ghost ch: Choice)
    requires c.Valid()
    requires Suits(TargetOf(c), r0)
    modifies c`activeHead, c`freeHead, c`active, c`free, c`sky, c`placed, c.pool
    ensures c.Valid()
    ensures r == r0.(x := r.x, y := r.y)
    ensures Served(TargetOf(c), old(StockOf(c)), r0, ch, r, StockOf(c))
    ensures r.Empty() ==> r.x == 0 && r.y == 0
    ensures c.placed == if r.Empty() || r.Refused() then old(c.placed) else old(c.placed) + [r.Spot()]
  {
    if r0.w == 0 || r0.h == 0 {
      r, ch := r0.(x := 0, y := 0), Choice(true, 0, 0, 0, 0);
    } else {
      r, ch := PackFull(c, r0);
    }
  }

  /** Lines 564-570: a rectangle that needs space. */
  method PackFull(c: Context, r0: Rect) returns (r: Rect, ghost ch: Choice)
    requires c.Valid() && !r0.Empty() && Suits(TargetOf(c), r0)
    modifies c`activeHead, c`freeHead, c`active, c`free, c`sky, c`placed, c.pool
    ensures c.Valid()
    ensures r == r0.(x := r.x, y := r.y)
    ensures Served(TargetOf(c), old(StockOf(c)), r0, ch, r, StockOf(c))
    ensures c.placed == if r.Refused() then old(c.placed) else old(c.placed) + [r.Spot()]
  {
    var fr;
    ghost var none, x, y, i, m;
    fr, none, x, y, i, m := c.PackRectangle(r0.w, r0.h);
    ch := Choice(none, x, y, i, m);
    if !fr.link.NoLink? {
      r := r0.(x := Coord(fr.x), y := Coord(fr.y));
    } else {
      r := r0.(x := MAXVAL, y := MAXVAL);
    }
  }

  method PackNext(c: Context, rects: array<Rect>, i: nat) returns (ghost ch: Choice)
    requires c.Valid() && i < rects.Length
    requires Suits(TargetOf(c), rects[i])
    modifies rects, c`activeHead, c`freeHead, c`active, c`free, c`sky, c`placed, c.pool
    ensures c.Valid()
    ensures rects[..] == old(rects[..])[i := rects[i]]
    ensures rects[i] == old(rects[i]).(x := rects[i].x, y := rects[i].y)
    ensures Served(TargetOf(c), old(StockOf(c)), old(rects[i]), ch, rects[i], StockOf(c)) && TargetOf(c) == old(TargetOf(c))
    ensures rects[i].Empty() ==> rects[i].x == 0 && rects[i].y == 0
    ensures c.placed == if rects[i].Empty() || rects[i].Refused() then old(c.placed) else old(c.placed) + [rects[i].Spot()]
  {
    var r;
    r, ch := PackOne(c, rects[i]);
    rects[i] := r;
  }

  /** The first k rectangles were served one after the other, each on what the one before left. */
  ghost predicate Traced(t: Target, trace: seq<Stock>, choices: seq<Choice>, before: seq<Rect>, after: seq<Rect>, k: nat) {
    && |trace| == k + 1 && |choices| == k <= |before| == |after|
    && forall l :: 0 <= l < k ==> TracedAt(t, trace, choices, before, after, l)
  }

  ghost predicate TracedAt(t: Target, trace: seq<Stock>, choices: seq<Choice>, before: seq<Rect>, after: seq<Rect>, l: nat) {
    && l + 1 < |trace| && l < |choices| && l < |before| && l < |after|
    && Served(t, trace[l], before[l], choices[l], after[l], trace[l + 1])
  }

  lemma TracedExtends(t: Target, trace: seq<Stock>, choices: seq<Choice>, before: seq<Rect>, after: seq<Rect>, k: nat,
                      r: Rect, ch: Choice, s2: Stock)
    requires Traced(t, trace, choices, before, after, k) && k < |before|
    requires Served(t, trace[k], before[k], ch, r, s2)
    ensures Traced(t, trace + [s2], choices + [ch], before, after[k := r], k + 1)
  {
    var trace2, choices2, after2 := trace + [s2], choices + [ch], after[k := r];
    forall l | 0 <= l < k + 1 ensures TracedAt(t, trace2, choices2, before, after2, l) {
      if l < k {
        assert TracedAt(t, trace, choices, before, after, l);
        assert trace2[l] == trace[l] && trace2[l + 1] == trace[l + 1] && choices2[l] == choices[l] && after2[l] == after[l];
      }
    }
  }

  /** The state of the loop before the rectangle at i: before is the array at its start, and base what had been placed then. */
  ghost predicate Progress(t: Target, before: seq<Rect>, rects: seq<Rect>, i: nat, at: seq<nat>, base: nat, s: Stock,
                           trace: seq<Stock>, choices: seq<Choice>) {
    && i <= |before| == |rects| && Moved(before, rects) && (forall k :: i <= k < |rects| ==> rects[k] == before[k])
    && Recorded(rects, i, at, s.placed, base)
    && Traced(t, trace, choices, before, rects, i) && trace[i] == s
  }

  lemma ProgressStep(t: Target, before: seq<Rect>, rects: seq<Rect>, i: nat, at: seq<nat>, base: nat, s: Stock,
                     trace: seq<Stock>, choices: seq<Choice>, ch: Choice, rects2: seq<Rect>, s2: Stock)
      returns (at2: seq<nat>)
    requires Progress(t, before, rects, i, at, base, s, trace, choices) && i < |rects| == |rects2| && rects2 == rects[i := rects2[i]]
    requires Served(t, s, before[i], ch, rects2[i], s2) && rects2[i] == before[i].(x := rects2[i].x, y := rects2[i].y)
    requires rects2[i].Empty() ==> rects2[i].x == 0 && rects2[i].y == 0
    requires s2.placed == if rects2[i].Empty() || rects2[i].Refused() then s.placed else s.placed + [rects2[i].Spot()]
    ensures Progress(t, before, rects2, i + 1, at2, base, s2, trace + [s2], choices + [ch])
  {
    at2 := if rects2[i].Empty() || rects2[i].Refused() then at else at + [i];
    RecordedExtends(rects, rects2, i, at, at2, s.placed, s2.placed, base);
    TracedExtends(t, trace, choices, before, rects, i, rects2[i], ch, s2);
  }

  /** Lines 561-572: pack the rectangles in the order of the sorted array. */
  method PackSorted(c: Context, rects: array<Rect>) returns (ghost at: seq<nat>, ghost trace: seq<Stock>, ghost choices: seq<Choice>)
    requires c.Valid()
    requires AllSuit(TargetOf(c), rects[..])
    modifies rects, c`activeHead, c`freeHead, c`active, c`free, c`sky, c`placed, c.pool
    ensures c.Valid() && old(c.placed) <= c.placed && TargetOf(c) == old(TargetOf(c))
    ensures Progress(TargetOf(c), old(rects[..]), rects[..], rects.Length, at, |old(c.placed)|, StockOf(c), trace, choices)
    ensures trace[0] == old(StockOf(c))
  {
    var i := 0;
    ghost var t, before, base := TargetOf(c), rects[..], |c.placed|;
    at, trace, choices := [], [StockOf(c)], [];
    while i < rects.Length
      invariant 0 <= i <= rects.Length
      invariant c.Valid() && old(c.placed) <= c.placed && TargetOf(c) == t
      invariant Progress(t, before, rects[..], i, at, base, StockOf(c), trace, choices)
      invariant trace[0] == old(StockOf(c))
    {
      assert rects[i] == before[i];
      ghost var rects1, s1 := rects[..], StockOf(c);
      ghost var ch := PackNext(c, rects, i);
      at := ProgressStep(t, before, rects1, i, at, base, s1, trace, choices, ch, rects[..], StockOf(c));
      trace, choices := trace + [StockOf(c)], choices + [ch];
      i := i + 1;
    }
  }

  lemma RecordedExtends(before: seq<Rect>, rects: seq<Rect>, k: nat, at0: seq<nat>, at: seq<nat>, placed0: seq<Area>, placed: seq<Area>, base: nat)
    requires k < |before| == |rects| && rects == before[k := rects[k]]
    requires Recorded(before, k, at0, placed0, base)
    requires if rects[k].Empty() then at == at0 && placed == placed0 && rects[k].x == 0 && rects[k].y == 0
      else if rects[k].Refused() then at == at0 && placed == placed0
      else at == at0 + [k] && placed == placed0 + [rects[k].Spot()]
    ensures Recorded(rects, k + 1, at, placed, base)
  {
  }

  /** Flagged as packed, and taking up space. */
  predicate Sits(r: Rect) { r.wasPacked == 1 && !r.Empty() }

  /** The caller's rectangles at positions who are exactly those that sit, and they are the last |who| placed. */
  ghost predicate Delivered(rects: seq<Rect>, who: seq<nat>, placed: seq<Area>, base: nat) {
    && |placed| == base + |who|
    && (forall p :: 0 <= p < |who| ==> who[p] < |rects| && placed[base + p] == rects[who[p]].Spot())
    && (forall p, q :: 0 <= p < q < |who| ==> who[p] != who[q])
    && (forall i :: 0 <= i < |rects| ==> (Sits(rects[i]) <==> i in who))
  }

  /** The caller's fields are kept, in the caller's order; the rest is the result. */
  ghost predicate Answered(before: seq<Rect>, rects: seq<Rect>) {
    && |before| == |rects|
    && forall i :: 0 <= i < |rects| ==>
      && rects[i].id == before[i].id && rects[i].w == before[i].w && rects[i].h == before[i].h
      && rects[i].wasPacked == if rects[i].Refused() then 0 else 1
  }

  lemma Unsorted(before: seq<Rect>, order: seq<nat>, back: seq<nat>, sorted: seq<Rect>, packed: seq<Rect>, rects: seq<Rect>,
                 at: seq<nat>, placed: seq<Area>, base: nat) returns (who: seq<nat>)
    requires SortsAndUnsorts(before, order, back)
    requires |before| == |sorted| == |packed| == |rects|
    requires forall k :: 0 <= k < |sorted| ==> sorted[k] == before[order[k]].(wasPacked := order[k])
    requires Moved(sorted, packed) && Recorded(packed, |packed|, at, placed, base)
    requires forall k :: 0 <= k < |rects| ==> rects[k] == packed[back[k]].(wasPacked := if packed[back[k]].Refused() then 0 else 1)
    ensures Answered(before, rects) && Delivered(rects, who, placed, base)
  {
    UnsortRestores(order, back, |before|);
    who := seq(|at|, p requires 0 <= p < |at| => order[at[p]]);
    assert forall i :: 0 <= i < |rects| ==> packed[back[i]].id == before[i].id && packed[back[i]].w == before[i].w && packed[back[i]].h == before[i].h;
    DeliveredBack(order, back, packed, rects, at, who, placed, base);
  }

  lemma DeliveredBack(order: seq<nat>, back: seq<nat>, packed: seq<Rect>, rects: seq<Rect>,
                      at: seq<nat>, who: seq<nat>, placed: seq<Area>, base: nat)
    requires |packed| == |rects| && Permutation(order, |rects|) && Permutation(back, |rects|)
    requires forall i :: 0 <= i < |rects| ==> order[back[i]] == i && back[order[i]] == i
    requires Recorded(packed, |packed|, at, placed, base)
    requires |who| == |at| && forall p :: 0 <= p < |who| ==> who[p] == order[at[p]]
    requires forall k :: 0 <= k < |rects| ==> rects[k] == packed[back[k]].(wasPacked := if packed[back[k]].Refused() then 0 else 1)
    ensures Delivered(rects, who, placed, base)
  {
    forall i | 0 <= i < |rects| ensures Sits(rects[i]) <==> i in who {
      var m := back[i];
      if Sits(rects[i]) {
        var p :| 0 <= p < |at| && at[p] == m;
        assert who[p] == i;
      }
    }
  }

  /** Those flagged as packed lie inside the target, apart from each other and from what was placed earlier. */
  ghost predicate Apart(rects: seq<Rect>, earlier: seq<Area>, width: nat, height: nat) {
    && (forall i :: 0 <= i < |rects| && Sits(rects[i]) ==> Inside(rects[i].Spot(), width, height))
    && (forall i, j {:trigger Disjoint(rects[i].Spot(), rects[j].Spot())} :: 0 <= i < j < |rects| && Sits(rects[i]) && Sits(rects[j]) ==>
      Disjoint(rects[i].Spot(), rects[j].Spot()))
    && (forall i, p {:trigger Disjoint(earlier[p], rects[i].Spot())} :: 0 <= i < |rects| && Sits(rects[i]) && 0 <= p < |earlier| ==>
      Disjoint(earlier[p], rects[i].Spot()))
  }

  lemma SitsAt(rects: seq<Rect>, who: seq<nat>, placed: seq<Area>, base: nat, i: nat) returns (p: nat)
    requires Delivered(rects, who, placed, base) && i < |rects| && Sits(rects[i])
    ensures p < |who| && who[p] == i && base + p < |placed| && placed[base + p] == rects[i].Spot()
  {
    p :| p < |who| && who[p] == i;
  }

  lemma SitsInside(rects: seq<Rect>, who: seq<nat>, placed: seq<Area>, base: nat, sky: seq<Pt>, width: nat, height: nat, i: nat)
    requires Delivered(rects, who, placed, base) && Packed(sky, width, height, placed) && i < |rects| && Sits(rects[i])
    ensures Inside(rects[i].Spot(), width, height)
    ensures forall p :: 0 <= p < base ==> Disjoint(placed[p], rects[i].Spot())
  {
    var p := SitsAt(rects, who, placed, base, i);
  }

  lemma SitApart(rects: seq<Rect>, who: seq<nat>, placed: seq<Area>, base: nat, sky: seq<Pt>, width: nat, height: nat, i: nat, j: nat)
    requires Delivered(rects, who, placed, base) && Packed(sky, width, height, placed)
    requires i < j < |rects| && Sits(rects[i]) && Sits(rects[j])
    ensures Disjoint(rects[i].Spot(), rects[j].Spot())
  {
    var p := SitsAt(rects, who, placed, base, i);
    var q := SitsAt(rects, who, placed, base, j);
    if p < q {
      assert Disjoint(placed[base + p], placed[base + q]);
    } else {
      assert Disjoint(placed[base + q], placed[base + p]);
    }
  }

  lemma DeliveredApart(rects: seq<Rect>, who: seq<nat>, placed: seq<Area>, base: nat, sky: seq<Pt>, width: nat, height: nat)
    requires Delivered(rects, who, placed, base) && Packed(sky, width, height, placed)
    ensures base <= |placed| && Apart(rects, placed[..base], width, height)
  {
    forall i | 0 <= i < |rects| && Sits(rects[i])
      ensures Inside(rects[i].Spot(), width, height) && forall p :: 0 <= p < base ==> Disjoint(placed[p], rects[i].Spot())
    {
      SitsInside(rects, who, placed, base, sky, width, height, i);
    }
    forall i, j | 0 <= i < j < |rects| && Sits(rects[i]) && Sits(rects[j]) ensures Disjoint(rects[i].Spot(), rects[j].Spot()) {
      SitApart(rects, who, placed, base, sky, width, height, i, j);
    }
  }

  /** The rectangles were served in the order of the library sort, one after the other. */
  ghost predicate ServedInOrder(t: Target, trace: seq<Stock>, choices: seq<Choice>, before: seq<Rect>, rects: seq<Rect>, order: seq<nat>)
    requires Permutation(order, |before|) && |before| == |rects|
  {
    && |trace| == |before| + 1 && |choices| == |before|
    && forall l :: 0 <= l < |choices| ==> ServedAt(t, trace, choices, before, rects, order, l)
  }

  /** The rectangle that is l-th in the order was served l-th, whatever the tags. */
  ghost predicate ServedAt(t: Target, trace: seq<Stock>, choices: seq<Choice>, before: seq<Rect>, rects: seq<Rect>, order: seq<nat>, l: nat)
    requires l < |order| && l < |choices| && l + 1 < |trace| && order[l] < |before| && order[l] < |rects|
  {
    var r0, r := before[order[l]], rects[order[l]];
    Served(t, trace[l], r0, choices[l], r.(wasPacked := r0.wasPacked), trace[l + 1])
  }

  lemma TagsDoNotMatter(t: Target, s: Stock, r0: Rect, c: Choice, r: Rect, s2: Stock, p0: Rect, p: Rect)
    requires Served(t, s, p0, c, p, s2) && r0 == p0.(wasPacked := r0.wasPacked) && r == p.(wasPacked := r.wasPacked)
    ensures Served(t, s, r0, c, r.(wasPacked := r0.wasPacked), s2)
  {
  }

  lemma TraceUnsorted(t: Target, trace: seq<Stock>, choices: seq<Choice>, before: seq<Rect>, order: seq<nat>, back: seq<nat>,
                      sorted: seq<Rect>, packed: seq<Rect>, rects: seq<Rect>)
    requires SortsAndUnsorts(before, order, back)
    requires |before| == |sorted| == |packed| == |rects|
    requires forall k :: 0 <= k < |sorted| ==> sorted[k] == before[order[k]].(wasPacked := order[k])
    requires forall k :: 0 <= k < |rects| ==> rects[k] == packed[back[k]].(wasPacked := if packed[back[k]].Refused() then 0 else 1)
    requires Traced(t, trace, choices, sorted, packed, |sorted|)
    ensures ServedInOrder(t, trace, choices, before, rects, order)
  {
    UnsortRestores(order, back, |before|);
    forall l | 0 <= l < |choices|
      ensures ServedAt(t, trace, choices, before, rects, order, l)
    {
      assert TracedAt(t, trace, choices, sorted, packed, l);
      TagsDoNotMatter(t, trace[l], before[order[l]], choices[l], rects[order[l]], trace[l + 1], sorted[l], packed[l]);
    }
  }

  /**
   * stbrp_pack_rects. Whatever order the library sort settles on, the rectangles are served in it, each at the best place
   * that is left, and the caller gets every rectangle back where it was; those flagged as packed lie inside the target,
   * apart from each other and from everything placed by earlier calls.
   */
  method PackRects(c: Context, rects: array<Rect>, order: seq<nat>, back: seq<nat>)
      returns (ghost who: seq<nat>, ghost trace: seq<Stock>, ghost choices: seq<Choice>)
    requires c.Valid() && SortsAndUnsorts(rects[..], order, back)
    requires AllSuit(TargetOf(c), rects[..])
    modifies rects, c`activeHead, c`freeHead, c`active, c`free, c`sky, c`placed, c.pool
    ensures c.Valid() && old(c.placed) <= c.placed
    ensures Answered(old(rects[..]), rects[..]) && Delivered(rects[..], who, c.placed, |old(c.placed)|)
    ensures Apart(rects[..], old(c.placed), c.width, c.height)
    ensures ServedInOrder(TargetOf(c), trace, choices, old(rects[..]), rects[..], order) && Descending(old(rects[..]), order)
    ensures trace[0] == old(StockOf(c)) && trace[rects.Length] == StockOf(c)
  {
    ghost var before, base := rects[..], |c.placed|;
    SortedDescends(before, order, back);
    Sort(c, rects, order);
    ghost var sorted := rects[..];
    ghost var at;
    at, trace, choices := PackSorted(c, rects);
    ghost var packed := rects[..];
    Unsort(c, rects, back);
    who := Concluded(TargetOf(c), before, order, back, sorted, packed, rects[..], at, base, StockOf(c), trace, choices);
    assert c.placed[..base] == old(c.placed);
  }

  /** The tagged array in sorted order, and the packed one, flagged, in the caller's order. */
  function Tagged(before: seq<Rect>, order: seq<nat>): (s: seq<Rect>)
    requires Within(order, |before|)
    ensures |s| == |order|
  {
    if order == [] then [] else
      var n := |order| - 1;
      Tagged(before, order[..n]) + [before[order[n]].(wasPacked := order[n])]
  }

  function Flagged(packed: seq<Rect>, back: seq<nat>): (s: seq<Rect>)
    requires Within(back, |packed|)
    ensures |s| == |back|
  {
    if back == [] then [] else
      var n := |back| - 1;
      Flagged(packed, back[..n]) + [packed[back[n]].(wasPacked := if packed[back[n]].Refused() then 0 else 1)]
  }

  predicate Within(perm: seq<nat>, n: nat) { forall k :: 0 <= k < |perm| ==> perm[k] < n }

  lemma {:induction false} TaggedAt(before: seq<Rect>, order: seq<nat>, k: nat)
    requires Within(order, |before|) && k < |order|
    ensures Tagged(before, order)[k] == before[order[k]].(wasPacked := order[k])
  {
    if k < |order| - 1 {
      TaggedAt(before, order[..|order| - 1], k);
    }
  }

  lemma {:induction false} FlaggedAt(packed: seq<Rect>, back: seq<nat>, k: nat)
    requires Within(back, |packed|) && k < |back|
    ensures Flagged(packed, back)[k] == packed[back[k]].(wasPacked := if packed[back[k]].Refused() then 0 else 1)
  {
    if k < |back| - 1 {
      FlaggedAt(packed, back[..|back| - 1], k);
    }
  }

  lemma Concluded(t: Target, before: seq<Rect>, order: seq<nat>, back: seq<nat>, sorted: seq<Rect>, packed: seq<Rect>, rects: seq<Rect>,
                  at: seq<nat>, base: nat, s: Stock, trace: seq<Stock>, choices: seq<Choice>) returns (who: seq<nat>)
    requires SortsAndUnsorts(before, order, back) && |before| == |packed|
    requires sorted == Tagged(before, order) && rects == Flagged(packed, back)
    requires Progress(t, sorted, packed, |packed|, at, base, s, trace, choices) && Packed(s.sky, t.width, t.height, s.placed)
    ensures Answered(before, rects) && Delivered(rects, who, s.placed, base)
    ensures base <= |s.placed| && Apart(rects, s.placed[..base], t.width, t.height)
    ensures ServedInOrder(t, trace, choices, before, rects, order)
    ensures |trace| == |rects| + 1 && trace[|rects|] == s
  {
    forall k | 0 <= k < |sorted| ensures sorted[k] == before[order[k]].(wasPacked := order[k]) {
      TaggedAt(before, order, k);
    }
    forall k | 0 <= k < |rects|
      ensures rects[k] == packed[back[k]].(wasPacked := if packed[back[k]].Refused() then 0 else 1)
    {
      FlaggedAt(packed, back, k);
    }
    who := Unsorted(before, order, back, sorted, packed, rects, at, s.placed, base);
    TraceUnsorted(t, trace, choices, before, order, back, sorted, packed, rects);
    DeliveredApart(rects, who, s.placed, base, s.sky, t.width, t.height);
  }

  /** Lines 550-558: the tags, and the first sort. */
  method Sort(c: Context, rects: array<Rect>, order: seq<nat>)
    requires c.Valid() && Permutation(order, rects.Length)
    modifies rects
    ensures c.Valid()
    ensures rects[..] == Tagged(old(rects[..]), order)
    ensures AllSuit(TargetOf(c), old(rects[..])) ==> AllSuit(TargetOf(c), rects[..])
  {
    ghost var before := rects[..];
    Tag(rects);
    Rearrange(rects, order);
    forall k | 0 <= k < rects.Length ensures rects[k] == Tagged(before, order)[k] {
      TaggedAt(before, order, k);
    }
  }

  /** Lines 574-579: back to the caller's order, and the flags. */
  method Unsort(c: Context, rects: array<Rect>, back: seq<nat>)
    requires c.Valid() && Permutation(back, rects.Length)
    modifies rects
    ensures c.Valid()
    ensures rects[..] == Flagged(old(rects[..]), back)
  {
    ghost var packed := rects[..];
    Rearrange(rects, back);
    SetFlags(rects);
    forall k | 0 <= k < rects.Length ensures rects[k] == Flagged(packed, back)[k] {
      FlaggedAt(packed, back, k);
    }
  }
}
