/** stb_rect_pack: the packer, on linked nodes taken from a fixed pool. */
module RectPack {
  import opened Skyline

  /** stbrp_node; coordinates are unsigned short. */
  class Node {
    var x: nat
    var y: nat
    var next: Node?

    constructor (x: nat, y: nat, next: Node?)
      ensures this.x == x && this.y == y && this.next == next
    {
      this.x, this.y, this.next := x, y, next;
    }
  }

  /** The cast to stbrp_coord. */
  function Coord(v: nat): nat { v % 0x1_0000 }

  ghost predicate Distinct(s: seq<Node>) {
    forall i, j :: 0 <= i < j < |s| ==> s[i] != s[j]
  }

  ghost predicate Linked(s: seq<Node>, end: Node?)
    reads s`next
  {
    forall i {:trigger s[i].next} :: 0 <= i < |s| ==> s[i].next == if i + 1 < |s| then s[i + 1] else end
  }

  ghost predicate Drawn(s: seq<Node>, sky: seq<Pt>)
    reads s`x, s`y
  {
    |s| == |sky| && forall i :: 0 <= i < |s| ==> s[i].x == sky[i].x && s[i].y == sky[i].y
  }

  ghost function First(s: seq<Node>): Node? { if s == [] then null else s[0] }

  /** A pointer to a pointer to a node: the head of the active list, or the next field of a node on it. */
  datatype Link = NoLink | HeadLink | NextOf(node: Node)

  datatype FindResult = FindResult(x: nat, y: nat, link: Link)

  class Context {
    var width: nat
    var height: nat
    var align: nat
    var heuristic: Heuristic
    var numNodes: nat
    var activeHead: Node?
    var freeHead: Node?

    ghost const pool: set<Node>
    ghost var active: seq<Node>
    ghost var free: seq<Node>
    ghost var sky: seq<Pt>
    ghost var placed: seq<Area>

    /** The active list draws the skyline. */
    ghost predicate Shaped()
      reads this`width, this`active, this`activeHead, this`sky, pool`x, pool`y, pool`next
    {
      && (forall i :: 0 <= i < |active| ==> active[i] in pool)
      && activeHead == First(active) && Linked(active, null)
      && Drawn(active, sky) && Proper(sky, width) && Bounded(sky, 0xffff) && GroundLast(sky)
    }

    ghost predicate Nodes()
      reads this`active
    {
      Distinct(active) && forall i :: 0 <= i < |active| ==> active[i] in pool
    }

    /** Every node of the pool is in exactly one of the two lists. */
    ghost predicate Lists()
      reads this`active, this`free, this`freeHead, this`numNodes, pool`next
    {
      && Nodes()
      && Distinct(free) && (forall i :: 0 <= i < |free| ==> free[i] in pool)
      && (forall i, j :: 0 <= i < |active| && 0 <= j < |free| ==> active[i] != free[j])
      && |active| + |free| == numNodes + 2
      && freeHead == First(free) && Linked(free, null)
    }

    ghost predicate Valid()
      reads this, pool
    {
      && width <= 0xffff && height <= 0xffff && align >= 1
      && Shaped() && Lists()
      && Packed(sky, width, height, placed)
    }

    constructor InitTarget(width: nat, height: nat, nodes: seq<Node>)
      requires 1 <= width <= 0xffff && height <= 0xffff
      requires nodes != [] && Distinct(nodes)
      modifies nodes
      ensures Valid() && fresh(pool - set n | n in nodes)
      ensures this.width == width && this.height == height && heuristic == BottomLeft
      ensures numNodes == |nodes| && align == Quantum(width, |nodes|)
      ensures placed == [] && free == nodes && sky == [Pt(0, 0), Pt(width, 65535)]
    {
      ghost var all := set n | n in nodes;
      var e1 := new Node(Coord(width), 65535, null);
      var e0 := new Node(0, 0, e1);
      this.width, this.height, this.numNodes, this.heuristic := width, height, |nodes|, BottomLeft;
      this.align := Quantum(width, |nodes|);
      this.activeHead, this.freeHead := e0, nodes[0];
      this.active, this.free, this.placed, this.sky := [e0, e1], nodes, [], [Pt(0, 0), Pt(width, 65535)];
      this.pool := {e0, e1} + all;
      new;
      assert e0 !in nodes && e1 !in nodes;
      ChainUp(nodes);
      InitialLists(e0, e1, nodes);
      InitialShape(e0, e1);
    }

    lemma InitialLists(e0: Node, e1: Node, nodes: seq<Node>)
      requires e0 != e1 && e0 !in nodes && e1 !in nodes
      requires nodes != [] && Distinct(nodes) && numNodes == |nodes|
      requires active == [e0, e1] && free == nodes && freeHead == nodes[0]
      requires pool == {e0, e1} + set n | n in nodes
      requires Linked(nodes, null)
      ensures Lists()
    {
    }

    lemma InitialShape(e0: Node, e1: Node)
      requires active == [e0, e1] && activeHead == e0 && e0 in pool && e1 in pool && e0.next == e1 && e1.next == null
      requires sky == [Pt(0, 0), Pt(width, 65535)] && 1 <= width
      requires e0.x == 0 && e0.y == 0 && e1.x == width && e1.y == 65535
      ensures Shaped() && Packed(sky, width, height, [])
    {
    }

    /**
     * stbrp__skyline_find_min_y: the least height at which w columns from x0 rest on the skyline, and the area wasted
     * below it.
     */
    method FindMinY(first: Node, ghost i: nat, x0: nat, w: nat) returns (y: nat, waste: int)
      requires Shaped() && Fits(sky, width, i, x0, w) && first == active[i]
      ensures Offer(y, waste, x0) == OfferAt(sky, width, w, x0) && y <= 0xffff
    {
      var node, x1, visited := first, x0 + w, 0;
      ghost var k := i;
      y, waste := 0, 0;
      ScanStart(sky, width, x0, w, i);
      while node.x < x1
        invariant i <= k < |active| && node == active[k] && (k > i ==> sky[k].x > x0)
        invariant Scanning(sky, width, x0, w, k, Scan(y, waste, visited))
        decreases |active| - k
      {
        Monotone(sky, k, |sky| - 1);
        assert Steps(sky, k);
        ScanStep(sky, width, x0, w, k, Scan(y, waste, visited));
        y, waste, visited := ScanSegment(node.x, node.y, node.next.x, x0, w, y, waste, visited);
        node := node.next;
        k := k + 1;
      }
      LowestBounded(sky, width, x0, x0 + w, y, 0xffff);
    }

    /** The link through which the list reaches node i. */
    ghost predicate LinkTo(link: Link, i: nat)
      reads this
    {
      i < |active| && link == if i == 0 then HeadLink else NextOf(active[i - 1])
    }

    /** r is a position for w columns that touches the skyline from above, found through the node whose segment holds r.x. */
    ghost predicate Position(r: FindResult, i: nat, w: nat)
      reads this
    {
      Fits(sky, width, i, r.x, w) && LinkTo(r.link, i) && r.y == RestAt(sky, width, w, r.x)
    }

    /** The first loop (lines 344-368) under the bottom-left heuristic: the lowest place at a node, leftmost among equals. */
    method LowestLeft(w: nat) returns (r: FindResult, ghost i: nat)
      requires Shaped() && w > 0
      ensures r.link.NoLink? <==> w > width
      ensures !r.link.NoLink? ==> Position(r, i, w) && r.x == sky[i].x && BestLeft(sky, width, w, r.y, i, |sky|)
    {
      r, i := FindResult(0, 0x4000_0000, NoLink), 0;
      var node, prev := activeHead, HeadLink;
      ghost var n := 0;
      while node.x + w <= width
        invariant n < |active| && node == active[n] && LinkTo(prev, n)
        invariant n == 0 ==> r.link.NoLink? && r.y == 0x4000_0000
        invariant n > 0 ==> w <= width && LinkTo(r.link, i) && BestLeft(sky, width, w, r.y, i, n) && r.x == sky[i].x
        decreases |active| - n
      {
        assert Steps(sky, n);
        var y, _ := FindMinY(node, n, node.x, w);
        BestLeftExtends(sky, width, w, r.y, i, n, y);
        if y < r.y {
          r, i := FindResult(node.x, y, prev), n;
        }
        prev, node, n := NextOf(node), node.next, n + 1;
      }
      if n > 0 {
        BestLeftAll(sky, width, w, r.y, i, n);
        assert Steps(sky, i);
      }
    }

    /** Nothing found yet, or a place with vertical room, and what it offers. */
    ghost predicate Candidate(r: FindResult, o: Offer, i: nat, w: nat, h: nat)
      reads this
    {
      && o.x == r.x && o.y == r.y
      && if r.link.NoLink? then o == NOOFFER
         else Fits(sky, width, i, r.x, w) && LinkTo(r.link, i) && r.y + h <= height && o == OfferAt(sky, width, w, r.x)
    }

    /** Lines 347-365 under the best-fit heuristic: one left-aligned place. */
    method TryLeft(w: nat, h: nat, prev: Link, node: Node, ghost n: nat, r1: FindResult, ghost i1: nat, waste1: int)
      returns (r: FindResult, ghost i: nat, waste: int)
      requires Shaped() && n < |sky| && Fits(sky, width, n, sky[n].x, w) && node == active[n] && LinkTo(prev, n)
      requires Candidate(r1, Offer(r1.y, waste1, r1.x), i1, w, h) && r1.x <= sky[n].x
      requires NoBetterLeft(sky, width, w, h, height, Offer(r1.y, waste1, r1.x), n)
      ensures Candidate(r, Offer(r.y, waste, r.x), i, w, h) && r.x <= sky[n].x
      ensures NoBetterLeft(sky, width, w, h, height, Offer(r.y, waste, r.x), n + 1)
    {
      r, i, waste := r1, i1, waste1;
      var y, wasted := FindMinY(node, n, node.x, w);
      if y + h <= height && (y < r.y || (y == r.y && wasted < waste)) {
        r, i, waste := FindResult(node.x, y, prev), n, wasted;
      }
      LeftStep(sky, width, w, h, height, Offer(r1.y, waste1, r1.x), n, Offer(y, wasted, sky[n].x), Offer(r.y, waste, r.x));
    }

    /** The first loop under the best-fit heuristic: only places with vertical room count, and less waste breaks ties. */
    method BestFitLeft(w: nat, h: nat) returns (r: FindResult, ghost i: nat, waste: int)
      requires Shaped() && w > 0
      ensures Candidate(r, Offer(r.y, waste, r.x), i, w, h)
      ensures NoBetterLeft(sky, width, w, h, height, Offer(r.y, waste, r.x), |sky|)
    {
      r, i, waste := FindResult(0, 0x4000_0000, NoLink), 0, 0x4000_0000;
      var node, prev := activeHead, HeadLink;
      ghost var n := 0;
      while node.x + w <= width
        invariant n < |active| && node == active[n] && LinkTo(prev, n)
        invariant Candidate(r, Offer(r.y, waste, r.x), i, w, h) && r.x <= sky[n].x
        invariant NoBetterLeft(sky, width, w, h, height, Offer(r.y, waste, r.x), n)
        decreases |active| - n
      {
        assert Steps(sky, n);
        r, i, waste := TryLeft(w, h, prev, node, n, r, i, waste);
        prev, node, n := NextOf(node), node.next, n + 1;
      }
      NoBetterLeftAll(sky, width, w, h, height, Offer(r.y, waste, r.x), n, |sky|);
    }

    /** Lines 389-420: try the right edge at every node as well. */
    method BestFitRight(w: nat, h: nat, r0: FindResult, ghost i0: nat, waste0: int)
        returns (r: FindResult, ghost i: nat, ghost o: Offer)
      requires Shaped() && 0 < w <= width
      requires Candidate(r0, Offer(r0.y, waste0, r0.x), i0, w, h)
      ensures Candidate(r, o, i, w, h) && Preferred(o, Offer(r0.y, waste0, r0.x))
      ensures NoBetterRight(sky, width, w, h, height, o, |sky|)
    {
      var tail, node: Node, prev, waste := activeHead, activeHead, HeadLink, waste0;
      r, i, o := r0, i0, Offer(r0.y, waste0, r0.x);
      ghost var n: nat, m: nat;
      tail, n := FirstTail(w);
      m := 0;
      StartRight(r, o, i, w, h, n);
      ghost var last;
      r, i, o, last := TryAllRight(w, h, tail, prev, node, r, waste, i, m, n, o);
      EndRight(r, o, o.waste, i, w, h, last);
    }

    /** The loop at lines 396-419. */
    method TryAllRight(w: nat, h: nat, tail0: Node, prev0: Link, node0: Node, r0: FindResult, waste0: int,
                       ghost i0: nat, ghost m0: nat, ghost n0: nat, ghost o0: Offer)
        returns (r: FindResult, ghost i: nat, ghost o: Offer, ghost n: nat)
      requires Shaped() && w > 0
      requires RightCursor(tail0, prev0, node0, n0, m0, w) && RightBest(r0, o0, waste0, i0, w, h, n0)
      ensures RightBest(r, o, o.waste, i, w, h, n) && Preferred(o, o0) && n >= |active|
    {
      var tail: Node?, node: Node, prev, waste := tail0, node0, prev0, waste0;
      r, i, o, n := r0, i0, o0, n0;
      ghost var m: nat := m0;
      while tail != null
        invariant Trying(tail, prev, node, r, waste, i, m, n, o, w, h) && Preferred(o, o0)
        decreases |active| - n
      {
        tail, prev, node, r, waste, i, m, n, o := NextRight(tail, w, h, prev, node, r, waste, i, m, n, o);
      }
    }

    lemma StartRight(r: FindResult, o: Offer, i: nat, w: nat, h: nat, n: nat)
      requires Shaped() && n < |active| && Candidate(r, o, i, w, h)
      requires w <= sky[n].x && forall k :: 0 <= k < n ==> sky[k].x < w
      ensures RightBest(r, o, o.waste, i, w, h, n)
      ensures RightCursor(active[n], HeadLink, activeHead, n, 0, w)
    {
      RightStart(sky, width, w, h, height, o, n);
    }

    lemma EndRight(r: FindResult, o: Offer, waste: int, i: nat, w: nat, h: nat, n: nat)
      requires RightBest(r, o, waste, i, w, h, n) && |active| == |sky| && n >= |active|
      ensures Candidate(r, o, i, w, h) && Proper(sky, width) && NoBetterRight(sky, width, w, h, height, o, |sky|)
    {
    }

    /** The offer in hand is the best of those up to node n - 1 on the right. */
    ghost predicate RightBest(r: FindResult, o: Offer, waste: int, i: nat, w: nat, h: nat, n: nat)
      reads this
    {
      && Candidate(r, o, i, w, h) && o.waste == waste
      && Proper(sky, width) && n <= |sky| && NoBetterRight(sky, width, w, h, height, o, n)
    }

    ghost predicate Trying(tail: Node?, prev: Link, node: Node?, r: FindResult, waste: int, i: nat, m: nat, n: nat, o: Offer, w: nat, h: nat)
      reads this
    {
      RightCursor(tail, prev, node, n, m, w) && RightBest(r, o, waste, i, w, h, n)
    }

    /** Lines 397-418: the place with its right edge at node n. */
    method NextRight(tail: Node, w: nat, h: nat, prev0: Link, node0: Node, r0: FindResult, waste0: int,
                     ghost i0: nat, ghost m0: nat, ghost n0: nat, ghost o0: Offer)
      returns (next: Node?, prev: Link, node: Node, r: FindResult, waste: int, ghost i: nat, ghost m: nat, ghost n: nat, ghost o: Offer)
      requires Shaped() && w > 0 && Trying(tail, prev0, node0, r0, waste0, i0, m0, n0, o0, w, h)
      ensures Trying(next, prev, node, r, waste, i, m, n, o, w, h) && n == n0 + 1 && Preferred(o, o0)
    {
      prev, node, m := NextLeft(tail, w, prev0, node0, m0, n0);
      r, i, waste, o := TryRight(tail.x - w, w, h, prev, node, m, n0, r0, i0, waste0, o0);
      NextTail(tail, prev, node, n0, m, w);
      next, n := tail.next, n0 + 1;
    }

    /** Lines 397-405: the left edge that goes with a right edge at node n. */
    method NextLeft(tail: Node, w: nat, prev0: Link, node0: Node, ghost m0: nat, ghost n: nat)
      returns (prev: Link, node: Node, ghost m: nat)
      requires Shaped() && w > 0 && n < |active| && RightCursor(tail, prev0, node0, n, m0, w)
      ensures w <= tail.x == sky[n].x && Fits(sky, width, m, tail.x - w, w) && node == active[m] && LinkTo(prev, m)
    {
      var xpos := tail.x - w;
      RightFits(sky, width, n, xpos, w);
      prev, node, m := Advance(xpos, prev0, node0, m0);
    }

    /** The right edge is tried at node n, tail, and node m is the last one known to start at or before the left edge. */
    ghost predicate RightCursor(tail: Node?, prev: Link, node: Node?, n: nat, m: nat, w: nat)
      reads this
    {
      && |active| == |sky| && n <= |active| && tail == (if n < |active| then active[n] else null)
      && m < |active| - 1 && node == active[m] && LinkTo(prev, m)
      && (n < |active| ==> w <= sky[n].x && sky[m].x + w <= sky[n].x)
    }

    lemma NextTail(tail: Node, prev: Link, node: Node, n: nat, m: nat, w: nat)
      requires Shaped() && n < |active| && tail == active[n]
      requires m < |active| - 1 && node == active[m] && LinkTo(prev, m) && sky[m].x + w <= sky[n].x
      ensures RightCursor(tail.next, prev, node, n + 1, m, w)
    {
      assert active[n].next == if n + 1 < |active| then active[n + 1] else null;
      if n + 1 < |sky| {
        Monotone(sky, n, n + 1);
      }
    }

    /** Lines 406-418: one right-aligned place. */
    method TryRight(xpos: nat, w: nat, h: nat, prev: Link, node: Node, ghost m: nat, ghost n: nat,
                    r1: FindResult, ghost i1: nat, waste1: int, ghost o1: Offer)
      returns (r: FindResult, ghost i: nat, waste: int, ghost o: Offer)
      requires Shaped() && Fits(sky, width, m, xpos, w) && node == active[m] && LinkTo(prev, m)
      requires n < |sky| && xpos + w == sky[n].x
      requires Candidate(r1, o1, i1, w, h) && o1.waste == waste1 && NoBetterRight(sky, width, w, h, height, o1, n)
      ensures Candidate(r, o, i, w, h) && o.waste == waste && NoBetterRight(sky, width, w, h, height, o, n + 1)
      ensures Preferred(o, o1)
    {
      r, i, waste := r1, i1, waste1;
      var y, wasted := FindMinY(node, m, xpos, w);
      if y + h < height && y <= r.y && (y < r.y || wasted < waste || (wasted == waste && xpos < r.x)) {
        r, i, waste := FindResult(xpos, y, prev), m, wasted;
      }
      o := Offer(r.y, waste, r.x);
      RightStep(sky, width, w, h, height, o1, n, Offer(y, wasted, xpos), o);
    }

    /** Lines 393-394: the first node at which a right edge is possible. */
    method FirstTail(w: nat) returns (tail: Node, ghost n: nat)
      requires Shaped() && w <= width
      ensures n < |active| && tail == active[n] && w <= sky[n].x && forall k :: 0 <= k < n ==> sky[k].x < w
    {
      tail, n := activeHead, 0;
      while tail.x < w
        invariant n < |active| && tail == active[n]
        invariant forall k :: 0 <= k < n ==> sky[k].x < w
        decreases |active| - n
      {
        tail, n := tail.next, n + 1;
      }
    }

    /** Lines 401-404: move on to the node whose segment holds column xpos. */
    method Advance(xpos: nat, prev0: Link, node0: Node, ghost m0: nat) returns (prev: Link, node: Node, ghost m: nat)
      requires Shaped() && xpos < width
      requires m0 < |active| - 1 && node0 == active[m0] && LinkTo(prev0, m0) && sky[m0].x <= xpos
      ensures m < |active| - 1 && node == active[m] && LinkTo(prev, m)
      ensures sky[m].x <= xpos < sky[m + 1].x
    {
      prev, node, m := prev0, node0, m0;
      while node.next.x <= xpos
        invariant m < |active| - 1 && node == active[m] && LinkTo(prev, m) && sky[m].x <= xpos
        decreases |active| - m
      {
        prev, node, m := NextOf(node), node.next, m + 1;
      }
    }

    /**
     * stbrp__skyline_find_best_pos. Best-fit walks off the list when the width does not fit the target, so it
     * must not be asked to.
     */
    method FindBestPos(w0: nat, h: nat) returns (r: FindResult, ghost i: nat)
      requires Shaped() && align >= 1 && w0 > 0
      requires heuristic == BestFit ==> AlignUp(w0, align) <= width
      ensures Best(sky, width, height, heuristic, r.link.NoLink?, r.x, r.y, i, AlignUp(w0, align), h)
      ensures !r.link.NoLink? ==> LinkTo(r.link, i)
    {
      var w := AlignUp(w0, align);
      if heuristic == BottomLeft {
        r, i := LowestLeft(w);
      } else {
        var waste;
        ghost var o;
        r, i, waste := BestFitLeft(w, h);
        ghost var left := Offer(r.y, waste, r.x);
        r, i, o := BestFitRight(w, h, r, i, waste);
        NoBetterLeftWeaken(sky, width, w, h, height, left, o, |sky|);
      }
    }

    /** While a node is inserted: the first k nodes of the old list lead to it. */
    ghost predicate Before(k: nat, node: Node)
      requires Nodes() && k <= |active|
      reads this, pool
    {
      && activeHead == (if k == 0 then node else active[0])
      && forall n {:trigger active[n].next} :: 0 <= n < k ==> active[n].next == if n + 1 < k then active[n + 1] else node
    }

    /** The nodes from m on are still linked as they were. */
    ghost predicate After(m: nat)
      requires Nodes()
      reads this, pool
    {
      forall n {:trigger active[n].next} :: m <= n < |active| ==> active[n].next == if n + 1 < |active| then active[n + 1] else null
    }

    /** The free list holds none of the nodes that stay active. */
    ghost predicate Spare(freed: seq<Node>, node: Node, k: nat, m: nat)
      requires k <= |active| && forall n :: 0 <= n < |freed| ==> freed[n] in pool
      reads this, pool
    {
      && freeHead == First(freed) && Linked(freed, null) && Distinct(freed)
      && (forall n :: 0 <= n < |freed| ==> freed[n] != node)
      && forall n, l :: 0 <= n < |freed| && (0 <= l < k || m <= l < |active|) ==> freed[n] != active[l]
    }

    /** Lines 444-460: a node leaves the free list and is linked in where the rectangle starts. */
    method LinkIn(r: FindResult, ghost i: nat, w: nat, top: nat) returns (node: Node, cur: Node)
      requires Shaped() && Lists() && Fits(sky, width, i, r.x, w) && LinkTo(r.link, i) && free != []
      requires width <= 0xffff && top <= 0xffff
      modifies this`activeHead, this`freeHead, pool
      ensures node == free[0] && node.x == r.x && node.y == top
      ensures var k := Keep(sky, i, r.x); cur == active[k] && Before(k, node) && After(k) && Spare(free[1..], node, k, k)
      ensures Drawn(active, sky)
    {
      node := TakeNode(r.x, top);
      cur := Splice(r, i, w, node);
    }

    /** Lines 444-448: a node of the free list gets the coordinates. */
    method TakeNode(x: nat, top: nat) returns (node: Node)
      requires Lists() && free != [] && x <= 0xffff && top <= 0xffff
      modifies this`freeHead, pool`x, pool`y
      ensures node == free[0] && node.x == x && node.y == top && freeHead == First(free[1..])
      ensures forall n :: n in pool && n != node ==> n.x == old(n.x) && n.y == old(n.y)
    {
      node := freeHead;
      node.x, node.y := Coord(x), Coord(top);
      freeHead := node.next;
    }

    /** Lines 454-462: the node is linked in where the rectangle starts. */
    method Splice(r: FindResult, ghost i: nat, w: nat, node: Node) returns (cur: Node)
      requires Nodes() && activeHead == First(active) && Linked(active, null) && Drawn(active, sky)
      requires Fits(sky, width, i, r.x, w) && LinkTo(r.link, i)
      requires node in pool && node !in active
      modifies this`activeHead, pool`next
      ensures var k := Keep(sky, i, r.x); cur == active[k] && Before(k, node) && After(k)
      ensures forall n :: n in pool && n !in active ==> n.next == old(n.next)
    {
      cur := if r.link.HeadLink? then activeHead else r.link.node.next;
      if cur.x < r.x {
        var next := cur.next;
        cur.next := node;
        cur := next;
      } else if r.link.HeadLink? {
        activeHead := node;
      } else {
        r.link.node.next := node;
      }
    }

    /** Lines 466-472: nodes whose successor starts at or before limit go to the free list; node m is where this stops. */
    method Release(cur0: Node, limit: nat, ghost node: Node, ghost k: nat, ghost freed0: seq<Node>)
      returns (cur: Node, ghost m: nat, ghost freed: seq<Node>)
      requires Nodes() && Drawn(active, sky) && k < |active| && cur0 == active[k]
      requires node in pool && node !in active
      requires forall n :: 0 <= n < |freed0| ==> freed0[n] in pool
      requires Before(k, node) && After(k) && Spare(freed0, node, k, k)
      modifies this`freeHead, pool`next
      ensures k <= m < |active| && cur == active[m]
      ensures m + 1 < |active| ==> sky[m + 1].x > limit
      ensures m > k ==> sky[m].x <= limit
      ensures forall n :: 0 <= n < |freed| ==> freed[n] in pool
      ensures Before(k, node) && After(m) && Spare(freed, node, k, m) && |freed| == |freed0| + m - k
      ensures Drawn(active, sky)
    {
      cur, m, freed := cur0, k, freed0;
      while cur.next != null && cur.next.x <= limit
        invariant k <= m < |active| && cur == active[m]
        invariant m > k ==> sky[m].x <= limit
        invariant forall n :: 0 <= n < |freed| ==> freed[n] in pool
        invariant Before(k, node) && After(m) && Spare(freed, node, k, m) && |freed| == |freed0| + m - k
        invariant Drawn(active, sky)
        decreases |active| - m
      {
        var next := cur.next;
        cur.next := freeHead;
        freeHead := cur;
        freed := [cur] + freed;
        cur, m := next, m + 1;
      }
    }

    /** The coordinates still draw the old skyline, except that node m has moved to edge. */
    ghost predicate Moved(m: nat, edge: nat)
      requires Nodes()
      reads this, pool
    {
      && |active| == |sky|
      && forall n :: 0 <= n < |active| ==> active[n].y == sky[n].y && active[n].x == if n == m then edge else sky[n].x
    }

    /** Lines 475-478: the new node is followed by node m, which moves to the right edge unless it starts later. */
    method Close(node: Node, cur: Node, edge: nat, ghost k: nat, ghost m: nat, ghost freed: seq<Node>)
      requires Nodes() && Drawn(active, sky) && m < |active| && cur == active[m] && edge <= 0xffff
      requires node in pool && node !in active && k <= |active|
      requires forall n :: 0 <= n < |freed| ==> freed[n] in pool
      requires Before(k, node) && After(m) && Spare(freed, node, k, m)
      modifies node`next, cur`x
      ensures Before(k, node) && After(m) && Spare(freed, node, k, m)
      ensures node.next == cur && Moved(m, if sky[m].x < edge then edge else sky[m].x)
    {
      node.next := cur;
      if cur.x < edge {
        cur.x := Coord(edge);
      }
    }

    /** Lines 443-478: put a rectangle of width w and top edge top at r and stitch the list back together. */
    method InsertNode(r: FindResult, ghost i: nat, w: nat, top: nat) returns (ghost m: nat)
      requires Shaped() && Lists() && Fits(sky, width, i, r.x, w) && LinkTo(r.link, i) && free != []
      requires width <= 0xffff && 0 < top <= 0xffff && (sky[i].y > 0 || r.x == sky[i].x)
      modifies this`activeHead, this`freeHead, this`active, this`free, this`sky, pool
      ensures Shaped() && Lists()
      ensures Stops(old(sky), i, m, r.x, w) && sky == Stitch(old(sky), i, m, r.x, w, top)
    {
      ghost var k := Keep(sky, i, r.x);
      var node, cur := LinkIn(r, i, w, top);
      ghost var freed;
      cur, m, freed := Release(cur, r.x + w, node, k, free[1..]);
      Close(node, cur, r.x + w, k, m, freed);
      StitchGroundLast(sky, width, i, m, r.x, w, top);
      ghost var active2, sky2 := Rejoined(node, freed, i, k, m, r.x, w, top);
      Adopt(active2, freed, sky2);
    }

    ghost method Adopt(active2: seq<Node>, free2: seq<Node>, sky2: seq<Pt>)
      requires forall n :: 0 <= n < |active2| ==> active2[n] in pool
      requires forall n :: 0 <= n < |free2| ==> free2[n] in pool
      requires activeHead == First(active2) && Linked(active2, null) && Drawn(active2, sky2)
      requires Proper(sky2, width) && Bounded(sky2, 0xffff) && GroundLast(sky2)
      requires freeHead == First(free2) && Linked(free2, null)
      requires Distinct(active2) && Distinct(free2) && |active2| + |free2| == numNodes + 2
      requires forall i, j :: 0 <= i < |active2| && 0 <= j < |free2| ==> active2[i] != free2[j]
      modifies this`active, this`free, this`sky
      ensures Shaped() && Lists() && sky == sky2
    {
      active, free, sky := active2, free2, sky2;
    }

    /** The new active list and the skyline it draws. */
    lemma Rejoined(node: Node, freed: seq<Node>, i: nat, k: nat, m: nat, x: nat, w: nat, top: nat)
      returns (active2: seq<Node>, sky2: seq<Pt>)
      requires Nodes() && Fits(sky, width, i, x, w) && Stops(sky, i, m, x, w) && Bounded(sky, 0xffff) && top <= 0xffff
      requires |active| == |sky| && k == Keep(sky, i, x)
      requires node in pool && node !in active && node.x == x && node.y == top && node.next == active[m]
      requires forall n :: 0 <= n < |freed| ==> freed[n] in pool
      requires Before(k, node) && After(m) && Spare(freed, node, k, m) && Moved(m, Edge(sky, m, x, w))
      ensures forall n :: 0 <= n < |active2| ==> active2[n] in pool
      ensures activeHead == First(active2) && Linked(active2, null) && Drawn(active2, sky2)
      ensures sky2 == Stitch(sky, i, m, x, w, top) && Proper(sky2, width) && Bounded(sky2, 0xffff)
      ensures Distinct(active2) && |active2| == |active| + 1 - (m - k)
      ensures forall i, j :: 0 <= i < |active2| && 0 <= j < |freed| ==> active2[i] != freed[j]
    {
      StitchProper(sky, width, i, m, x, w, top);
      sky2 := Stitch(sky, i, m, x, w, top);
      active2 := Join(node, k, m);
      RejoinedNodes(node, freed, k, m, active2);
      RejoinedLinks(node, k, m, active2);
      RejoinedSky(node, i, k, m, x, w, top, active2, sky2);
    }

    ghost predicate Joins(active2: seq<Node>, node: Node, k: nat, m: nat)
      requires k <= m < |active|
      reads this
    {
      && |active2| == |active| + 1 - (m - k)
      && forall n {:trigger active2[n]} :: 0 <= n < |active2| ==>
        active2[n] == if n < k then active[n] else if n == k then node else active[n - k - 1 + m]
    }

    lemma Join(node: Node, k: nat, m: nat) returns (active2: seq<Node>)
      requires k <= m < |active|
      ensures Joins(active2, node, k, m)
    {
      active2 := active[..k] + [node] + active[m..];
      forall n | 0 <= n < |active2|
        ensures active2[n] == if n < k then active[n] else if n == k then node else active[n - k - 1 + m]
      {
      }
    }

    lemma RejoinedNodes(node: Node, freed: seq<Node>, k: nat, m: nat, active2: seq<Node>)
      requires Nodes() && k <= m < |active| && node in pool && node !in active
      requires forall n :: 0 <= n < |freed| ==> freed[n] in pool
      requires Spare(freed, node, k, m) && Joins(active2, node, k, m)
      ensures forall n :: 0 <= n < |active2| ==> active2[n] in pool
      ensures Distinct(active2)
      ensures forall i, j :: 0 <= i < |active2| && 0 <= j < |freed| ==> active2[i] != freed[j]
    {
    }

    lemma RejoinedLinks(node: Node, k: nat, m: nat, active2: seq<Node>)
      requires Nodes() && k <= m < |active|
      requires Before(k, node) && After(m) && node.next == active[m]
      requires Joins(active2, node, k, m)
      ensures activeHead == First(active2) && Linked(active2, null)
    {
    }

    lemma RejoinedSky(node: Node, i: nat, k: nat, m: nat, x: nat, w: nat, top: nat, active2: seq<Node>, sky2: seq<Pt>)
      requires Nodes() && |active| == |sky| && i < |sky| && k == Keep(sky, i, x) <= m < |sky|
      requires node.x == x && node.y == top && Moved(m, Edge(sky, m, x, w))
      requires Bounded(sky, 0xffff) && top <= 0xffff
      requires Joins(active2, node, k, m) && sky2 == Stitch(sky, i, m, x, w, top)
      ensures Drawn(active2, sky2) && Bounded(sky2, 0xffff)
    {
    }

    /**
     * stbrp__skyline_pack_rectangle: the rectangle goes to the best place (x, y), unless there is none, it has no
     * vertical room, or the pool is empty; then nothing changes.
     */
    method PackRectangle(w: nat, h: nat)
      returns (r: FindResult, ghost none: bool, ghost x: nat, ghost y: nat, ghost i: nat, ghost m: nat)
      requires Valid() && w > 0 && h > 0
      requires heuristic == BestFit ==> AlignUp(w, align) <= width
      modifies this`activeHead, this`freeHead, this`active, this`free, this`sky, this`placed, pool
      ensures Proper(old(sky), width) && Best(old(sky), width, height, heuristic, none, x, y, i, AlignUp(w, align), h)
      ensures Valid()
      ensures r.link.NoLink? <==> none || y + h > height || old(free) == []
      ensures old(free) == [] <==> |old(sky)| == numNodes + 2
      ensures !r.link.NoLink? ==> x + w <= width && y + h <= height
      ensures if r.link.NoLink? then
                placed == old(placed) && sky == old(sky) && active == old(active) && free == old(free)
              else
                && r.x == x && r.y == y && placed == old(placed) + [Area(x, y, w, h)]
                && Stops(old(sky), i, m, x, w) && sky == Stitch(old(sky), i, m, x, w, y + h)
    {
      r, none, i := Decide(w, h);
      x, y, m := r.x, r.y, 0;
      if r.link.NoLink? {
        return;
      }
      m := Place(r, i, w, h);
    }

    /** Lines 430-441: the best place, and whether it can be used. */
    method Decide(w: nat, h: nat) returns (r: FindResult, ghost none: bool, ghost i: nat)
      requires Valid() && w > 0 && (heuristic == BestFit ==> AlignUp(w, align) <= width)
      ensures Best(sky, width, height, heuristic, none, r.x, r.y, i, AlignUp(w, align), h)
      ensures r.link.NoLink? <==> none || r.y + h > height || free == []
      ensures !r.link.NoLink? ==> Fits(sky, width, i, r.x, w) && LinkTo(r.link, i) && Rests(sky, width, r.x, r.x + w, r.y)
                                  && (sky[i].y > 0 || r.x == sky[i].x)
    {
      r, i := FindBestPos(w, h);
      none := r.link.NoLink?;
      if r.link.NoLink? || r.y + h > height || freeHead == null {
        r := r.(link := NoLink);
        return;
      }
      RestsNarrower(sky, width, i, r.x, w, AlignUp(w, align), r.y);
      BestOnGround(sky, width, height, heuristic, r.x, r.y, i, AlignUp(w, align), h);
    }

    method Place(r: FindResult, ghost i: nat, w: nat, h: nat) returns (ghost m: nat)
      requires Valid() && Fits(sky, width, i, r.x, w) && LinkTo(r.link, i) && free != []
      requires Rests(sky, width, r.x, r.x + w, r.y) && h > 0 && r.y + h <= height && (sky[i].y > 0 || r.x == sky[i].x)
      modifies this`activeHead, this`freeHead, this`active, this`free, this`sky, this`placed, pool
      ensures Valid() && placed == old(placed) + [Area(r.x, r.y, w, h)]
      ensures Stops(old(sky), i, m, r.x, w) && sky == Stitch(old(sky), i, m, r.x, w, r.y + h)
    {
      ghost var sky0 := sky;
      m := InsertNode(r, i, w, r.y + h);
      Record(sky0, i, m, Area(r.x, r.y, w, h));
    }

    /** The rectangle counts as placed. */
    ghost method Record(sky0: seq<Pt>, i: nat, m: nat, a: Area)
      requires width <= 0xffff && height <= 0xffff && align >= 1 && Shaped() && Lists()
      requires Packed(sky0, width, height, placed) && Inside(a, width, height)
      requires Fits(sky0, width, i, a.x, a.w) && Stops(sky0, i, m, a.x, a.w) && Rests(sky0, width, a.x, a.x + a.w, a.y)
      requires sky == Stitch(sky0, i, m, a.x, a.w, a.y + a.h)
      modifies this`placed
      ensures Valid() && placed == old(placed) + [a]
    {
      PlaceKeepsPacked(sky0, width, height, placed, i, m, a);
      placed := placed + [a];
    }

    /** The alignment that makes numNodes aligned columns span the width, or none at all. */
    method SetupAllowOutOfMem(allow: bool)
      requires Valid() && numNodes >= 1
      modifies this`align
      ensures Valid()
      ensures align == if allow then 1 else Quantum(width, numNodes)
    {
      Monotone(sky, 0, |sky| - 1);
      if allow {
        align := 1;
      } else {
        align := Quantum(width, numNodes);
      }
    }

    method SetupHeuristic(h: Heuristic)
      requires Valid()
      modifies this`heuristic
      ensures Valid() && heuristic == h
    {
      heuristic := h;
    }
  }

  lemma RightFits(sky: seq<Pt>, width: nat, n: nat, xpos: int, w: nat)
    requires Proper(sky, width) && n < |sky| && xpos + w == sky[n].x && w > 0
    ensures xpos + w <= width && xpos < width
  {
    Monotone(sky, n, |sky| - 1);
  }

  /** The body of the scan (lines 301-320). */
  method ScanSegment(x: nat, h: nat, next: nat, x0: nat, w: nat, y0: nat, waste0: int, visited0: int)
    returns (y: nat, waste: int, visited: int)
    ensures Scan(y, waste, visited) == Scanned(x, h, next, x0, w, Scan(y0, waste0, visited0))
  {
    y, waste, visited := y0, waste0, visited0;
    if h > y {
      waste := waste + visited * (h - y);
      y := h;
      if x < x0 {
        visited := visited + (next - x0);
      } else {
        visited := visited + (next - x);
      }
    } else {
      var under: int := next - x;
      if under + visited > w {
        under := w - visited;
      }
      waste := waste + under * (y - h);
      visited := visited + under;
    }
  }

  /** The width rounded up to a multiple of the alignment. */
  function AlignUp(w: nat, align: nat): (r: nat)
    requires align >= 1
    ensures r >= w
  {
    var t := w + align - 1;
    t - t % align
  }

  /** The assertion behind the rounding: the result is a multiple of the alignment, and the least one from w on. */
  lemma AlignUpIsMultiple(w: nat, align: nat) returns (q: nat)
    requires align >= 1
    ensures AlignUp(w, align) == q * align && AlignUp(w, align) < w + align
  {
    var t := w + align - 1;
    q := t / align;
    assert t == align * q + t % align;
  }

  /** The column width at which n columns span the target. */
  function Quantum(width: nat, n: nat): (q: nat)
    requires n >= 1
    ensures width >= 1 ==> q >= 1
  {
    (width + n - 1) / n
  }

  lemma QuantumSpans(width: nat, n: nat)
    requires n >= 1
    ensures var q := Quantum(width, n); (q - 1) * n < width <= q * n && (width >= 1 ==> q >= 1)
  {
    var q := Quantum(width, n);
    assert width + n - 1 == n * q + (width + n - 1) % n;
    assert (q - 1) * n == n * q - n;
  }

  /** Lines 251-253: the caller's nodes become the free list. */
  method ChainUp(nodes: seq<Node>)
    requires nodes != [] && Distinct(nodes)
    modifies nodes
    ensures Linked(nodes, null)
  {
    var i := 0;
    while i < |nodes| - 1
      invariant 0 <= i < |nodes|
      invariant forall k {:trigger nodes[k].next} :: 0 <= k < i ==> nodes[k].next == nodes[k + 1]
    {
      nodes[i].next := nodes[i + 1];
      i := i + 1;
    }
    nodes[i].next := null;
  }
}
