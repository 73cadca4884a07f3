/** core_list_join.c: a linked list that is sorted and reversed in place by rewriting its next fields. */
module CoreList {
  import opened MergeSpec
  import opened Wrappers

  /** list_head */
  class Node<T> {
    var next: Node?<T>
    var info: T

    constructor (info: T, next: Node?<T>)
      ensures this.info == info && this.next == next
    {
      this.info, this.next := info, next;
    }
  }

  function At<T>(s: seq<Node<T>>, k: nat): Node?<T> {
    if k < |s| then s[k] else null
  }

  /** The list from head on consists of the nodes of s, each once, and ends. */
  ghost predicate Chain<T>(head: Node?<T>, s: seq<Node<T>>)
    reads s
  {
    head == At(s, 0) && Distinct(s) && forall k {:trigger s[k].next} :: 0 <= k < |s| ==> s[k].next == At(s, k + 1)
  }

  // ---- The merge sort ----

  /** The nodes whose positions are not yet taken by a merge at (i, m, j) still link to their old neighbours. */
  ghost predicate Rest<T>(s: seq<Node<T>>, i: nat, m: nat, j: nat)
    reads s
  {
    forall k {:trigger s[k].next} :: 0 <= k < |s| && (i <= k < m || j <= k) ==> s[k].next == At(s, k + 1)
  }

  /** out is a list from list to tail; where tail links to is left open. */
  ghost predicate Linked<T>(s: seq<Node<T>>, out: seq<nat>, list: Node?<T>, tail: Node?<T>)
    reads s
  {
    Within(out, |s|) &&
    if out == [] then list == null && tail == null
    else list == s[out[0]] && tail == s[out[|out| - 1]] && forall k :: 0 <= k < |out| - 1 ==> s[out[k]].next == s[out[k + 1]]
  }

  /** The positions taken so far, each once, when the runs have been used up to i and j. */
  ghost predicate Used(out: seq<nat>, i: nat, m: nat, j: nat) {
    Distinct(out) && forall k :: 0 <= k < |out| ==> out[k] < i || m <= out[k] < j
  }

  /** Adds the node at position x to the merged list. */
  method Append<T>(ghost s: seq<Node<T>>, ghost out: seq<nat>, e: Node<T>, ghost x: nat, list: Node?<T>, tail: Node?<T>,
                   ghost i: nat, ghost m: nat, ghost j: nat)
      returns (list2: Node?<T>)
    requires Distinct(s) && x < |s| && e == s[x] && i <= m <= j
    requires Linked(s, out, list, tail) && Used(out, i, m, j) && x !in out && Rest(s, i, m, j)
    modifies if tail == null then {} else {tail}`next
    ensures Linked(s, out + [x], list2, e) && Rest(s, i, m, j)
  {
    list2 := list;
    if tail != null {
      tail.next := e;
    } else {
      list2 := e;
    }
  }

  ghost predicate Keyed<T>(s: seq<Node<T>>, items: seq<Item<T>>)
    reads s
  {
    |items| == |s| && forall k :: 0 <= k < |s| ==> items[k].key == s[k].info
  }

  /** insize places along from p, or as far as the list goes. */
  method StepAlong<T>(p: Node<T>, insize: nat, ghost s: seq<Node<T>>, ghost pos: nat) returns (q: Node?<T>, psize: nat)
    requires pos < |s| && p == s[pos] && Rest(s, pos, pos, pos) && insize > 0
    ensures pos + psize == Min(pos + insize, |s|) && q == At(s, pos + psize)
  {
    q, psize := p, 0;
    var i := 0;
    while i < insize
      invariant 0 <= i <= insize && psize == i && pos + i < |s| && q == s[pos + i]
    {
      psize := psize + 1;
      assert s[pos + i].next == At(s, pos + i + 1);
      q := q.next;
      if q == null {
        break;
      }
      i := i + 1;
    }
  }

  /** psize nodes from p, at position i, and at most qsize nodes from q, at position j, are still to be merged. */
  ghost predicate Cursor<T>(s: seq<Node<T>>, p: Node?<T>, q: Node?<T>, psize: nat, qsize: nat, i: nat, m: nat, j: nat, e: nat) {
    && i + psize == m <= j <= e == Min(j + qsize, |s|) && m <= |s|
    && (i < m ==> p == s[i]) && q == At(s, j)
  }

  /** Decides whether the next node of the merge comes from p or from q. */
  method Choose<T>(cmp: (T, T) -> int, p0: Node?<T>, q0: Node?<T>, psize0: nat, qsize0: nat,
                   ghost s: seq<Node<T>>, ghost items: seq<Item<T>>, ghost i0: nat, ghost m: nat, ghost j0: nat, ghost e: nat)
      returns (n: Node<T>, p: Node?<T>, q: Node?<T>, psize: nat, qsize: nat, ghost x: nat, ghost i: nat, ghost j: nat)
    requires Cursor(s, p0, q0, psize0, qsize0, i0, m, j0, e) && (psize0 > 0 || (qsize0 > 0 && q0 != null))
    requires Keyed(s, items) && Rest(s, i0, m, j0)
    ensures Cursor(s, p, q, psize, qsize, i, m, j, e)
    ensures (i0 < m && x == i0 && i == i0 + 1 && j == j0) || (j0 < e && x == j0 && i == i0 && j == j0 + 1)
    ensures x < |s| && n == s[x]
    ensures Merge(cmp, items, i0, m, j0, e) == [x] + Merge(cmp, items, i, m, j, e)
    ensures psize + qsize < psize0 + qsize0
  {
    p, q, psize, qsize, i, j := p0, q0, psize0, qsize0, i0, j0;
    if psize == 0 {
      n, x := q, j;
      q, qsize, j := q.next, qsize - 1, j + 1;
    } else if qsize == 0 || q == null {
      n, x := p, i;
      p, psize, i := p.next, psize - 1, i + 1;
    } else if cmp(p.info, q.info) <= 0 {
      n, x := p, i;
      p, psize, i := p.next, psize - 1, i + 1;
    } else {
      n, x := q, j;
      q, qsize, j := q.next, qsize - 1, j + 1;
    }
    assert s[x].next == At(s, x + 1);
  }

  /** Merges psize nodes from p with at most insize nodes from q onto the list that ends in tail. */
  method MergeRun<T>(cmp: (T, T) -> int, p0: Node<T>, q0: Node?<T>, psize0: nat, insize: nat,
                     list0: Node?<T>, tail0: Node?<T>,
                     ghost s: seq<Node<T>>, ghost items: seq<Item<T>>, ghost src0: seq<nat>, ghost pos: nat, ghost m: nat, ghost e: nat)
      returns (q: Node?<T>, list: Node?<T>, tail: Node?<T>, ghost src: seq<nat>)
    requires Distinct(s) && Keyed(s, items) && pos < |s| && p0 == s[pos] && insize > 0
    requires m == pos + psize0 == Min(pos + insize, |s|) && q0 == At(s, m) && e == Min(pos + insize + insize, |s|)
    requires Linked(s, src0, list0, tail0) && Used(src0, pos, pos, pos) && Rest(s, pos, pos, pos)
    modifies s`next
    ensures src == src0 + Merge(cmp, items, pos, m, m, e)
    ensures Linked(s, src, list, tail) && Used(src, e, e, e) && Rest(s, e, e, e) && q == At(s, e)
  {
    var p: Node?<T>, psize, qsize := p0, psize0, insize;
    q, list, tail, src := q0, list0, tail0, src0;
    ghost var i: nat, j: nat := pos, m;
    while psize > 0 || (qsize > 0 && q != null)
      invariant Cursor(s, p, q, psize, qsize, i, m, j, e)
      invariant src + Merge(cmp, items, i, m, j, e) == src0 + Merge(cmp, items, pos, m, m, e)
      invariant Linked(s, src, list, tail) && Used(src, i, m, j) && Rest(s, i, m, j)
      decreases psize + qsize
    {
      var n: Node<T>;
      ghost var x, i0, j0 := 0, i, j;
      n, p, q, psize, qsize, x, i, j := Choose(cmp, p, q, psize, qsize, s, items, i, m, j, e);
      Assoc(src, [x], Merge(cmp, items, i, m, j, e));
      UseNext(src, i0, m, j0, x, i, j);
      list := Append(s, src, n, x, list, tail, i, m, j);
      tail, src := n, src + [x];
    }
  }

  lemma UseNext(src: seq<nat>, i0: nat, m: nat, j0: nat, x: nat, i: nat, j: nat)
    requires Used(src, i0, m, j0) && i0 <= m <= j0
    requires (i0 < m && x == i0 && i == i0 + 1 && j == j0) || (x == j0 && i == i0 && j == j0 + 1)
    ensures x !in src && Used(src, i, m, j) && Used(src + [x], i, m, j)
  {
  }

  lemma Assoc(a: seq<nat>, b: seq<nat>, c: seq<nat>)
    ensures a + (b + c) == a + b + c
  {
  }

  lemma LinkedIsChain<T>(s: seq<Node<T>>, src: seq<nat>, list: Node?<T>, tail: Node?<T>)
    requires Linked(s, src, list, tail) && Distinct(s) && Distinct(src) && src != [] && tail != null && tail.next == null
    ensures Chain(list, Select(s, src))
  {
    var t := Select(s, src);
    forall k {:trigger t[k].next} | 0 <= k < |t| ensures t[k].next == At(t, k + 1) {
      assert t[k] == s[src[k]];
    }
    forall k, l | 0 <= k < l < |t| ensures t[k] != t[l] {
      assert src[k] != src[l];
      assert src[k] < src[l] || src[l] < src[k];
    }
  }

  /** In a pass, everything before pos has been merged onto the list from first to tail. */
  ghost predicate Merged<T>(cmp: (T, T) -> int, s: seq<Node<T>>, items: seq<Item<T>>, insize: nat, src: seq<nat>, pos: nat,
                            first: Node?<T>, tail: Node?<T>)
    requires insize > 0
    reads s
  {
    && src + Pass(cmp, items, pos, insize) == Pass(cmp, items, 0, insize)
    && Linked(s, src, first, tail) && Used(src, pos, pos, pos) && Rest(s, pos, pos, pos)
    && (src == [] <==> pos == 0)
  }

  /** One pass over the list, merging neighbouring runs of insize. */
  method PassOver<T>(cmp: (T, T) -> int, list0: Node<T>, insize: nat, ghost s: seq<Node<T>>, ghost items: seq<Item<T>>)
      returns (list: Node<T>, nmerges: nat, ghost src: seq<nat>)
    requires s != [] && Chain(list0, s) && Keyed(s, items) && insize > 0
    modifies s`next
    ensures src == Pass(cmp, items, 0, insize) && Within(src, |s|) && Chain(list, Select(s, src))
    ensures nmerges <= 1 <==> |s| <= insize + insize
  {
    var p: Node?<T>, first: Node?<T>, tail: Node?<T> := list0, null, null;
    nmerges, src := 0, [];
    ghost var pos: nat := 0;
    while p != null
      invariant pos <= |s| && p == At(s, pos) && Merged(cmp, s, items, insize, src, pos, first, tail)
      invariant pos == if nmerges == 0 then 0 else if nmerges == 1 then Min(insize + insize, |s|) else pos
      invariant nmerges > 1 ==> pos > insize + insize
      decreases |s| - pos
    {
      nmerges := nmerges + 1;
      p, first, tail, src := MergeNext(cmp, p, insize, first, tail, s, items, src, pos);
      pos := Min(pos + insize + insize, |s|);
    }
    EndList(s, src, first, tail);
    list := first;
  }

  method MergeNext<T>(cmp: (T, T) -> int, p: Node<T>, insize: nat, first0: Node?<T>, tail0: Node?<T>,
                      ghost s: seq<Node<T>>, ghost items: seq<Item<T>>, ghost src0: seq<nat>, ghost pos: nat)
      returns (q: Node?<T>, first: Node?<T>, tail: Node?<T>, ghost src: seq<nat>)
    requires Distinct(s) && Keyed(s, items) && pos < |s| && p == s[pos] && insize > 0
    requires Merged(cmp, s, items, insize, src0, pos, first0, tail0)
    modifies s`next
    ensures var e := Min(pos + insize + insize, |s|);
      Merged(cmp, s, items, insize, src, e, first, tail) && q == At(s, e)
  {
    var psize;
    q, psize := StepAlong(p, insize, s, pos);
    ghost var m: nat, e: nat := pos + psize, Min(pos + insize + insize, |s|);
    q, first, tail, src := MergeRun(cmp, p, q, psize, insize, first0, tail0, s, items, src0, pos, m, e);
    PassStep(cmp, items, src0, pos, insize, m, e, src);
  }

  method EndList<T>(ghost s: seq<Node<T>>, ghost src: seq<nat>, list: Node?<T>, tail: Node?<T>)
    requires Linked(s, src, list, tail) && Distinct(s) && Distinct(src) && src != []
    modifies {tail}`next
    ensures Within(src, |s|) && Chain(list, Select(s, src))
  {
    tail.next := null;
    LinkedIsChain(s, src, list, tail);
  }

  lemma PassStep<T>(cmp: (T, T) -> int, items: seq<Item<T>>, src: seq<nat>, pos: nat, w: nat, m: nat, e: nat, src2: seq<nat>)
    requires w > 0 && pos < |items| && m == Min(pos + w, |items|) && e == Min(pos + w + w, |items|)
    requires src2 == src + Merge(cmp, items, pos, m, m, e)
    ensures src2 != [] && src + Pass(cmp, items, pos, w) == src2 + Pass(cmp, items, e, w)
  {
    MergeTakes(cmp, items, pos, m, m, e);
    assert Pass(cmp, items, pos, w) == Merge(cmp, items, pos, m, m, e) + Pass(cmp, items, e, w);
    Assoc(src, Merge(cmp, items, pos, m, m, e), Pass(cmp, items, e, w));
  }

  function Ids<T>(items: seq<Item<T>>): (ids: seq<nat>)
    ensures |ids| == |items| && forall k :: 0 <= k < |ids| ==> ids[k] == items[k].id
  {
    seq(|items|, k requires 0 <= k < |items| => items[k].id)
  }

  /** items arranges the nodes of s: every node once, with its key. */
  ghost predicate Arranges<T>(items: seq<Item<T>>, s: seq<Node<T>>)
    reads s
  {
    && |items| == |s| && Distinct(Ids(items)) && Within(Ids(items), |s|)
    && forall k :: 0 <= k < |items| ==> items[k].id < |s| && items[k].key == s[items[k].id].info
  }

  /**
   * core_list_mergesort: the list holds exactly its old nodes, each once, in ascending order, with equal ones in their
   * old order.
   */
  method MergeSort<T(!new)>(cmp: (T, T) -> int, list0: Node<T>, ghost s: seq<Node<T>>)
      returns (list: Node<T>, ghost items: seq<Item<T>>)
    requires Preorder(cmp) && s != [] && Chain(list0, s)
    modifies s`next
    ensures Arranges(items, s) && Sorted(cmp, items, 0, |s|)
    ensures Chain(list, Select(s, Ids(items)))
  {
    list := list0;
    var insize: nat := 1;
    items := InOrder(cmp, s);
    while true
      invariant Arranges(items, s) && Chain(list, Select(s, Ids(items)))
      invariant insize > 0 && Runs(cmp, items, 0, insize)
      invariant insize == 1 || insize < |s|
      decreases |s| - insize
    {
      var nmerges;
      list, nmerges, items := SortPass(cmp, list, insize, s, items);
      if nmerges <= 1 {
        OneRun(cmp, items, insize * 2);
        return;
      }
      insize := insize * 2;
    }
  }

  lemma InOrder<T>(cmp: (T, T) -> int, s: seq<Node<T>>) returns (items: seq<Item<T>>)
    requires Distinct(s)
    ensures Arranges(items, s) && Select(s, Ids(items)) == s && Runs(cmp, items, 0, 1)
  {
    items := seq(|s|, k requires 0 <= k < |s| reads s => Item(s[k].info, k));
    RunsOfOne(cmp, items, 0);
    assert Select(s, Ids(items)) == s;
  }

  lemma OneRun<T>(cmp: (T, T) -> int, items: seq<Item<T>>, w: nat)
    requires w > 0 && |items| <= w && Runs(cmp, items, 0, w)
    ensures Sorted(cmp, items, 0, |items|)
  {
  }

  method SortPass<T(!new)>(cmp: (T, T) -> int, list0: Node<T>, insize: nat, ghost s: seq<Node<T>>, ghost items0: seq<Item<T>>)
      returns (list: Node<T>, nmerges: nat, ghost items: seq<Item<T>>)
    requires Preorder(cmp) && insize > 0 && s != []
    requires Arranges(items0, s) && Chain(list0, Select(s, Ids(items0))) && Runs(cmp, items0, 0, insize)
    modifies s`next
    ensures Arranges(items, s) && Chain(list, Select(s, Ids(items))) && Runs(cmp, items, 0, insize * 2)
    ensures nmerges <= 1 <==> |s| <= insize * 2
  {
    ghost var src;
    list, nmerges, src := PassOver(cmp, list0, insize, Select(s, Ids(items0)), items0);
    PassTakes(cmp, items0, 0, insize);
    PassDoubles(cmp, items0, 0, insize, insize * 2);
    Rearranged(items0, s, src);
    items := Select(items0, src);
  }

  lemma Rearranged<T>(items: seq<Item<T>>, s: seq<Node<T>>, src: seq<nat>)
    requires Arranges(items, s) && Distinct(src) && |src| == |s| && Within(src, |s|)
    ensures Arranges(Select(items, src), s)
    ensures Select(s, Ids(Select(items, src))) == Select(Select(s, Ids(items)), src)
  {
    var items2 := Select(items, src);
    forall k, l | 0 <= k < l < |items2| ensures Ids(items2)[k] != Ids(items2)[l] {
      assert src[k] != src[l];
      assert Ids(items)[src[k]] == Ids(items2)[k] && Ids(items)[src[l]] == Ids(items2)[l];
      assert src[k] < src[l] || src[l] < src[k];
    }
    assert forall k :: 0 <= k < |items2| ==> items2[k] == items[src[k]];
    assert Select(s, Ids(items2)) == Select(Select(s, Ids(items)), src);
  }

  // ---- Other list operations ----

  function Backwards<T>(s: seq<T>): (r: seq<T>)
    ensures |r| == |s| && forall k :: 0 <= k < |r| ==> r[k] == s[|s| - 1 - k]
  {
    seq(|s|, k requires 0 <= k < |s| => s[|s| - 1 - k])
  }

  /** core_list_reverse: the same nodes in the opposite order. */
  method Reverse<T>(list0: Node?<T>, ghost s: seq<Node<T>>) returns (next: Node?<T>)
    requires Chain(list0, s)
    modifies s`next
    ensures Chain(next, Backwards(s))
  {
    next := null;
    var list := list0;
    ghost var k: nat := 0;
    while list != null
      invariant k <= |s| && list == At(s, k) && next == (if k == 0 then null else s[k - 1])
      invariant forall i {:trigger s[i].next} :: 0 <= i < |s| ==>
        s[i].next == if i >= k then At(s, i + 1) else if i == 0 then null else s[i - 1]
      decreases |s| - k
    {
      var tmp := list.next;
      list.next := next;
      next := list;
      list := tmp;
      k := k + 1;
    }
  }

  /** core_list_remove: the keys of item and its successor are swapped and the successor is unlinked. */
  method Remove<T>(item: Node<T>, ghost s: seq<Node<T>>, ghost head: Node?<T>, ghost k: nat) returns (ret: Node<T>)
    requires Chain(head, s) && k + 1 < |s| && item == s[k]
    modifies item, s[k + 1]
    ensures Chain(head, s[..k + 1] + s[k + 2..]) && ret == s[k + 1] && ret.next == null
    ensures item.info == old(s[k + 1].info) && ret.info == old(item.info)
  {
    assert s[k].next == At(s, k + 1) && s[k + 1].next == At(s, k + 2);
    ret := item.next;
    var tmp := item.info;
    item.info := ret.info;
    ret.info := tmp;
    item.next := item.next.next;
    ret.next := null;
  }

  /** core_list_undo_remove: links a removed node back behind item and swaps the keys again. */
  method UndoRemove<T>(removed: Node<T>, item: Node<T>, ghost s: seq<Node<T>>, ghost head: Node?<T>, ghost k: nat)
      returns (ret: Node<T>)
    requires Chain(head, s) && k < |s| && item == s[k] && removed !in s
    modifies item, removed
    ensures Chain(head, s[..k + 1] + [removed] + s[k + 1..]) && ret == removed
    ensures item.info == old(removed.info) && removed.info == old(item.info)
  {
    assert s[k].next == At(s, k + 1);
    var tmp := removed.info;
    removed.info := item.info;
    item.info := tmp;
    removed.next := item.next;
    item.next := removed;
    ret := removed;
  }

  /** Undoing a removal restores the list: its nodes, their order and their keys. */
  method RemoveAndUndo<T>(item: Node<T>, ghost s: seq<Node<T>>, ghost head: Node?<T>, ghost k: nat)
    requires Chain(head, s) && k + 1 < |s| && item == s[k]
    modifies item, s[k + 1]
    ensures Chain(head, s) && forall i :: 0 <= i < |s| ==> s[i].info == old(s[i].info)
  {
    var removed := Remove(item, s, head, k);
    ghost var t := s[..k + 1] + s[k + 2..];
    var _ := UndoRemove(removed, item, t, head, k);
    assert t[..k + 1] + [removed] + t[k + 1..] == s;
  }
}
