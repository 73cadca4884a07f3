/** kernel/src/pmm.c: first-fit allocation; the headers form a doubly linked list inside the memory that is handed out. */
module Pmm {
  import opened Bits
  import opened Wrappers

  /** sizeof(struct node) on a 32-bit machine, and the null pointer. */
  const BIAS: nat := 16
  const NULL: u32 := 0

  /** struct node */
  datatype Node = Node(next: u32, pre: u32, start: u32, end: u32)

  /** A header with its payload: what a node stands for. */
  datatype Block = Block(start: int, end: int)

  // ---- Blocks ----

  /** Blocks in address order, with room for a header each, between the two that bound the heap from lo to hi. */
  ghost predicate Ordered(blocks: seq<Block>, lo: nat, hi: nat) {
    && 0 < lo && BIAS <= hi < W32 && |blocks| >= 2
    && blocks[0] == Block(lo, lo + BIAS) && blocks[|blocks| - 1] == Block(hi - BIAS, hi)
    && (forall i :: 0 <= i < |blocks| ==> blocks[i].start + BIAS <= blocks[i].end)
    && (forall i, j :: 0 <= i < j < |blocks| ==> Precedes(blocks, i, j))
  }

  ghost predicate Precedes(blocks: seq<Block>, i: nat, j: nat)
    requires i < |blocks| && j < |blocks|
  {
    blocks[i].end <= blocks[j].start
  }

  /** Headers and payloads of different blocks are disjoint and inside the heap. */
  lemma BlocksDisjoint(blocks: seq<Block>, lo: nat, hi: nat, i: nat, j: nat, a: nat)
    requires Ordered(blocks, lo, hi) && i < |blocks| && j < |blocks| && i != j && blocks[i].start <= a < blocks[i].end
    ensures lo <= a < hi && !(blocks[j].start <= a < blocks[j].end)
  {
    assert i > 0 ==> Precedes(blocks, 0, i);
    assert i < |blocks| - 1 ==> Precedes(blocks, i, |blocks| - 1);
    assert if i < j then Precedes(blocks, i, j) else Precedes(blocks, j, i);
  }

  predicate Gap(blocks: seq<Block>, i: nat, need: nat)
    requires i + 1 < |blocks|
  {
    blocks[i + 1].start - blocks[i].end >= need
  }

  /** The first block from i on behind which there is room, or the last block. */
  function FirstFit(blocks: seq<Block>, need: nat, i: nat): (r: nat)
    requires i < |blocks|
    ensures i <= r < |blocks|
    ensures r + 1 < |blocks| ==> Gap(blocks, r, need)
    ensures forall k :: i <= k < r ==> !Gap(blocks, k, need)
    decreases |blocks| - i
  {
    if i + 1 == |blocks| || Gap(blocks, i, need) then i else FirstFit(blocks, need, i + 1)
  }

  function Inserted(blocks: seq<Block>, i: nat, size: nat): seq<Block>
    requires i < |blocks|
  {
    blocks[..i + 1] + [Block(blocks[i].end, blocks[i].end + size + BIAS)] + blocks[i + 1..]
  }

  /** kalloc, on blocks: nothing changes when no gap is large enough. */
  function Allocated(blocks: seq<Block>, size: nat): seq<Block>
    requires blocks != []
  {
    var i := FirstFit(blocks, size + BIAS, 0);
    if i + 1 < |blocks| then Inserted(blocks, i, size) else blocks
  }

  lemma InsertedAt(blocks: seq<Block>, i: nat, size: nat, k: nat)
    requires i < |blocks| && k < |Inserted(blocks, i, size)|
    ensures |Inserted(blocks, i, size)| == |blocks| + 1
    ensures Inserted(blocks, i, size)[k] ==
      if k <= i then blocks[k] else if k == i + 1 then Block(blocks[i].end, blocks[i].end + size + BIAS) else blocks[k - 1]
  {
  }

  lemma InsertedPair(blocks: seq<Block>, lo: nat, hi: nat, i: nat, size: nat, k: nat, l: nat)
    requires Ordered(blocks, lo, hi) && i + 1 < |blocks| && Gap(blocks, i, size + BIAS) && k < l < |Inserted(blocks, i, size)|
    ensures Precedes(Inserted(blocks, i, size), k, l)
  {
    InsertedAt(blocks, i, size, k);
    InsertedAt(blocks, i, size, l);
    var kk, ll := if k <= i + 1 then Min(k, i) else k - 1, if l <= i then l else l - 1;
    assert kk < ll ==> Precedes(blocks, kk, ll);
    assert i + 1 < ll ==> Precedes(blocks, i + 1, ll);
  }

  lemma AllocatedOrdered(blocks: seq<Block>, lo: nat, hi: nat, size: nat)
    requires Ordered(blocks, lo, hi)
    ensures Ordered(Allocated(blocks, size), lo, hi)
  {
    var i := FirstFit(blocks, size + BIAS, 0);
    if i + 1 < |blocks| {
      InsertedOrdered(blocks, lo, hi, i, size);
    }
  }

  lemma InsertedOrdered(blocks: seq<Block>, lo: nat, hi: nat, i: nat, size: nat)
    requires Ordered(blocks, lo, hi) && i + 1 < |blocks| && Gap(blocks, i, size + BIAS)
    ensures Ordered(Inserted(blocks, i, size), lo, hi)
  {
    var after := Inserted(blocks, i, size);
    forall k, l | 0 <= k < l < |after| ensures Precedes(after, k, l) {
      InsertedPair(blocks, lo, hi, i, size, k, l);
    }
    forall k | 0 <= k < |after| ensures after[k].start + BIAS <= after[k].end {
      InsertedAt(blocks, i, size, k);
    }
    InsertedAt(blocks, i, size, 0);
    InsertedAt(blocks, i, size, |blocks|);
  }

  function Removed(blocks: seq<Block>, i: nat): seq<Block>
    requires i < |blocks|
  {
    blocks[..i] + blocks[i + 1..]
  }

  lemma RemovedOrdered(blocks: seq<Block>, lo: nat, hi: nat, i: nat)
    requires Ordered(blocks, lo, hi) && 0 < i < |blocks| - 1
    ensures Ordered(Removed(blocks, i), lo, hi)
  {
    var after := Removed(blocks, i);
    forall k, l | 0 <= k < l < |after| ensures Precedes(after, k, l) {
      assert Precedes(blocks, if k < i then k else k + 1, if l < i then l else l + 1);
    }
  }

  /** Freeing what has just been allocated undoes the allocation. */
  lemma FreeUndoesAlloc(blocks: seq<Block>, size: nat)
    requires blocks != []
    ensures var i := FirstFit(blocks, size + BIAS, 0);
      i + 1 < |blocks| ==> Removed(Allocated(blocks, size), i + 1) == blocks
  {
  }

  /** The live block whose payload starts at ptr, or none. */
  predicate Live(blocks: seq<Block>, ptr: int) {
    exists i :: 0 < i < |blocks| - 1 && blocks[i].start == ptr - BIAS
  }

  function Find(blocks: seq<Block>, ptr: int, i: nat): (r: nat)
    requires i <= |blocks|
    ensures r <= |blocks| && (r < |blocks| ==> i <= r && blocks[r].start == ptr - BIAS)
    ensures forall k :: i <= k < r ==> blocks[k].start != ptr - BIAS
    decreases |blocks| - i
  {
    if i == |blocks| || blocks[i].start == ptr - BIAS then i else Find(blocks, ptr, i + 1)
  }

  /** kfree, on blocks. */
  function Freed(blocks: seq<Block>, ptr: int): seq<Block> {
    var i := Find(blocks, ptr, 0);
    if i < |blocks| then Removed(blocks, i) else blocks
  }

  function FreedAll(blocks: seq<Block>, ptrs: seq<int>): seq<Block> {
    if ptrs == [] then blocks else FreedAll(Freed(blocks, ptrs[0]), ptrs[1..])
  }

  /** ptrs names every live block once, in any order. */
  ghost predicate NamesAll(blocks: seq<Block>, ptrs: seq<int>) {
    && |ptrs| + 2 == |blocks|
    && (forall k, l :: 0 <= k < l < |ptrs| ==> Differ(ptrs, k, l))
    && (forall k :: 0 <= k < |ptrs| ==> Live(blocks, ptrs[k]))
  }

  ghost predicate Differ(ptrs: seq<int>, k: nat, l: nat)
    requires k < |ptrs| && l < |ptrs|
  {
    ptrs[k] != ptrs[l]
  }

  lemma StartsApart(blocks: seq<Block>, lo: nat, hi: nat, i: nat, j: nat)
    requires Ordered(blocks, lo, hi) && i < j < |blocks|
    ensures blocks[i].start < blocks[j].start
  {
    assert Precedes(blocks, i, j);
  }

  lemma FindLive(blocks: seq<Block>, lo: nat, hi: nat, ptr: int)
    requires Ordered(blocks, lo, hi) && Live(blocks, ptr)
    ensures var i := Find(blocks, ptr, 0); 0 < i < |blocks| - 1 && blocks[i].start == ptr - BIAS
  {
    var j :| 0 < j < |blocks| - 1 && blocks[j].start == ptr - BIAS;
    var i := Find(blocks, ptr, 0);
    assert Precedes(blocks, 0, j);
  }

  lemma StillLive(blocks: seq<Block>, lo: nat, hi: nat, p: int, q: int)
    requires Ordered(blocks, lo, hi) && Live(blocks, p) && Live(blocks, q) && p != q
    ensures Live(Freed(blocks, p), q)
  {
    FindLive(blocks, lo, hi, p);
    FindLive(blocks, lo, hi, q);
    OthersStay(blocks, Find(blocks, p, 0), Find(blocks, q, 0), q);
  }

  lemma OthersStay(blocks: seq<Block>, i: nat, j: nat, q: int)
    requires 0 < i < |blocks| - 1 && 0 < j < |blocks| - 1 && i != j && blocks[j].start == q - BIAS
    ensures Live(Removed(blocks, i), q)
  {
    var k := if j < i then j else j - 1;
    RemovedAt(blocks, i, k);
    assert Removed(blocks, i)[k].start == q - BIAS;
  }

  /** Freeing all live blocks, in any order, leaves the list as list_init makes it. */
  lemma {:induction false} FreeingAllRestores(blocks: seq<Block>, lo: nat, hi: nat, ptrs: seq<int>)
    requires Ordered(blocks, lo, hi) && NamesAll(blocks, ptrs)
    ensures FreedAll(blocks, ptrs) == [Block(lo, lo + BIAS), Block(hi - BIAS, hi)]
    decreases |ptrs|
  {
    if ptrs != [] {
      assert Live(blocks, ptrs[0]);
      FindLive(blocks, lo, hi, ptrs[0]);
      RemovedOrdered(blocks, lo, hi, Find(blocks, ptrs[0], 0));
      StillNamed(blocks, lo, hi, ptrs);
      FreeingAllRestores(Freed(blocks, ptrs[0]), lo, hi, ptrs[1..]);
    }
  }

  lemma StillNamed(blocks: seq<Block>, lo: nat, hi: nat, ptrs: seq<int>)
    requires Ordered(blocks, lo, hi) && NamesAll(blocks, ptrs) && ptrs != []
    ensures NamesAll(Freed(blocks, ptrs[0]), ptrs[1..])
  {
    var after, rest := Freed(blocks, ptrs[0]), ptrs[1..];
    assert Live(blocks, ptrs[0]);
    FindLive(blocks, lo, hi, ptrs[0]);
    forall k | 0 <= k < |rest| ensures Live(after, rest[k]) {
      assert Differ(ptrs, 0, k + 1);
      StillLive(blocks, lo, hi, ptrs[0], ptrs[k + 1]);
    }
    forall k, l | 0 <= k < l < |rest| ensures Differ(rest, k, l) {
      assert Differ(ptrs, k + 1, l + 1);
    }
  }

  /** Calls of kalloc and kfree. */
  datatype Op = Alloc(size: nat) | Free(ptr: int)

  function Applied(blocks: seq<Block>, op: Op): seq<Block>
    requires blocks != []
  {
    match op
    case Alloc(size) => Allocated(blocks, size)
    case Free(ptr) => Freed(blocks, ptr)
  }

  /** states are the blocks before, between and after the calls; only live blocks are freed. */
  ghost predicate Run(states: seq<seq<Block>>, ops: seq<Op>, lo: nat, hi: nat) {
    && |states| == |ops| + 1 && 0 < lo && lo + 2 * BIAS <= hi < W32
    && states[0] == [Block(lo, lo + BIAS), Block(hi - BIAS, hi)]
    && forall i :: 0 <= i < |ops| ==> CallsAt(states, ops, i)
  }

  ghost predicate CallsAt(states: seq<seq<Block>>, ops: seq<Op>, i: nat)
    requires i < |ops| && i + 1 < |states|
  {
    Calls(states[i], ops[i], states[i + 1])
  }

  ghost predicate Calls(before: seq<Block>, op: Op, after: seq<Block>) {
    before != [] && after == Applied(before, op) && (op.Free? ==> Live(before, op.ptr))
  }

  /** In every run blocks stay disjoint, in address order and inside the heap. */
  lemma {:induction false} RunOrdered(states: seq<seq<Block>>, ops: seq<Op>, lo: nat, hi: nat, i: nat)
    requires Run(states, ops, lo, hi) && i < |states|
    ensures Ordered(states[i], lo, hi)
  {
    if i > 0 {
      RunOrdered(states, ops, lo, hi, i - 1);
      assert CallsAt(states, ops, i - 1);
      match ops[i - 1]
      case Alloc(size) => AllocatedOrdered(states[i - 1], lo, hi, size);
      case Free(ptr) =>
        FindLive(states[i - 1], lo, hi, ptr);
        RemovedOrdered(states[i - 1], lo, hi, Find(states[i - 1], ptr, 0));
    }
  }

  /** The payloads handed out by the first i calls and not freed since: where each starts, and the size that was asked for. */
  ghost function Lent(states: seq<seq<Block>>, ops: seq<Op>, i: nat): map<int, nat>
    requires i <= |ops| && i <= |states|
  {
    if i == 0 then map[] else LentAfter(Lent(states, ops, i - 1), states[i - 1], ops[i - 1])
  }

  function LentAfter(lent: map<int, nat>, blocks: seq<Block>, op: Op): map<int, nat> {
    match op
    case Free(ptr) => lent - {ptr}
    case Alloc(size) => if Handed(blocks, size) == NULL then lent else lent[Handed(blocks, size) := size]
  }

  /** What kalloc returns. */
  function Handed(blocks: seq<Block>, size: nat): int {
    if blocks == [] then NULL else
      var i := FirstFit(blocks, size + BIAS, 0);
      if i + 1 < |blocks| then blocks[i].end + BIAS else NULL
  }

  /** The bytes between block i and the next. */
  function Room(blocks: seq<Block>, i: nat): int
    requires i + 1 < |blocks|
  {
    blocks[i + 1].start - blocks[i].end
  }

  /** It is the payload at the start of the lowest gap that holds header and payload, or null exactly when no gap does. */
  lemma HandedLowest(blocks: seq<Block>, lo: nat, hi: nat, size: nat) returns (i: nat)
    requires Ordered(blocks, lo, hi)
    ensures Handed(blocks, size) == NULL <==> forall k :: 0 <= k < |blocks| - 1 ==> Room(blocks, k) < size + BIAS
    ensures Handed(blocks, size) != NULL ==>
      && i + 1 < |blocks| && Handed(blocks, size) == blocks[i].end + BIAS && Room(blocks, i) >= size + BIAS
      && forall k :: 0 <= k < i ==> Room(blocks, k) < size + BIAS
  {
    i := FirstFit(blocks, size + BIAS, 0);
    HandedNotNull(blocks, lo, hi, i);
    forall k | 0 <= k < i ensures Room(blocks, k) < size + BIAS {
      assert !Gap(blocks, k, size + BIAS);
    }
    assert i + 1 < |blocks| ==> Room(blocks, i) >= size + BIAS;
  }

  /** A block that stays, at its new place after a call. */
  lemma StaysAllocated(blocks: seq<Block>, size: nat, j: nat) returns (k: nat)
    requires 0 < j < |blocks| - 1
    ensures 0 < k < |Allocated(blocks, size)| - 1 && Allocated(blocks, size)[k] == blocks[j]
  {
    var i := FirstFit(blocks, size + BIAS, 0);
    k := j;
    if i + 1 < |blocks| {
      k := if j <= i then j else j + 1;
      InsertedAt(blocks, i, size, k);
    }
  }

  lemma StaysFreed(blocks: seq<Block>, lo: nat, hi: nat, ptr: int, j: nat) returns (k: nat)
    requires Ordered(blocks, lo, hi) && Live(blocks, ptr) && 0 < j < |blocks| - 1 && blocks[j].start != ptr - BIAS
    ensures 0 < k < |Freed(blocks, ptr)| - 1 && Freed(blocks, ptr)[k] == blocks[j]
  {
    FindLive(blocks, lo, hi, ptr);
    var i := Find(blocks, ptr, 0);
    k := if j < i then j else j - 1;
    RemovedAt(blocks, i, k);
  }

  /** Payload p is all of block j but its header. */
  ghost predicate IsBlock(blocks: seq<Block>, lent: map<int, nat>, p: int, j: nat) {
    p in lent && 0 < j < |blocks| - 1 && blocks[j] == Block(p - BIAS, p + lent[p])
  }

  lemma AllocBlock(blocks: seq<Block>, lent: map<int, nat>, size: nat, p: int, j0: nat) returns (j: nat)
    requires |blocks| >= 2 && p in LentAfter(lent, blocks, Alloc(size)) && (p in lent ==> IsBlock(blocks, lent, p, j0))
    ensures IsBlock(Allocated(blocks, size), LentAfter(lent, blocks, Alloc(size)), p, j)
  {
    if p == Handed(blocks, size) && p != NULL {
      j := FirstFit(blocks, size + BIAS, 0) + 1;
      InsertedAt(blocks, j - 1, size, j);
    } else {
      j := StaysAllocated(blocks, size, j0);
    }
  }

  lemma FreeBlock(blocks: seq<Block>, lent: map<int, nat>, lo: nat, hi: nat, ptr: int, p: int, j0: nat) returns (j: nat)
    requires Ordered(blocks, lo, hi) && Live(blocks, ptr) && p != ptr && IsBlock(blocks, lent, p, j0)
    ensures IsBlock(Freed(blocks, ptr), LentAfter(lent, blocks, Free(ptr)), p, j)
  {
    j := StaysFreed(blocks, lo, hi, ptr, j0);
  }

  /** Every payload that is lent is all of a block but its header. */
  lemma {:induction false} LentBlock(states: seq<seq<Block>>, ops: seq<Op>, lo: nat, hi: nat, i: nat, p: int) returns (j: nat)
    requires Run(states, ops, lo, hi) && i < |states| && p in Lent(states, ops, i)
    ensures IsBlock(states[i], Lent(states, ops, i), p, j)
  {
    var before, lent := states[i - 1], Lent(states, ops, i - 1);
    assert CallsAt(states, ops, i - 1);
    RunOrdered(states, ops, lo, hi, i - 1);
    j := 0;
    if p in lent {
      j := LentBlock(states, ops, lo, hi, i - 1, p);
    }
    match ops[i - 1]
    case Free(ptr) => j := FreeBlock(before, lent, lo, hi, ptr, p, j);
    case Alloc(size) => j := AllocBlock(before, lent, size, p, j);
  }

  /**
   * In every run, what has been handed out and not freed lies inside the heap, as long as was asked for, and apart from every
   * other such payload and its header.
   */
  lemma LentApart(states: seq<seq<Block>>, ops: seq<Op>, lo: nat, hi: nat, i: nat, p: int, q: int)
    requires Run(states, ops, lo, hi) && i < |states| && p in Lent(states, ops, i) && q in Lent(states, ops, i)
    ensures var lent := Lent(states, ops, i);
      && lo + 2 * BIAS <= p && p + lent[p] <= hi - BIAS && Live(states[i], p)
      && (p < q ==> p + lent[p] <= q - BIAS)
  {
    RunOrdered(states, ops, lo, hi, i);
    var blocks := states[i];
    var j := LentBlock(states, ops, lo, hi, i, p);
    var k := LentBlock(states, ops, lo, hi, i, q);
    assert Precedes(blocks, 0, j) && Precedes(blocks, j, |blocks| - 1);
    assert if j < k then Precedes(blocks, j, k) else k < j ==> Precedes(blocks, k, j);
  }

  ghost predicate AllLent(blocks: seq<Block>, lent: map<int, nat>) {
    forall j :: 0 < j < |blocks| - 1 ==> LentAt(blocks, lent, j)
  }

  ghost predicate LentAt(blocks: seq<Block>, lent: map<int, nat>, j: nat)
    requires j < |blocks|
  {
    blocks[j].start + BIAS in lent
  }

  lemma AllocAllLent(blocks: seq<Block>, lent: map<int, nat>, lo: nat, hi: nat, size: nat)
    requires Ordered(blocks, lo, hi) && AllLent(blocks, lent)
    ensures AllLent(Allocated(blocks, size), LentAfter(lent, blocks, Alloc(size)))
  {
    var f, after := FirstFit(blocks, size + BIAS, 0), Allocated(blocks, size);
    if f + 1 < |blocks| {
      HandedNotNull(blocks, lo, hi, f);
      forall j | 0 < j < |after| - 1 ensures LentAt(after, LentAfter(lent, blocks, Alloc(size)), j) {
        InsertedAt(blocks, f, size, j);
        assert j != f + 1 ==> LentAt(blocks, lent, if j <= f then j else j - 1);
      }
    }
  }

  lemma HandedNotNull(blocks: seq<Block>, lo: nat, hi: nat, i: nat)
    requires Ordered(blocks, lo, hi) && i < |blocks|
    ensures blocks[i].end > 0
  {
    assert i > 0 ==> Precedes(blocks, 0, i);
  }

  lemma FreeAllLent(blocks: seq<Block>, lent: map<int, nat>, lo: nat, hi: nat, ptr: int)
    requires Ordered(blocks, lo, hi) && AllLent(blocks, lent) && Live(blocks, ptr)
    ensures AllLent(Freed(blocks, ptr), LentAfter(lent, blocks, Free(ptr)))
  {
    FindLive(blocks, lo, hi, ptr);
    var f, after := Find(blocks, ptr, 0), Freed(blocks, ptr);
    forall j | 0 < j < |after| - 1 ensures LentAt(after, LentAfter(lent, blocks, Free(ptr)), j) {
      var k := if j < f then j else j + 1;
      RemovedAt(blocks, f, j);
      StartsDiffer(blocks, lo, hi, f, k);
      assert LentAt(blocks, lent, k);
    }
  }

  lemma CallAllLent(blocks: seq<Block>, lent: map<int, nat>, lo: nat, hi: nat, op: Op)
    requires Ordered(blocks, lo, hi) && AllLent(blocks, lent) && (op.Free? ==> Live(blocks, op.ptr))
    ensures AllLent(Applied(blocks, op), LentAfter(lent, blocks, op))
  {
    match op
    case Free(ptr) => FreeAllLent(blocks, lent, lo, hi, ptr);
    case Alloc(size) => AllocAllLent(blocks, lent, lo, hi, size);
  }

  /** And there is no other block: whatever is not lent is free. */
  lemma {:induction false} BlocksLent(states: seq<seq<Block>>, ops: seq<Op>, lo: nat, hi: nat, i: nat)
    requires Run(states, ops, lo, hi) && i < |states|
    ensures AllLent(states[i], Lent(states, ops, i))
  {
    if i > 0 {
      BlocksLent(states, ops, lo, hi, i - 1);
      assert CallsAt(states, ops, i - 1);
      RunOrdered(states, ops, lo, hi, i - 1);
      CallAllLent(states[i - 1], Lent(states, ops, i - 1), lo, hi, ops[i - 1]);
    }
  }

  lemma StartsDiffer(blocks: seq<Block>, lo: nat, hi: nat, i: nat, j: nat)
    requires Ordered(blocks, lo, hi) && i < |blocks| && j < |blocks| && i != j
    ensures blocks[i].start != blocks[j].start
  {
    StartsApart(blocks, lo, hi, if i < j then i else j, if i < j then j else i);
  }

  // ---- Headers ----

  /** The address after block i in the list, and the one before. */
  function NextOf(blocks: seq<Block>, i: nat): int {
    if i + 1 < |blocks| then blocks[i + 1].start else NULL
  }

  function PreOf(blocks: seq<Block>, i: nat): int {
    if 0 < i <= |blocks| then blocks[i - 1].start else NULL
  }

  /** Header i links to the blocks before and after it, and holds its own bounds. */
  predicate Header(mem: map<int, Node>, blocks: seq<Block>, i: nat)
    requires i < |blocks|
  {
    var a := blocks[i].start;
    a in mem && mem[a].next == NextOf(blocks, i) && mem[a].pre == PreOf(blocks, i) && mem[a].start == a && mem[a].end == blocks[i].end
  }

  ghost predicate Headers(mem: map<int, Node>, blocks: seq<Block>) {
    forall i :: 0 <= i < |blocks| ==> Header(mem, blocks, i)
  }

  /** add_node on the memory: the new header, the pre field behind it, the next field before it. */
  function Added(mem: map<int, Node>, p: int, size: u32): map<int, Node>
    requires p in mem && mem[p].next in mem
  {
    var tmp := mem[p].end;
    var m1 := mem[tmp := Node(mem[p].next, mem[p].start, tmp, ToU32(tmp + size + BIAS))];
    var m2 := m1[mem[p].next := m1[mem[p].next].(pre := tmp)];
    m2[p := m2[p].(next := tmp)]
  }

  /** Where the header at block j ends up. */
  lemma AddedAt(mem: map<int, Node>, blocks: seq<Block>, lo: nat, hi: nat, i: nat, size: u32, j: nat)
    requires Ordered(blocks, lo, hi) && Headers(mem, blocks) && i + 1 < |blocks| && Gap(blocks, i, size + BIAS) && j < |blocks|
    ensures Header(mem, blocks, i) && blocks[i].start in mem && mem[blocks[i].start].next in mem
    ensures var mem2 := Added(mem, blocks[i].start, size); var a := blocks[j].start;
      && a in mem2 && mem2[a].start == a && mem2[a].end == blocks[j].end
      && mem2[a].next == (if j == i then blocks[i].end else NextOf(blocks, j))
      && mem2[a].pre == if j == i + 1 then blocks[i].end else PreOf(blocks, j)
  {
    assert Header(mem, blocks, i) && Header(mem, blocks, i + 1) && Header(mem, blocks, j);
    assert j < i ==> Precedes(blocks, j, i);
    assert j > i + 1 ==> Precedes(blocks, i + 1, j);
    assert j < i + 1 ==> Precedes(blocks, j, i + 1);
  }

  lemma AddedNew(mem: map<int, Node>, blocks: seq<Block>, lo: nat, hi: nat, i: nat, size: u32)
    requires Ordered(blocks, lo, hi) && Headers(mem, blocks) && i + 1 < |blocks| && Gap(blocks, i, size + BIAS)
    ensures Header(mem, blocks, i) && Header(mem, blocks, i + 1) && blocks[i].start in mem && mem[blocks[i].start].next in mem
    ensures var e := blocks[i].end; var mem2 := Added(mem, blocks[i].start, size);
      e in mem2 && mem2[e] == Node(blocks[i + 1].start, blocks[i].start, e, e + size + BIAS)
  {
    assert Header(mem, blocks, i) && Header(mem, blocks, i + 1);
  }

  lemma AddedHeader(mem: map<int, Node>, blocks: seq<Block>, lo: nat, hi: nat, i: nat, size: u32, k: nat)
    requires Ordered(blocks, lo, hi) && Headers(mem, blocks) && i + 1 < |blocks| && Gap(blocks, i, size + BIAS)
    requires k <= |blocks| && |Inserted(blocks, i, size)| == |blocks| + 1
    ensures Header(mem, blocks, i) && blocks[i].start in mem && mem[blocks[i].start].next in mem
    ensures Header(Added(mem, blocks[i].start, size), Inserted(blocks, i, size), k)
  {
    AddedNew(mem, blocks, lo, hi, i, size);
    InsertedAt(blocks, i, size, k);
    if k > 0 {
      InsertedAt(blocks, i, size, k - 1);
    }
    if k < |blocks| {
      InsertedAt(blocks, i, size, k + 1);
    }
    if k != i + 1 {
      AddedAt(mem, blocks, lo, hi, i, size, if k <= i then k else k - 1);
    }
  }

  lemma AddedHeaders(mem: map<int, Node>, blocks: seq<Block>, lo: nat, hi: nat, i: nat, size: u32)
    requires Ordered(blocks, lo, hi) && Headers(mem, blocks) && i + 1 < |blocks| && Gap(blocks, i, size + BIAS)
    ensures Header(mem, blocks, i) && Header(mem, blocks, i + 1) && blocks[i].start in mem && mem[blocks[i].start].next in mem
    ensures Headers(Added(mem, blocks[i].start, size), Inserted(blocks, i, size))
  {
    AddedNew(mem, blocks, lo, hi, i, size);
    InsertedAt(blocks, i, size, 0);
    forall k | 0 <= k < |Inserted(blocks, i, size)|
      ensures Header(Added(mem, blocks[i].start, size), Inserted(blocks, i, size), k)
    {
      AddedHeader(mem, blocks, lo, hi, i, size, k);
    }
  }

  predicate Started(mem: map<int, Node>, p: int) { p in mem && mem[p].next in mem }

  /** The headers in memory describe some ordered blocks between lo and hi. */
  ghost predicate Repairable(mem: map<int, Node>, lo: nat, hi: nat) {
    exists blocks :: Ordered(blocks, lo, hi) && Headers(mem, blocks)
  }

  /** A block that is not the last, and the one behind it, as the list shows them. */
  lemma Neighbours(mem: map<int, Node>, blocks: seq<Block>, lo: nat, hi: nat, i: nat)
    requires Ordered(blocks, lo, hi) && Headers(mem, blocks) && i < |blocks| && blocks[i].start != hi - BIAS
    ensures i + 1 < |blocks|
    ensures var p, q := blocks[i].start, blocks[i + 1].start;
      p in mem && q in mem && mem[p].next == q && mem[q].pre == p && mem[p].end == blocks[i].end && mem[q].start == q
  {
    assert Header(mem, blocks, i);
    if i + 1 < |blocks| {
      assert Header(mem, blocks, i + 1);
    }
  }

  lemma LastIsTail(blocks: seq<Block>, lo: nat, hi: nat, i: nat)
    requires Ordered(blocks, lo, hi) && i < |blocks| && blocks[i].start == hi - BIAS
    ensures i + 1 == |blocks|
  {
    assert blocks[i].start + BIAS <= blocks[i].end;
    assert i + 1 < |blocks| ==> Precedes(blocks, i, |blocks| - 1);
  }

  lemma AddedFits(mem: map<int, Node>, blocks: seq<Block>, lo: nat, hi: nat, i: nat, size: u32)
    requires Ordered(blocks, lo, hi) && Headers(mem, blocks) && i + 1 < |blocks| && Gap(blocks, i, ToU32(size + BIAS))
    ensures Header(mem, blocks, i) && Started(mem, blocks[i].start) && 0 < blocks[i].end && blocks[i].end + BIAS < W32
    ensures var mem2 := Added(mem, blocks[i].start, size);
      if size + BIAS < W32 then Headers(mem2, Inserted(blocks, i, size)) && Ordered(Inserted(blocks, i, size), lo, hi)
      else !Repairable(mem2, lo, hi)
  {
    assert Header(mem, blocks, i) && Header(mem, blocks, i + 1);
    if size + BIAS < W32 {
      AddedHeaders(mem, blocks, lo, hi, i, size);
      InsertedOrdered(blocks, lo, hi, i, size);
    } else {
      var mem2 := Added(mem, blocks[i].start, size);
      forall b: seq<Block> | Headers(mem2, b) && b != [] && b[0].start == lo ensures !Ordered(b, lo, hi) {
        WrapBreaks(mem, blocks, lo, hi, i, size, b);
      }
    }
  }

  /** A list that starts at the same address leads to the same addresses up to block k. */
  lemma {:induction false} SameWay(mem: map<int, Node>, blocks: seq<Block>, lo: nat, hi: nat, i: nat, size: u32, b: seq<Block>, k: nat)
    requires Ordered(blocks, lo, hi) && Headers(mem, blocks) && k <= i && i + 1 < |blocks|
    requires Header(mem, blocks, i) && Started(mem, blocks[i].start)
    requires Headers(Added(mem, blocks[i].start, size), b) && b != [] && b[0].start == lo
    ensures k < |b| && b[k].start == blocks[k].start
  {
    if k > 0 {
      SameWay(mem, blocks, lo, hi, i, size, b, k - 1);
      StartsApart(blocks, lo, hi, k - 1, i);
      assert Precedes(blocks, k - 1, i) && Precedes(blocks, k - 1, i + 1);
      assert Header(mem, blocks, k - 1) && Header(Added(mem, blocks[i].start, size), b, k - 1);
      assert Precedes(blocks, 0, k);
    }
  }

  /**
   * When size + BIAS wraps, the new header is longer than the block it describes, and no list from head avoids it. Where the
   * gap is shorter than a header, the new header overwrites part of the next one as well; memory as a map from addresses to
   * whole headers does not show that.
   */
  lemma WrapBreaks(mem: map<int, Node>, blocks: seq<Block>, lo: nat, hi: nat, i: nat, size: u32, b: seq<Block>)
    requires Ordered(blocks, lo, hi) && Headers(mem, blocks) && i + 1 < |blocks| && Gap(blocks, i, ToU32(size + BIAS))
    requires size + BIAS >= W32 && Header(mem, blocks, i) && Started(mem, blocks[i].start)
    requires Headers(Added(mem, blocks[i].start, size), b) && b != [] && b[0].start == lo
    ensures i + 1 < |b| && b[i + 1].end < b[i + 1].start + BIAS
  {
    SameWay(mem, blocks, lo, hi, i, size, b, i);
    assert i > 0 ==> Precedes(blocks, 0, i);
    assert blocks[0].start < blocks[i].end;
    assert Header(Added(mem, blocks[i].start, size), b, i);
    assert i + 1 < |b|;
    assert Header(Added(mem, blocks[i].start, size), b, i + 1);
  }

  /** delete_node on the memory. */
  function Deleted(mem: map<int, Node>, p: int): map<int, Node>
    requires p in mem && mem[p].next in mem && mem[p].pre in mem
  {
    var m := mem[mem[p].next := mem[mem[p].next].(pre := mem[p].pre)];
    m[m[p].pre := m[m[p].pre].(next := m[p].next)]
  }

  lemma RemovedAt(blocks: seq<Block>, i: nat, k: nat)
    requires i < |blocks| && k < |Removed(blocks, i)|
    ensures |Removed(blocks, i)| == |blocks| - 1 && Removed(blocks, i)[k] == blocks[if k < i then k else k + 1]
  {
  }

  /** Where the header at block j ends up. */
  lemma DeletedAt(mem: map<int, Node>, blocks: seq<Block>, lo: nat, hi: nat, i: nat, j: nat)
    requires Ordered(blocks, lo, hi) && Headers(mem, blocks) && 0 < i < |blocks| - 1 && j < |blocks| && j != i
    ensures var p := blocks[i].start; p in mem && mem[p].next in mem && mem[p].pre in mem
    ensures var mem2 := Deleted(mem, blocks[i].start); var a := blocks[j].start;
      && a in mem2 && mem2[a].start == a && mem2[a].end == blocks[j].end
      && mem2[a].next == (if j == i - 1 then blocks[i + 1].start else NextOf(blocks, j))
      && mem2[a].pre == if j == i + 1 then blocks[i - 1].start else PreOf(blocks, j)
  {
    assert Header(mem, blocks, i) && Header(mem, blocks, i + 1) && Header(mem, blocks, i - 1) && Header(mem, blocks, j);
    StartsApart(blocks, lo, hi, i - 1, i);
    StartsApart(blocks, lo, hi, i, i + 1);
    assert j < i - 1 ==> Precedes(blocks, j, i - 1);
    assert j > i + 1 ==> Precedes(blocks, i + 1, j);
    assert Precedes(blocks, i - 1, i + 1);
  }

  lemma DeletedHeader(mem: map<int, Node>, blocks: seq<Block>, lo: nat, hi: nat, i: nat, k: nat)
    requires Ordered(blocks, lo, hi) && Headers(mem, blocks) && 0 < i < |blocks| - 1
    requires k + 1 < |blocks| && |Removed(blocks, i)| == |blocks| - 1
    ensures var p := blocks[i].start; p in mem && mem[p].next in mem && mem[p].pre in mem
    ensures Header(Deleted(mem, blocks[i].start), Removed(blocks, i), k)
  {
    RemovedAt(blocks, i, k);
    if k > 0 {
      RemovedAt(blocks, i, k - 1);
    }
    if k + 2 < |blocks| {
      RemovedAt(blocks, i, k + 1);
    }
    DeletedAt(mem, blocks, lo, hi, i, if k < i then k else k + 1);
  }

  lemma DeletedHeaders(mem: map<int, Node>, blocks: seq<Block>, lo: nat, hi: nat, i: nat)
    requires Ordered(blocks, lo, hi) && Headers(mem, blocks) && 0 < i < |blocks| - 1
    ensures var p := blocks[i].start; p in mem && mem[p].next in mem && mem[p].pre in mem
    ensures Headers(Deleted(mem, blocks[i].start), Removed(blocks, i))
  {
    RemovedAt(blocks, i, 0);
    DeletedAt(mem, blocks, lo, hi, i, 0);
    forall k | 0 <= k < |Removed(blocks, i)| ensures Header(Deleted(mem, blocks[i].start), Removed(blocks, i), k) {
      DeletedHeader(mem, blocks, lo, hi, i, k);
    }
  }

  /** What kalloc returns is a payload of its own: one block, of which it is all but the header. */
  lemma PayloadIsOwn(blocks: seq<Block>, lo: nat, hi: nat, size: nat, j: nat, a: nat)
    requires Ordered(blocks, lo, hi)
    ensures var i := FirstFit(blocks, size + BIAS, 0); var after := Allocated(blocks, size);
      i + 1 < |blocks| && j < |after| && j != i + 1 && blocks[i].end + BIAS <= a < blocks[i].end + BIAS + size ==>
        lo <= a < hi && !(after[j].start <= a < after[j].end)
  {
    var i := FirstFit(blocks, size + BIAS, 0);
    if i + 1 < |blocks| && j < |Allocated(blocks, size)| && j != i + 1 && blocks[i].end + BIAS <= a < blocks[i].end + BIAS + size {
      AllocatedOrdered(blocks, lo, hi, size);
      InsertedAt(blocks, i, size, i + 1);
      BlocksDisjoint(Allocated(blocks, size), lo, hi, i + 1, j, a);
    }
  }

  class Heap {
    /** The memory, by the address of each header that has been written. */
    var mem: map<int, Node>
    const head: u32
    const tail: u32
    ghost const end: nat
    ghost var blocks: seq<Block>

    ghost predicate Valid()
      reads this
    {
      Ordered(blocks, head, end) && tail == end - BIAS && Headers(mem, blocks)
    }

    /** list_init */
    constructor (pmStart: u32, pmEnd: u32)
      requires 0 < pmStart && pmStart + 2 * BIAS <= pmEnd
      ensures Valid() && head == pmStart && end == pmEnd && blocks == [Block(pmStart, pmStart + BIAS), Block(pmEnd - BIAS, pmEnd)]
    {
      head, tail, end := pmStart, pmEnd - BIAS, pmEnd;
      mem := map[pmStart := Node(pmEnd - BIAS, NULL, pmStart, pmStart + BIAS),
                 pmEnd - BIAS := Node(NULL, pmStart, pmEnd - BIAS, pmEnd)];
      blocks := [Block(pmStart, pmStart + BIAS), Block(pmEnd - BIAS, pmEnd)];
    }

    /** add_node: the new header goes where block i, at p, ends. */
    method AddNode(p: u32, size: u32, ghost i: nat) returns (ret: u32)
      requires Valid() && i + 1 < |blocks| && p == blocks[i].start
      requires Gap(blocks, i, ToU32(size + BIAS))
      modifies this
      ensures ret != NULL && Started(old(mem), p) && mem == Added(old(mem), p, size)
      ensures size + BIAS < W32 ==> Valid() && blocks == Inserted(old(blocks), i, size) && ret == old(blocks)[i].end + BIAS
      ensures size + BIAS >= W32 ==> !Repairable(mem, head, end)
    {
      AddedFits(mem, blocks, head, end, i, size);
      ghost var mem0 := mem;
      var tmp := mem[p].end;
      mem := mem[tmp := Node(mem[p].next, p, tmp, ToU32(tmp + size + BIAS))];
      var next := mem[p].next;
      mem := mem[next := mem[next].(pre := tmp)];
      mem := mem[p := mem[p].(next := tmp)];
      assert mem == Added(mem0, p, size);
      ret := tmp + BIAS;
      if size + BIAS < W32 {
        blocks := Inserted(blocks, i, size);
      }
    }

    /** The scan of kalloc: the first node behind which there is room, or tail. */
    method Scan(need: u32) returns (p: u32, ghost i: nat)
      requires Valid()
      ensures i == FirstFit(blocks, need, 0) && p == blocks[i].start && (p == tail <==> i + 1 == |blocks|)
    {
      p, i := head, 0;
      while p != tail
        invariant i < |blocks| && p == blocks[i].start && FirstFit(blocks, need, 0) == FirstFit(blocks, need, i)
        decreases |blocks| - i
      {
        Neighbours(mem, blocks, head, end, i);
        assert mem[p].next != NULL ==> mem[mem[p].next].pre == p;
        if mem[mem[p].next].start - mem[p].end >= need {
          return;
        }
        p := mem[p].next;
        i := i + 1;
      }
      LastIsTail(blocks, head, end, i);
    }

    /** kalloc; the words of size + BIAS may wrap. */
    method Kalloc(size: u32) returns (ret: u32)
      requires Valid()
      modifies this
      ensures ret == NULL <==> FirstFit(old(blocks), ToU32(size + BIAS), 0) + 1 == |old(blocks)|
      ensures ret == NULL ==> Valid() && mem == old(mem) && blocks == old(blocks)
      ensures size + BIAS < W32 ==> Valid() && blocks == Allocated(old(blocks), size)
      ensures size + BIAS < W32 ==> ret == Handed(old(blocks), size)
      ensures size + BIAS >= W32 && ret != NULL ==> !Repairable(mem, head, end)
    {
      ret := NULL;
      var need := ToU32(size + BIAS);
      ghost var i: nat;
      var p;
      p, i := Scan(need);
      assert size + BIAS < W32 ==> need == size + BIAS;
      if p != tail {
        assert Gap(blocks, i, need);
        ret := AddNode(p, size, i);
      }
    }

    /** delete_node */
    method DeleteNode(p: u32, ghost i: nat)
      requires Valid() && 0 < i < |blocks| - 1 && p == blocks[i].start
      modifies this
      ensures Valid() && blocks == Removed(old(blocks), i)
    {
      DeletedHeaders(mem, blocks, head, end, i);
      RemovedOrdered(blocks, head, end, i);
      ghost var mem0 := mem;
      var next := mem[p].next;
      mem := mem[next := mem[next].(pre := mem[p].pre)];
      var pre := mem[p].pre;
      mem := mem[pre := mem[pre].(next := mem[p].next)];
      assert mem == Deleted(mem0, p);
      blocks := Removed(blocks, i);
    }

    /** kfree of a live block's payload. */
    method Kfree(ptr: u32)
      requires Valid() && Live(blocks, ptr)
      modifies this
      ensures Valid() && blocks == Freed(old(blocks), ptr)
    {
      FindLive(blocks, head, end, ptr);
      ghost var i := Find(blocks, ptr, 0);
      assert Precedes(blocks, 0, i);
      var p := ptr - BIAS;
      StartsApart(blocks, head, end, i, |blocks| - 1);
      Neighbours(mem, blocks, head, end, i);
      assert mem[p].next != NULL ==> mem[mem[p].next].pre == p;
      DeleteNode(p, i);
    }
  }
}
