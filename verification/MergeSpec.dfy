/** What the bottom-up merge sort of core_list_join.c computes, on sequences of keys tagged with their original places. */
module MergeSpec {
  import opened Wrappers

  datatype Item<T> = Item(key: T, id: nat)

  /** The comparator: any two keys compare, and comparison is transitive. */
  ghost predicate Preorder<T(!new)>(cmp: (T, T) -> int) {
    && (forall a, b :: Comparable(cmp, a, b))
    && (forall a, b, c :: Transitive(cmp, a, b, c))
  }

  predicate Comparable<T>(cmp: (T, T) -> int, a: T, b: T) { cmp(a, b) <= 0 || cmp(b, a) <= 0 }

  predicate Transitive<T>(cmp: (T, T) -> int, a: T, b: T, c: T) { cmp(a, b) <= 0 && cmp(b, c) <= 0 ==> cmp(a, c) <= 0 }

  lemma BeforeTrans<T(!new)>(cmp: (T, T) -> int, x: Item<T>, y: Item<T>, z: Item<T>)
    requires Preorder(cmp) && cmp(x.key, y.key) <= 0 && Before(cmp, y, z) && (x.id < z.id || cmp(y.key, x.key) > 0)
    ensures Before(cmp, x, z)
  {
    assert Transitive(cmp, x.key, y.key, z.key) && Transitive(cmp, y.key, z.key, x.key);
  }

  /** Lower, or equal and originally earlier. */
  predicate Before<T>(cmp: (T, T) -> int, x: Item<T>, y: Item<T>) {
    cmp(x.key, y.key) <= 0 && (cmp(y.key, x.key) <= 0 ==> x.id < y.id)
  }

  predicate Sorted<T>(cmp: (T, T) -> int, s: seq<Item<T>>, i: nat, j: nat) {
    j <= |s| && forall k, l :: i <= k < l < j ==> BeforeAt(cmp, s, k, l)
  }

  predicate BeforeAt<T>(cmp: (T, T) -> int, s: seq<Item<T>>, k: nat, l: nat)
    requires k < |s| && l < |s|
  {
    Before(cmp, s[k], s[l])
  }

  /** What lies in s[i..m] was originally before what lies in s[j..e]. */
  predicate Earlier<T>(s: seq<Item<T>>, i: nat, m: nat, j: nat, e: nat) {
    m <= |s| && e <= |s| && forall k, l :: i <= k < m && j <= l < e ==> EarlierAt(s, k, l)
  }

  predicate EarlierAt<T>(s: seq<Item<T>>, k: nat, l: nat)
    requires k < |s| && l < |s|
  {
    s[k].id < s[l].id
  }

  /** The positions of s[i..m] and s[j..e] in the order in which the merge takes them. */
  function Merge<T>(cmp: (T, T) -> int, s: seq<Item<T>>, i: nat, m: nat, j: nat, e: nat): seq<nat>
    requires i <= m <= |s| && j <= e <= |s|
    decreases (m - i) + (e - j)
  {
    if i == m && j == e then []
    else if i == m then [j] + Merge(cmp, s, i, m, j + 1, e)
    else if j == e || cmp(s[i].key, s[j].key) <= 0 then [i] + Merge(cmp, s, i + 1, m, j, e)
    else [j] + Merge(cmp, s, i, m, j + 1, e)
  }

  /** One pass from pos on: it merges neighbouring runs of w. */
  function Pass<T>(cmp: (T, T) -> int, s: seq<Item<T>>, pos: nat, w: nat): seq<nat>
    requires w > 0
    decreases |s| - pos
  {
    if pos >= |s| then []
    else
      var m, e := Min(pos + w, |s|), Min(pos + w + w, |s|);
      Merge(cmp, s, pos, m, m, e) + Pass(cmp, s, e, w)
  }

  predicate Within(out: seq<nat>, n: nat) { forall k :: 0 <= k < |out| ==> out[k] < n }

  predicate Distinct<T(==)>(s: seq<T>) { forall k, l :: 0 <= k < l < |s| ==> s[k] != s[l] }

  function Select<T>(s: seq<T>, out: seq<nat>): (t: seq<T>)
    requires Within(out, |s|)
    ensures |t| == |out| && forall k :: 0 <= k < |t| ==> t[k] == s[out[k]]
  {
    seq(|out|, k requires 0 <= k < |out| => s[out[k]])
  }

  /** From pos on, every run of w is sorted, and whatever is in an earlier run was originally earlier. */
  predicate Runs<T>(cmp: (T, T) -> int, s: seq<Item<T>>, pos: nat, w: nat)
    requires w > 0
    decreases |s| - pos
  {
    pos >= |s| ||
    var m := Min(pos + w, |s|);
    Sorted(cmp, s, pos, m) && Earlier(s, pos, m, m, |s|) && Runs(cmp, s, m, w)
  }

  // ---- Merging two runs ----

  /** Everything a merge takes comes from its two runs, each position once. */
  predicate Taken(out: seq<nat>, i: nat, m: nat, j: nat, e: nat) {
    forall k :: 0 <= k < |out| ==> i <= out[k] < m || j <= out[k] < e
  }

  lemma {:induction false} MergeTakes<T>(cmp: (T, T) -> int, s: seq<Item<T>>, i: nat, m: nat, j: nat, e: nat)
    requires i <= m <= j <= e <= |s|
    ensures var out := Merge(cmp, s, i, m, j, e);
      |out| == (m - i) + (e - j) && Taken(out, i, m, j, e) && Distinct(out)
    decreases (m - i) + (e - j)
  {
    if i == m && j == e {
    } else if i == m {
      MergeTakes(cmp, s, i, m, j + 1, e);
      TakenCons(j, Merge(cmp, s, i, m, j + 1, e), i, m, j, e, i, j + 1);
    } else if j == e || cmp(s[i].key, s[j].key) <= 0 {
      MergeTakes(cmp, s, i + 1, m, j, e);
      TakenCons(i, Merge(cmp, s, i + 1, m, j, e), i, m, j, e, i + 1, j);
    } else {
      MergeTakes(cmp, s, i, m, j + 1, e);
      TakenCons(j, Merge(cmp, s, i, m, j + 1, e), i, m, j, e, i, j + 1);
    }
  }

  lemma TakenCons(h: nat, out: seq<nat>, i: nat, m: nat, j: nat, e: nat, i2: nat, j2: nat)
    requires i <= m <= j <= e && Taken(out, i2, m, j2, e) && Distinct(out)
    requires (h == i < m && i2 == i + 1 && j2 == j) || (h == j < e && i2 == i && j2 == j + 1)
    ensures Taken([h] + out, i, m, j, e) && Distinct([h] + out)
  {
    var all := [h] + out;
    forall k | 0 <= k < |all| ensures i <= all[k] < m || j <= all[k] < e {
      assert k > 0 ==> all[k] == out[k - 1];
    }
    forall k, l | 0 <= k < l < |all| ensures all[k] != all[l] {
      assert all[l] == out[l - 1] && (k > 0 ==> all[k] == out[k - 1]);
    }
  }

  predicate SortedAt<T>(cmp: (T, T) -> int, s: seq<Item<T>>, out: seq<nat>) {
    Within(out, |s|) && forall k, l {:trigger BeforeAt(cmp, s, out[k], out[l])} :: 0 <= k < l < |out| ==> BeforeAt(cmp, s, out[k], out[l])
  }

  predicate First<T>(cmp: (T, T) -> int, s: seq<Item<T>>, h: nat, i: nat, m: nat) {
    h < |s| && m <= |s| && forall k :: i <= k < m ==> BeforeAt(cmp, s, h, k)
  }

  /** The head of the first run is before the second run when it is not higher than the head of that run. */
  lemma LowerFirst<T(!new)>(cmp: (T, T) -> int, s: seq<Item<T>>, i: nat, m: nat, j: nat, e: nat)
    requires Preorder(cmp) && i < m && j < e && Sorted(cmp, s, j, e) && Earlier(s, i, m, j, e)
    requires cmp(s[i].key, s[j].key) <= 0
    ensures First(cmp, s, i, j, e)
  {
    assert EarlierAt(s, i, j);
    forall k | j <= k < e ensures BeforeAt(cmp, s, i, k) {
      if k > j {
        assert BeforeAt(cmp, s, j, k) && EarlierAt(s, i, k);
        BeforeTrans(cmp, s[i], s[j], s[k]);
      }
    }
  }

  lemma HigherFirst<T(!new)>(cmp: (T, T) -> int, s: seq<Item<T>>, i: nat, m: nat, j: nat, e: nat)
    requires Preorder(cmp) && i < m && j < e <= |s| && Sorted(cmp, s, i, m)
    requires cmp(s[i].key, s[j].key) > 0
    ensures First(cmp, s, j, i, m)
  {
    assert Comparable(cmp, s[i].key, s[j].key);
    forall k | i <= k < m ensures BeforeAt(cmp, s, j, k) {
      if k > i {
        assert BeforeAt(cmp, s, i, k);
        BeforeTrans(cmp, s[j], s[i], s[k]);
      }
    }
  }

  lemma Prepend<T>(cmp: (T, T) -> int, s: seq<Item<T>>, h: nat, out: seq<nat>, i: nat, m: nat, j: nat, e: nat)
    requires SortedAt(cmp, s, out) && Taken(out, i, m, j, e) && First(cmp, s, h, i, m) && First(cmp, s, h, j, e)
    ensures SortedAt(cmp, s, [h] + out)
  {
    var all := [h] + out;
    forall k, l | 0 <= k < l < |all| ensures BeforeAt(cmp, s, all[k], all[l]) {
      assert all[l] == out[l - 1];
      if k > 0 {
        assert BeforeAt(cmp, s, out[k - 1], out[l - 1]);
      }
    }
  }

  /** s[i..m] and s[j..e] are sorted runs, the first of which was originally before the second. */
  predicate TwoSorted<T>(cmp: (T, T) -> int, s: seq<Item<T>>, i: nat, m: nat, j: nat, e: nat) {
    i <= m <= j <= e <= |s| && Sorted(cmp, s, i, m) && Sorted(cmp, s, j, e) && Earlier(s, i, m, j, e)
  }

  /** Merging two sorted runs sorts, and keeps equal keys in their original order. */
  lemma {:induction false} MergeSorts<T(!new)>(cmp: (T, T) -> int, s: seq<Item<T>>, i: nat, m: nat, j: nat, e: nat)
    requires Preorder(cmp) && TwoSorted(cmp, s, i, m, j, e)
    ensures SortedAt(cmp, s, Merge(cmp, s, i, m, j, e))
    decreases (m - i) + (e - j)
  {
    if i == m && j == e {
    } else if i == m || (j < e && cmp(s[i].key, s[j].key) > 0) {
      TwoSortedTails(cmp, s, i, m, j, e);
      MergeSorts(cmp, s, i, m, j + 1, e);
      TakeSecond(cmp, s, i, m, j, e);
    } else {
      TwoSortedTails(cmp, s, i, m, j, e);
      MergeSorts(cmp, s, i + 1, m, j, e);
      TakeFirst(cmp, s, i, m, j, e);
    }
  }

  lemma TwoSortedTails<T>(cmp: (T, T) -> int, s: seq<Item<T>>, i: nat, m: nat, j: nat, e: nat)
    requires TwoSorted(cmp, s, i, m, j, e)
    ensures i < m ==> TwoSorted(cmp, s, i + 1, m, j, e)
    ensures j < e ==> TwoSorted(cmp, s, i, m, j + 1, e)
  {
  }

  /** Taking the head of the second run: it is before everything else. */
  lemma TakeSecond<T(!new)>(cmp: (T, T) -> int, s: seq<Item<T>>, i: nat, m: nat, j: nat, e: nat)
    requires Preorder(cmp) && TwoSorted(cmp, s, i, m, j, e) && j < e && (i < m ==> cmp(s[i].key, s[j].key) > 0)
    requires SortedAt(cmp, s, Merge(cmp, s, i, m, j + 1, e))
    ensures SortedAt(cmp, s, [j] + Merge(cmp, s, i, m, j + 1, e))
  {
    MergeTakes(cmp, s, i, m, j + 1, e);
    if i < m {
      HigherFirst(cmp, s, i, m, j, e);
    }
    Prepend(cmp, s, j, Merge(cmp, s, i, m, j + 1, e), i, m, j + 1, e);
  }

  lemma TakeFirst<T(!new)>(cmp: (T, T) -> int, s: seq<Item<T>>, i: nat, m: nat, j: nat, e: nat)
    requires Preorder(cmp) && TwoSorted(cmp, s, i, m, j, e) && i < m && (j < e ==> cmp(s[i].key, s[j].key) <= 0)
    requires SortedAt(cmp, s, Merge(cmp, s, i + 1, m, j, e))
    ensures SortedAt(cmp, s, [i] + Merge(cmp, s, i + 1, m, j, e))
  {
    MergeTakes(cmp, s, i + 1, m, j, e);
    if j < e {
      LowerFirst(cmp, s, i, m, j, e);
    }
    Prepend(cmp, s, i, Merge(cmp, s, i + 1, m, j, e), i + 1, m, j, e);
  }

  // ---- A pass ----

  lemma {:induction false} PassTakes<T>(cmp: (T, T) -> int, s: seq<Item<T>>, pos: nat, w: nat)
    requires w > 0 && pos <= |s|
    ensures var out := Pass(cmp, s, pos, w);
      |out| == |s| - pos && Taken(out, pos, |s|, |s|, |s|) && Distinct(out)
    decreases |s| - pos
  {
    if pos < |s| {
      var m, e := Min(pos + w, |s|), Min(pos + w + w, |s|);
      MergeTakes(cmp, s, pos, m, m, e);
      PassTakes(cmp, s, e, w);
    }
  }

  lemma {:induction false} RunsShift<T>(cmp: (T, T) -> int, t: seq<Item<T>>, u: seq<Item<T>>, pos: nat, w: nat)
    requires w > 0 && Runs(cmp, u, pos, w)
    ensures Runs(cmp, t + u, |t| + pos, w)
    decreases |u| - pos
  {
    if pos < |u| {
      var m := Min(pos + w, |u|);
      RunsShift(cmp, t, u, m, w);
      assert Min(|t| + pos + w, |t + u|) == |t| + m;
      forall k, l | |t| + pos <= k < l < |t| + m ensures BeforeAt(cmp, t + u, k, l) {
        assert BeforeAt(cmp, u, k - |t|, l - |t|);
      }
      forall k, l | |t| + pos <= k < |t| + m && |t| + m <= l < |t + u| ensures EarlierAt(t + u, k, l) {
        assert EarlierAt(u, k - |t|, l - |t|);
      }
    }
  }

  /** What two neighbouring runs mean for the longer run a merge makes of them. */
  lemma TwoRuns<T>(cmp: (T, T) -> int, s: seq<Item<T>>, pos: nat, w: nat)
    requires w > 0 && pos < |s| && Runs(cmp, s, pos, w)
    ensures var m, e := Min(pos + w, |s|), Min(pos + w + w, |s|);
      && Sorted(cmp, s, pos, m) && Sorted(cmp, s, m, e) && Earlier(s, pos, m, m, e)
      && Earlier(s, pos, e, e, |s|) && Runs(cmp, s, e, w)
  {
    var m, e := Min(pos + w, |s|), Min(pos + w + w, |s|);
    if m < |s| {
      assert Runs(cmp, s, m, w) && e == Min(m + w, |s|);
    }
  }

  /** A pass turns runs of w into runs of twice w. */
  lemma {:induction false} PassDoubles<T(!new)>(cmp: (T, T) -> int, s: seq<Item<T>>, pos: nat, w: nat, w2: nat)
    requires Preorder(cmp) && w > 0 && w2 == w + w && pos <= |s| && Runs(cmp, s, pos, w)
    ensures Within(Pass(cmp, s, pos, w), |s|)
    ensures Runs(cmp, Select(s, Pass(cmp, s, pos, w)), 0, w2)
    decreases |s| - pos
  {
    PassTakes(cmp, s, pos, w);
    if pos < |s| {
      var m, e := Min(pos + w, |s|), Min(pos + w + w, |s|);
      TwoRuns(cmp, s, pos, w);
      MergeTakes(cmp, s, pos, m, m, e);
      MergeSorts(cmp, s, pos, m, m, e);
      PassDoubles(cmp, s, e, w, w2);
      PassTakes(cmp, s, e, w);
      RunsAppend(cmp, s, Merge(cmp, s, pos, m, m, e), Pass(cmp, s, e, w), pos, e, w2);
    }
  }

  lemma RunsAppend<T>(cmp: (T, T) -> int, s: seq<Item<T>>, a: seq<nat>, b: seq<nat>, pos: nat, e: nat, w: nat)
    requires w > 0 && pos < e <= |s| && e == Min(pos + w, |s|) && |a| == e - pos && |b| == |s| - e
    requires SortedAt(cmp, s, a) && Within(b, |s|) && Taken(a, pos, e, e, e) && Taken(b, e, |s|, |s|, |s|)
    requires Earlier(s, pos, e, e, |s|) && Runs(cmp, Select(s, b), 0, w)
    ensures Within(a + b, |s|) && Runs(cmp, Select(s, a + b), 0, w)
  {
    var t := Select(s, a + b);
    assert t == Select(s, a) + Select(s, b);
    RunsShift(cmp, Select(s, a), Select(s, b), 0, w);
    assert Min(0 + w, |t|) == |a|;
    forall k, l | 0 <= k < l < |a| ensures BeforeAt(cmp, t, k, l) {
      assert BeforeAt(cmp, s, a[k], a[l]);
    }
    forall k, l | 0 <= k < |a| && |a| <= l < |t| ensures EarlierAt(t, k, l) {
      assert EarlierAt(s, a[k], b[l - |a|]);
    }
  }

  /** Runs of one are what any list in its original order consists of. */
  lemma {:induction false} RunsOfOne<T>(cmp: (T, T) -> int, s: seq<Item<T>>, pos: nat)
    requires forall k :: 0 <= k < |s| ==> s[k].id == k
    ensures Runs(cmp, s, pos, 1)
    decreases |s| - pos
  {
    if pos < |s| {
      RunsOfOne(cmp, s, pos + 1);
    }
  }
}
