/** libkvdb: the log as a value - how records are written, and which prefix of a damaged log is whole. */
module KvLog {
  import opened Ctype
  import opened Wrappers

  ghost predicate Word(s: string) {
    s != [] && forall i :: 0 <= i < |s| ==> !IsSpace(s[i])
  }

  datatype Rec = Rec(key: string, value: string)

  ghost predicate Plain(r: Rec) { Word(r.key) && Word(r.value) }

  /** What kvdb_put appends. */
  function Line(r: Rec): string { "\n" + r.key + " " + r.value + "\n" }

  function Encode(recs: seq<Rec>): string {
    if recs == [] then "" else Encode(recs[..|recs| - 1]) + Line(recs[|recs| - 1])
  }

  ghost predicate AllPlain(recs: seq<Rec>) { forall i :: 0 <= i < |recs| ==> Plain(recs[i]) }

  /** Blanks in d[a..b]. */
  function Blanks(d: string, a: nat, b: nat): nat
    requires a <= b <= |d|
    decreases b - a
  {
    if a == b then 0 else (if d[a] == ' ' then 1 else 0) + Blanks(d, a + 1, b)
  }

  /** d[..e] ends with a line that has a newline on both sides and exactly one blank in it; s is where it starts. */
  ghost predicate LineAt(d: string, s: nat, e: nat) {
    && s + 1 < e <= |d|
    && d[s] == '\n' && d[e - 1] == '\n'
    && (forall i :: s < i < e - 1 ==> d[i] != '\n')
    && Blanks(d, s + 1, e - 1) == 1
  }

  ghost predicate Whole(d: string, e: nat) { exists s: nat :: LineAt(d, s, e) }

  /** The longest prefix of d[..n] that ends with a whole line, or nothing. */
  ghost function LastWhole(d: string, n: nat): (e: nat)
    requires n <= |d|
    ensures e <= n
  {
    if n == 0 || Whole(d, n) then n else LastWhole(d, n - 1)
  }

  ghost function Recover(d: string): string { d[..LastWhole(d, |d|)] }

  /** LastWhole is what its name says. */
  lemma {:induction false} LastWholeIsLargest(d: string, n: nat, e: nat)
    requires n <= |d| && e <= n && Whole(d, e)
    ensures Whole(d, LastWhole(d, n)) && e <= LastWhole(d, n)
  {
    if e < n && !Whole(d, n) {
      LastWholeIsLargest(d, n - 1, e);
    }
  }

  lemma {:induction false} NothingWhole(d: string, n: nat, m: nat)
    requires m <= n <= |d| && forall e :: m < e <= n ==> !Whole(d, e)
    ensures LastWhole(d, n) == LastWhole(d, m)
  {
    if m < n {
      NothingWhole(d, n - 1, m);
    }
  }

  lemma {:induction false} BlanksSame(d: string, d2: string, a: nat, b: nat)
    requires a <= b <= |d| && b <= |d2| && forall i :: a <= i < b ==> d[i] == d2[i]
    ensures Blanks(d, a, b) == Blanks(d2, a, b)
    decreases b - a
  {
    if a < b {
      BlanksSame(d, d2, a + 1, b);
    }
  }

  /** Whether a line is whole does not depend on what follows. */
  lemma LineAtPrefix(d: string, d2: string, s: nat, e: nat)
    requires e <= |d| && e <= |d2| && forall i :: 0 <= i < e ==> d[i] == d2[i]
    requires LineAt(d, s, e)
    ensures LineAt(d2, s, e)
  {
    BlanksSame(d, d2, s + 1, e - 1);
  }

  /** A second recovery finds nothing to remove. */
  lemma RecoverIdempotent(d: string)
    ensures Recover(Recover(d)) == Recover(d)
  {
    var t := LastWhole(d, |d|);
    RecoverEnds(d, |d|);
    if t > 0 {
      var s: nat :| LineAt(d, s, t);
      LineAtPrefix(d, d[..t], s, t);
    }
  }

  lemma {:induction false} RecoverEnds(d: string, n: nat)
    requires n <= |d|
    ensures LastWhole(d, n) == 0 || Whole(d, LastWhole(d, n))
  {
    if n > 0 && !Whole(d, n) {
      RecoverEnds(d, n - 1);
    }
  }

  lemma {:induction false} NoBlanks(d: string, a: nat, b: nat)
    requires a <= b <= |d| && forall i :: a <= i < b ==> d[i] != ' '
    ensures Blanks(d, a, b) == 0
    decreases b - a
  {
    if a < b {
      NoBlanks(d, a + 1, b);
    }
  }

  lemma {:induction false} BlanksSplit(d: string, a: nat, b: nat, c: nat)
    requires a <= b <= c <= |d|
    ensures Blanks(d, a, c) == Blanks(d, a, b) + Blanks(d, b, c)
    decreases b - a
  {
    if a < b {
      BlanksSplit(d, a + 1, b, c);
    }
  }

  /** d has the line of r at s. */
  ghost predicate HoldsLine(d: string, s: nat, r: Rec) {
    s + |Line(r)| <= |d| && forall i :: 0 <= i < |Line(r)| ==> d[s + i] == Line(r)[i]
  }

  lemma LineIsWhole(d: string, s: nat, r: Rec)
    requires Plain(r) && HoldsLine(d, s, r)
    ensures Whole(d, s + |Line(r)|)
  {
    var k, e := s + 1 + |r.key|, s + |Line(r)|;
    LineShape(d, s, r);
    NoBlanks(d, s + 1, k);
    NoBlanks(d, k + 1, e - 1);
    BlanksSplit(d, s + 1, k, e - 1);
    assert LineAt(d, s, e);
  }

  /** Where the parts of a line are. */
  lemma LineShape(d: string, s: nat, r: Rec)
    requires Plain(r) && HoldsLine(d, s, r)
    ensures var k := s + 1 + |r.key|; var e := s + |Line(r)|;
      && e == k + |r.value| + 2
      && d[s] == '\n' && d[k] == ' ' && d[e - 1] == '\n'
      && (forall i :: 0 <= i < |r.key| ==> d[s + 1 + i] == r.key[i])
      && (forall i :: 0 <= i < |r.value| ==> d[k + 1 + i] == r.value[i])
      && (forall i :: s < i < k ==> !IsSpace(d[i])) && (forall i :: k < i < e - 1 ==> !IsSpace(d[i]))
  {
    var k, e := s + 1 + |r.key|, s + |Line(r)|;
    var l := Line(r);
    assert l[0] == '\n' && l[1 + |r.key|] == ' ' && l[|l| - 1] == '\n';
    forall i | 0 <= i < |r.key| ensures d[s + 1 + i] == r.key[i] {
      assert d[s + (1 + i)] == l[1 + i];
    }
    forall i | 0 <= i < |r.value| ensures d[k + 1 + i] == r.value[i] {
      assert d[s + (|r.key| + 2 + i)] == l[|r.key| + 2 + i];
    }
    forall i | s < i < k ensures !IsSpace(d[i]) {
      assert d[s + 1 + (i - s - 1)] == r.key[i - s - 1];
    }
    forall i | k < i < e - 1 ensures !IsSpace(d[i]) {
      assert d[k + 1 + (i - k - 1)] == r.value[i - k - 1];
    }
  }

  /** What a torn write leaves behind: the start of a line, which is not the whole line. */
  ghost predicate Torn(tail: string) {
    tail == [] || (tail[0] == '\n' && forall i :: 1 <= i < |tail| ==> tail[i] != '\n')
  }

  /** d is the encoding of recs, and perhaps the start of one more line. */
  ghost predicate Holds(d: string, recs: seq<Rec>) {
    AllPlain(recs) && Encode(recs) <= d && Torn(d[|Encode(recs)|..])
  }

  lemma EncodeSnoc(recs: seq<Rec>, r: Rec)
    ensures Encode(recs + [r]) == Encode(recs) + Line(r)
  {
    assert (recs + [r])[..|recs|] == recs;
  }

  lemma LastLine(recs: seq<Rec>)
    requires recs != []
    ensures HoldsLine(Encode(recs), |Encode(recs[..|recs| - 1])|, recs[|recs| - 1])
    ensures |Encode(recs)| == |Encode(recs[..|recs| - 1])| + |Line(recs[|recs| - 1])|
  {
  }

  lemma HoldsLineStays(d: string, d2: string, s: nat, r: Rec)
    requires HoldsLine(d, s, r) && d <= d2
    ensures HoldsLine(d2, s, r)
  {
  }

  lemma LastLineIn(d: string, recs: seq<Rec>)
    requires recs != [] && Encode(recs) <= d
    ensures HoldsLine(d, |Encode(recs[..|recs| - 1])|, recs[|recs| - 1])
    ensures |Encode(recs)| == |Encode(recs[..|recs| - 1])| + |Line(recs[|recs| - 1])|
  {
    LastLine(recs);
    HoldsLineStays(Encode(recs), d, |Encode(recs[..|recs| - 1])|, recs[|recs| - 1]);
  }

  /** Nothing in a torn tail ends a whole line. */
  lemma TornNotWhole(d: string, recs: seq<Rec>, e: nat)
    requires Holds(d, recs) && |Encode(recs)| < e <= |d|
    ensures !Whole(d, e)
  {
    var n := |Encode(recs)|;
    var tail := d[n..];
    if Whole(d, e) {
      var s: nat :| LineAt(d, s, e);
      assert tail[e - 1 - n] == '\n';
      assert e - 1 == n;
      if recs != [] {
        LastLineIn(d, recs);
        LineShape(d, |Encode(recs[..|recs| - 1])|, recs[|recs| - 1]);
      }
      assert false;
    }
  }

  lemma RecordsWhole(d: string, recs: seq<Rec>)
    requires AllPlain(recs) && Encode(recs) <= d
    ensures LastWhole(d, |Encode(recs)|) == |Encode(recs)|
  {
    if recs != [] {
      LastLineIn(d, recs);
      LineIsWhole(d, |Encode(recs[..|recs| - 1])|, recs[|recs| - 1]);
    }
  }

  /** Recovery keeps exactly the whole records. */
  lemma RecoverExact(d: string, recs: seq<Rec>)
    requires Holds(d, recs)
    ensures Recover(d) == Encode(recs)
  {
    forall e | |Encode(recs)| < e <= |d| ensures !Whole(d, e) {
      TornNotWhole(d, recs, e);
    }
    NothingWhole(d, |d|, |Encode(recs)|);
    RecordsWhole(d, recs);
  }

  /** How many records survive when n bytes do. */
  function Survivors(recs: seq<Rec>, n: nat): (m: nat)
    ensures m <= |recs|
  {
    if |Encode(recs)| <= n then |recs| else Survivors(recs[..|recs| - 1], n)
  }

  lemma {:induction false} SurvivorsLargest(recs: seq<Rec>, n: nat)
    ensures var m := Survivors(recs, n);
      |Encode(recs[..m])| <= n && forall l :: m < l <= |recs| ==> |Encode(recs[..l])| > n
  {
    if |Encode(recs)| <= n {
      assert recs[..|recs|] == recs;
    } else {
      var init := recs[..|recs| - 1];
      SurvivorsLargest(init, n);
      assert forall l :: 0 <= l <= |init| ==> init[..l] == recs[..l];
      assert recs[..|recs|] == recs;
    }
  }

  lemma {:induction false} PrefixOfEncoding(recs: seq<Rec>, n: nat)
    requires AllPlain(recs) && n <= |Encode(recs)|
    ensures Holds(Encode(recs)[..n], recs[..Survivors(recs, n)])
  {
    if n == |Encode(recs)| {
      assert recs[..|recs|] == recs;
    } else {
      var init, r := recs[..|recs| - 1], recs[|recs| - 1];
      var d := Encode(recs);
      if n < |Encode(init)| {
        PrefixOfEncoding(init, n);
        assert d[..n] == Encode(init)[..n];
        assert init[..Survivors(init, n)] == recs[..Survivors(recs, n)];
      } else {
        TornLine(r, n - |Encode(init)|);
        assert d[..n][|Encode(init)|..] == Line(r)[..n - |Encode(init)|];
        assert init[..|init|] == init;
      }
    }
  }

  lemma TornLine(r: Rec, n: nat)
    requires Plain(r) && n < |Line(r)|
    ensures Torn(Line(r)[..n])
  {
    LineShape(Line(r), 0, r);
  }

  /** For every byte prefix of a log of whole records, recovery keeps exactly the records that lie in it. */
  lemma JournalTheorem(recs: seq<Rec>, n: nat)
    requires AllPlain(recs) && n <= |Encode(recs)|
    ensures Recover(Encode(recs)[..n]) == Encode(recs[..Survivors(recs, n)])
  {
    PrefixOfEncoding(recs, n);
    RecoverExact(Encode(recs)[..n], recs[..Survivors(recs, n)]);
  }

  // ---- Runs ----

  /** What can happen to a log: a put, a crash that keeps some bytes, and an open or close, which recovers. */
  datatype Event = Put(rec: Rec) | Crash(keep: nat) | Reopen

  ghost function StepLog(d: string, ev: Event): string {
    match ev
    case Put(r) => Recover(d) + Line(r)
    case Crash(keep) => if keep < |d| then d[..keep] else d
    case Reopen => Recover(d)
  }

  function StepRecs(recs: seq<Rec>, ev: Event): seq<Rec> {
    match ev
    case Put(r) => recs + [r]
    case Crash(keep) => recs[..Survivors(recs, keep)]
    case Reopen => recs
  }

  ghost function RunLog(evs: seq<Event>): string {
    if evs == [] then "" else StepLog(RunLog(evs[..|evs| - 1]), evs[|evs| - 1])
  }

  function RunRecs(evs: seq<Event>): seq<Rec> {
    if evs == [] then [] else StepRecs(RunRecs(evs[..|evs| - 1]), evs[|evs| - 1])
  }

  ghost predicate PlainPuts(evs: seq<Event>) {
    forall i :: 0 <= i < |evs| && evs[i].Put? ==> Plain(evs[i].rec)
  }

  lemma CrashHolds(d: string, recs: seq<Rec>, keep: nat)
    requires Holds(d, recs) && keep < |d|
    ensures Holds(d[..keep], recs[..Survivors(recs, keep)])
  {
    var e := Encode(recs);
    if keep < |e| {
      PrefixOfEncoding(recs, keep);
      assert d[..keep] == e[..keep];
    } else {
      assert recs[..|recs|] == recs;
      assert d[..keep][|e|..] == d[|e|..][..keep - |e|];
    }
  }

  lemma StepHolds(d: string, recs: seq<Rec>, ev: Event)
    requires Holds(d, recs) && (ev.Put? ==> Plain(ev.rec))
    ensures Holds(StepLog(d, ev), StepRecs(recs, ev))
  {
    match ev
    case Put(r) =>
      RecoverExact(d, recs);
      EncodeSnoc(recs, r);
    case Crash(keep) =>
      if keep < |d| {
        CrashHolds(d, recs, keep);
      } else {
        assert recs[..|recs|] == recs;
      }
    case Reopen =>
      RecoverExact(d, recs);
  }

  /** In every run the log is the encoding of the surviving records, and perhaps the start of one more line. */
  lemma {:induction false} RunHolds(evs: seq<Event>)
    requires PlainPuts(evs)
    ensures Holds(RunLog(evs), RunRecs(evs))
  {
    if evs != [] {
      RunHolds(evs[..|evs| - 1]);
      StepHolds(RunLog(evs[..|evs| - 1]), RunRecs(evs[..|evs| - 1]), evs[|evs| - 1]);
    }
  }

  // ---- Lookup ----

  /** The value of the last record with the key. */
  function Lookup(recs: seq<Rec>, key: string): Option<string> {
    if recs == [] then None
    else if recs[|recs| - 1].key == key then Some(recs[|recs| - 1].value)
    else Lookup(recs[..|recs| - 1], key)
  }

  /** Byte offset in the log at which the put that is event i ended. */
  ghost function EndOffset(evs: seq<Event>, i: nat): nat
    requires i < |evs|
  {
    |Encode(RunRecs(evs[..i + 1]))|
  }

  /** Event i is a put, and no later crash has cut into its line. */
  ghost predicate Survives(evs: seq<Event>, i: nat) {
    && i < |evs| && evs[i].Put?
    && forall j :: i < j < |evs| && evs[j].Crash? ==> EndOffset(evs, i) <= evs[j].keep
  }

  /** The events whose records are still there, oldest first. */
  ghost function Origins(evs: seq<Event>): seq<nat> {
    if evs == [] then []
    else
      var n := |evs| - 1;
      var before := Origins(evs[..n]);
      match evs[n]
      case Put(_) => before + [n]
      case Crash(keep) =>
        var m := Survivors(RunRecs(evs[..n]), keep);
        if m <= |before| then before[..m] else before
      case Reopen => before
  }

  /** Where record p ends in the log. */
  function RecEnd(recs: seq<Rec>, p: nat): nat
    requires p < |recs|
  {
    |Encode(recs[..p + 1])|
  }

  /** recs[p] is what event origins[p] put, and it ends where that put ended. */
  ghost predicate Dated(evs: seq<Event>, origins: seq<nat>, recs: seq<Rec>) {
    && |origins| == |recs|
    && (forall p :: 0 <= p < |origins| ==> origins[p] < |evs|)
    && (forall p :: 0 <= p < |origins| ==> evs[origins[p]] == Put(recs[p]) && EndOffset(evs, origins[p]) == RecEnd(recs, p))
    && (forall p, q :: 0 <= p < q < |origins| ==> origins[p] < origins[q])
  }

  ghost predicate Complete(evs: seq<Event>, origins: seq<nat>) {
    forall i: nat :: Survives(evs, i) <==> i in origins
  }

  lemma {:induction false} EncodeMono(recs: seq<Rec>, a: nat, b: nat)
    requires a <= b <= |recs|
    ensures |Encode(recs[..a])| <= |Encode(recs[..b])|
  {
    if a < b {
      EncodeMono(recs, a, b - 1);
      assert recs[..b][..b - 1] == recs[..b - 1];
    }
  }

  /** One more event: what earlier events ended at does not change, and only a crash can end their survival. */
  lemma SurvivesStep(evs: seq<Event>, n: nat, i: nat)
    requires evs != [] && n == |evs| - 1 && i < n
    ensures EndOffset(evs, i) == EndOffset(evs[..n], i)
    ensures Survives(evs, i) <==> Survives(evs[..n], i) && (evs[n].Crash? ==> EndOffset(evs, i) <= evs[n].keep)
  {
    assert evs[..n][..i + 1] == evs[..i + 1];
  }

  lemma DatedExtends(evs: seq<Event>, n: nat, origins: seq<nat>, recs: seq<Rec>)
    requires evs != [] && n == |evs| - 1 && Dated(evs[..n], origins, recs)
    ensures Dated(evs, origins, recs)
  {
    forall p | 0 <= p < |origins| ensures EndOffset(evs, origins[p]) == RecEnd(recs, p) {
      SurvivesStep(evs, n, origins[p]);
    }
  }

  lemma DatedTake(evs: seq<Event>, origins: seq<nat>, recs: seq<Rec>, m: nat)
    requires Dated(evs, origins, recs) && m <= |origins|
    ensures Dated(evs, origins[..m], recs[..m])
  {
    forall p | 0 <= p < m ensures RecEnd(recs[..m], p) == RecEnd(recs, p) {
      assert recs[..m][..p + 1] == recs[..p + 1];
    }
  }

  lemma DatedPut(evs: seq<Event>, n: nat, origins: seq<nat>, recs: seq<Rec>, r: Rec)
    requires evs != [] && n == |evs| - 1 && evs[n] == Put(r) && Dated(evs, origins, recs)
    requires recs == RunRecs(evs[..n]) && forall p :: 0 <= p < |origins| ==> origins[p] < n
    ensures Dated(evs, origins + [n], recs + [r])
  {
    forall p | 0 <= p < |recs| ensures RecEnd(recs + [r], p) == RecEnd(recs, p) {
      assert (recs + [r])[..p + 1] == recs[..p + 1];
    }
    PutEnd(evs, n, recs, r);
  }

  lemma PutEnd(evs: seq<Event>, n: nat, recs: seq<Rec>, r: Rec)
    requires evs != [] && n == |evs| - 1 && evs[n] == Put(r) && recs == RunRecs(evs[..n])
    ensures EndOffset(evs, n) == RecEnd(recs + [r], |recs|)
  {
    assert evs[..n + 1] == evs;
    assert (recs + [r])[..|recs| + 1] == recs + [r];
  }

  lemma CompleteCrash(evs: seq<Event>, n: nat, origins: seq<nat>, recs: seq<Rec>, m: nat)
    requires evs != [] && n == |evs| - 1 && evs[n].Crash? && Complete(evs[..n], origins)
    requires Dated(evs, origins, recs) && m == Survivors(recs, evs[n].keep)
    requires forall p :: 0 <= p < |origins| ==> origins[p] < n
    ensures Complete(evs, origins[..m])
  {
    forall i: nat ensures Survives(evs, i) <==> i in origins[..m] {
      if i < n {
        SurvivesStep(evs, n, i);
        if i in origins {
          var p :| 0 <= p < |origins| && origins[p] == i;
          CutAt(recs, evs[n].keep, m, p);
        }
      }
    }
  }

  lemma CutAt(recs: seq<Rec>, keep: nat, m: nat, p: nat)
    requires m == Survivors(recs, keep) && p < |recs|
    ensures RecEnd(recs, p) <= keep <==> p < m
  {
    SurvivorsLargest(recs, keep);
    if p < m {
      EncodeMono(recs, p + 1, m);
    }
  }

  lemma CompleteKept(evs: seq<Event>, n: nat, origins: seq<nat>)
    requires evs != [] && n == |evs| - 1 && !evs[n].Crash? && Complete(evs[..n], origins)
    ensures Complete(evs, if evs[n].Put? then origins + [n] else origins)
  {
    forall i: nat | i < n ensures Survives(evs, i) <==> i in origins {
      SurvivesStep(evs, n, i);
    }
    assert !Survives(evs[..n], n);
  }

  /** In every run the records in the log are those of the surviving puts, in order. */
  lemma {:induction false} RunTraced(evs: seq<Event>)
    ensures Dated(evs, Origins(evs), RunRecs(evs)) && Complete(evs, Origins(evs))
  {
    if evs != [] {
      var n := |evs| - 1;
      var origins, recs := Origins(evs[..n]), RunRecs(evs[..n]);
      RunTraced(evs[..n]);
      DatedExtends(evs, n, origins, recs);
      match evs[n]
      case Put(r) =>
        DatedPut(evs, n, origins, recs, r);
        CompleteKept(evs, n, origins);
      case Crash(keep) =>
        DatedTake(evs, origins, recs, Survivors(recs, keep));
        CompleteCrash(evs, n, origins, recs, Survivors(recs, keep));
      case Reopen =>
        CompleteKept(evs, n, origins);
    }
  }

  lemma {:induction false} LookupLast(recs: seq<Rec>, key: string) returns (p: nat)
    ensures match Lookup(recs, key)
      case Some(v) => p < |recs| && recs[p] == Rec(key, v) && forall q :: p < q < |recs| ==> recs[q].key != key
      case None => forall q :: 0 <= q < |recs| ==> recs[q].key != key
  {
    if recs == [] || recs[|recs| - 1].key == key {
      p := if recs == [] then 0 else |recs| - 1;
    } else {
      p := LookupLast(recs[..|recs| - 1], key);
    }
  }

  /** What a lookup finds is the value of the last surviving put of the key, and nothing exactly when none survives. */
  lemma LookupTheorem(evs: seq<Event>, key: string) returns (i: nat)
    ensures match Lookup(RunRecs(evs), key)
      case Some(v) => Survives(evs, i) && evs[i] == Put(Rec(key, v))
                      && forall j: nat :: i < j && Survives(evs, j) ==> evs[j].rec.key != key
      case None => forall j: nat :: Survives(evs, j) ==> evs[j].rec.key != key
  {
    var p := LookupLast(RunRecs(evs), key);
    RunTraced(evs);
    i := if Lookup(RunRecs(evs), key).Some? then Origins(evs)[p] else 0;
    forall j: nat | Survives(evs, j) && evs[j].rec.key == key ensures Lookup(RunRecs(evs), key).Some? && j <= i {
      var q := SurvivorIndex(evs, j);
      NotLater(evs, Origins(evs), RunRecs(evs), p, q);
    }
  }

  lemma NotLater(evs: seq<Event>, origins: seq<nat>, recs: seq<Rec>, p: nat, q: nat)
    requires Dated(evs, origins, recs) && q < |recs|
    ensures q <= p < |recs| ==> origins[q] <= origins[p]
  {
  }

  /** Every surviving put has its record in the log. */
  lemma SurvivorIndex(evs: seq<Event>, j: nat) returns (q: nat)
    requires Survives(evs, j)
    ensures q < |RunRecs(evs)| == |Origins(evs)| && Origins(evs)[q] == j && evs[j].rec == RunRecs(evs)[q]
  {
    RunTraced(evs);
    q :| q < |Origins(evs)| && Origins(evs)[q] == j;
  }

  /** Lookup reads the log as a map: each record overrides what was stored under its key. */
  ghost function MapOf(recs: seq<Rec>): map<string, string> {
    if recs == [] then map[] else MapOf(recs[..|recs| - 1])[recs[|recs| - 1].key := recs[|recs| - 1].value]
  }

  lemma {:induction false} LookupIsMap(recs: seq<Rec>, key: string)
    ensures Lookup(recs, key) == if key in MapOf(recs) then Some(MapOf(recs)[key]) else None
  {
    if recs != [] {
      LookupIsMap(recs[..|recs| - 1], key);
    }
  }
}
