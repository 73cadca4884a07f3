/** libkvdb: the store, on a file with a cursor. */
module Kvdb {
  import opened Ctype
  import opened KvLog
  import opened Wrappers

  class Db {
    var data: string
    var pos: nat

    ghost predicate Valid()
      reads this
    {
      pos <= |data|
    }

    /** A new, empty file. */
    constructor ()
      ensures Valid() && data == ""
    {
      data, pos := "", 0;
    }

    /** fscanf_bak: read the byte before the cursor and leave the cursor there. */
    method ReadBack() returns (c: char)
      requires 0 < pos <= |data|
      modifies this`pos
      ensures pos == old(pos) - 1 && c == data[pos]
    {
      pos := pos - 1;
      c := data[pos];
    }

    /** check_journal: cut the file down to its longest prefix that ends with a whole line. */
    method CheckJournal()
      requires Valid()
      modifies this
      ensures Valid() && data == Recover(old(data))
    {
      var consist := false;
      pos := |data|;
      var toTrun := pos;
      while !consist && pos != 0
        invariant pos <= |data| && data == old(data)
        invariant toTrun <= |data| && (consist ==> pos <= toTrun)
        invariant if consist then toTrun == LastWhole(data, |data|) else LastWhole(data, pos) == LastWhole(data, |data|)
        decreases !consist, pos
      {
        toTrun := pos;
        var flag := ReadBack();
        if flag == '\n' {
          var hasBlank;
          hasBlank, flag := ScanLine();
          if flag == '\n' && hasBlank == 1 {
            consist := true;
            assert LineAt(data, pos, toTrun);
          } else if flag == '\n' {
            NotWhole(data, pos, toTrun);
            pos := pos + 1;
          } else {
            NoLine(data, toTrun);
          }
        } else {
          assert !Whole(data, toTrun);
        }
      }
      if !consist && pos == 0 {
        toTrun := 0;
      }
      data := data[..toTrun];
    }

    /** Lines 38-43: back to the newline before the cursor, or to the head of the file, counting blanks. */
    method ScanLine() returns (hasBlank: nat, flag: char)
      requires Valid()
      modifies this`pos
      ensures pos <= old(pos) && hasBlank == Blanks(data, pos, old(pos))
      ensures if flag == '\n' then pos < old(pos) && data[pos] == '\n' && forall i :: pos < i < old(pos) ==> data[i] != '\n'
              else pos == 0 && forall i :: 0 <= i < old(pos) ==> data[i] != '\n'
    {
      hasBlank, flag := 0, '\0';
      while flag != '\n' && pos != 0
        invariant pos <= old(pos) <= |data| && hasBlank == Blanks(data, pos, old(pos))
        invariant if flag == '\n' then pos < old(pos) && data[pos] == '\n' && forall i :: pos < i < old(pos) ==> data[i] != '\n'
                  else forall i :: pos <= i < old(pos) ==> data[i] != '\n'
        decreases flag != '\n', pos
      {
        flag := ReadBack();
        if flag == ' ' {
          hasBlank := hasBlank + 1;
        }
      }
    }

    /** kvdb_put, between taking and releasing the locks. */
    method PutRecord(key: string, value: string)
      requires Valid()
      modifies this
      ensures Valid() && data == StepLog(old(data), Put(Rec(key, value)))
    {
      CheckJournal();
      pos := |data|;
      data := data + Line(Rec(key, value));
      pos := |data|;
    }

    /** fscanf("%s"): skip white space, then read up to the next white space or the end of the file. */
    method ScanString() returns (s: string)
      requires Valid()
      modifies this`pos
      ensures Valid() && pos == WordEnd(data, SkipSpace(data, old(pos)))
      ensures s == data[SkipSpace(data, old(pos))..pos]
    {
      while pos < |data| && IsSpace(data[pos])
        invariant Valid() && SkipSpace(data, pos) == SkipSpace(data, old(pos))
        decreases |data| - pos
      {
        pos := pos + 1;
      }
      var start := pos;
      while pos < |data| && !IsSpace(data[pos])
        invariant start <= pos && Valid() && WordEnd(data, pos) == WordEnd(data, start)
        decreases |data| - pos
      {
        pos := pos + 1;
      }
      s := data[start..pos];
    }

    /** One of the two backward loops of kvdb_get with the fscanf_val that follows: find the separator, read the word after it. */
    method WordBack(sep: char, ghost at: nat) returns (s: string)
      requires at < pos < |data| && data[at] == sep && IsSpace(sep) && sep != '\0'
      requires IsSpace(data[pos]) && at + 1 < pos && forall i :: at < i < pos ==> !IsSpace(data[i])
      modifies this`pos
      ensures pos == at && s == data[at + 1..old(pos)]
    {
      var len, flag := 0, '\0';
      while flag != sep && pos != 0
        invariant at <= pos && pos + len == old(pos)
        invariant if flag == sep then pos == at else at < pos
        decreases pos
      {
        len := len + 1;
        flag := ReadBack();
      }
      WordBetween(data, at, old(pos));
      s := ScanString();
      if len <= pos {
        pos := pos - len;
      }
    }

    /** Lines 122-137: read the record that ends at the cursor, which is record n - 1, and stop where it starts. */
    method RecordBack(ghost recs: seq<Rec>, ghost n: nat) returns (key: string, value: string)
      requires AllPlain(recs) && data == Encode(recs) && 0 < n <= |recs| && pos == |Encode(recs[..n])| <= |data|
      modifies this`pos
      ensures Rec(key, value) == recs[n - 1] && pos == |Encode(recs[..n - 1])| <= |data|
    {
      ghost var s, k := RecordShape(data, recs, n);
      var _ := ReadBack();
      value := WordBack(' ', k);
      key := WordBack('\n', s);
    }

    /** kvdb_get, between taking and releasing the locks; recs is what the log holds. */
    method GetValue(key: string, ghost recs: seq<Rec>) returns (result: Option<string>)
      requires Valid() && Holds(data, recs)
      modifies this
      ensures Valid() && data == StepLog(old(data), Reopen) == Encode(recs)
      ensures result == Lookup(recs, key)
    {
      RecoverExact(data, recs);
      CheckJournal();
      pos := |data|;
      var found := false;
      result := None;
      ghost var n: nat := |recs|;
      assert recs[..n] == recs;
      while !found && pos != 0
        invariant n <= |recs| && data == Encode(recs) && pos <= |data|
        invariant if found then result == Lookup(recs, key)
                  else result == None && pos == |Encode(recs[..n])| && Lookup(recs[..n], key) == Lookup(recs, key)
        decreases !found, n
      {
        var k, value := RecordBack(recs, n);
        assert recs[..n][..n - 1] == recs[..n - 1];
        if k == key {
          found, result := true, Some(value);
        }
        n := n - 1;
      }
    }

    /** After any run, a further put continues it. */
    method PutAfterRun(key: string, value: string, ghost evs: seq<Event>)
      requires Valid() && data == RunLog(evs)
      modifies this
      ensures Valid() && data == RunLog(evs + [Put(Rec(key, value))])
    {
      RunContinues(evs, Put(Rec(key, value)));
      PutRecord(key, value);
    }

    /**
     * After any run of puts, crashes and reopenings, kvdb_get returns the value of the last put of the key that survived, and
     * nothing exactly when none survived.
     */
    method GetAfterRun(key: string, ghost evs: seq<Event>) returns (result: Option<string>, ghost i: nat)
      requires Valid() && data == RunLog(evs) && PlainPuts(evs)
      modifies this
      ensures Valid() && data == RunLog(evs + [Reopen])
      ensures match result
        case Some(v) => Survives(evs, i) && evs[i] == Put(Rec(key, v))
                        && forall j: nat :: i < j && Survives(evs, j) ==> evs[j].rec.key != key
        case None => forall j: nat :: Survives(evs, j) ==> evs[j].rec.key != key
    {
      RunHolds(evs);
      RunContinues(evs, Reopen);
      result := GetValue(key, RunRecs(evs));
      i := LookupTheorem(evs, key);
    }
  }

  lemma RunContinues(evs: seq<Event>, ev: Event)
    ensures RunLog(evs + [ev]) == StepLog(RunLog(evs), ev)
  {
    assert (evs + [ev])[..|evs|] == evs;
  }

  function SkipSpace(d: string, p: nat): (q: nat)
    requires p <= |d|
    ensures p <= q <= |d|
    decreases |d| - p
  {
    if p < |d| && IsSpace(d[p]) then SkipSpace(d, p + 1) else p
  }

  function WordEnd(d: string, p: nat): (q: nat)
    requires p <= |d|
    ensures p <= q <= |d|
    decreases |d| - p
  {
    if p < |d| && !IsSpace(d[p]) then WordEnd(d, p + 1) else p
  }

  lemma {:induction false} WordEndIs(d: string, p: nat, e: nat)
    requires p <= e < |d| && IsSpace(d[e]) && forall i :: p <= i < e ==> !IsSpace(d[i])
    ensures WordEnd(d, p) == e
    decreases e - p
  {
    if p < e {
      WordEndIs(d, p + 1, e);
    }
  }

  lemma WordBetween(d: string, at: nat, e: nat)
    requires at + 1 < e < |d| && IsSpace(d[at]) && IsSpace(d[e]) && forall i :: at < i < e ==> !IsSpace(d[i])
    ensures SkipSpace(d, at) == at + 1 && WordEnd(d, at + 1) == e
  {
    assert SkipSpace(d, at + 1) == at + 1;
    WordEndIs(d, at + 1, e);
  }

  /** Record n - 1 of the log ends where the first n records do. */
  lemma RecordAt(recs: seq<Rec>, n: nat)
    requires AllPlain(recs) && 0 < n <= |recs|
    ensures HoldsLine(Encode(recs), |Encode(recs[..n - 1])|, recs[n - 1])
    ensures |Encode(recs[..n])| == |Encode(recs[..n - 1])| + |Line(recs[n - 1])|
  {
    var head := recs[..n];
    assert head[..n - 1] == recs[..n - 1];
    EncodePrefix(recs, n);
    LastLineIn(Encode(recs), head);
  }

  lemma RecordShape(d: string, recs: seq<Rec>, n: nat) returns (s: nat, k: nat)
    requires AllPlain(recs) && d == Encode(recs) && 0 < n <= |recs|
    ensures s == |Encode(recs[..n - 1])|
    ensures var e := |Encode(recs[..n])|;
      && s + 1 < k && k + 1 < e - 1 && e <= |d|
      && d[s] == '\n' && d[k] == ' ' && d[e - 1] == '\n'
      && (forall i :: s < i < k ==> !IsSpace(d[i])) && (forall i :: k < i < e - 1 ==> !IsSpace(d[i]))
      && Rec(d[s + 1..k], d[k + 1..e - 1]) == recs[n - 1]
  {
    var r := recs[n - 1];
    s := |Encode(recs[..n - 1])|;
    k := s + 1 + |r.key|;
    RecordAt(recs, n);
    LineShape(d, s, r);
    assert d[s + 1..k] == r.key && d[k + 1..s + |Line(r)| - 1] == r.value;
  }

  lemma {:induction false} EncodePrefix(recs: seq<Rec>, n: nat)
    requires n <= |recs|
    ensures Encode(recs[..n]) <= Encode(recs)
  {
    if n == |recs| {
      assert recs[..n] == recs;
    } else {
      EncodePrefix(recs[..|recs| - 1], n);
      assert recs[..|recs| - 1][..n] == recs[..n];
    }
  }

  /** A newline whose line does not hold exactly one blank ends no whole line, nor does anything between the two newlines. */
  lemma NotWhole(d: string, s: nat, e: nat)
    requires s + 1 < e <= |d| && d[s] == '\n' && d[e - 1] == '\n'
    requires forall i :: s < i < e - 1 ==> d[i] != '\n'
    requires Blanks(d, s, e - 1) != 1
    ensures LastWhole(d, e) == LastWhole(d, s + 1)
  {
    forall t: nat ensures !LineAt(d, t, e) {
    }
    NothingWhole(d, e, s + 1);
  }

  /** Without a newline before it, a newline ends no whole line. */
  lemma NoLine(d: string, e: nat)
    requires 0 < e <= |d| && forall i :: 0 <= i < e - 1 ==> d[i] != '\n'
    ensures LastWhole(d, e) == LastWhole(d, 0)
  {
    NothingWhole(d, e, 0);
  }
}
