/** The cache as the writes of `process_file_redis` leave it. Each
    `r.set(key, value)` replaces whatever the key held; the store is a map
    from keys to values and a sequence of writes is applied in order. */
module CacheStore {
  import opened Wrappers
  import opened LineParser
  import opened CacheKeys
  import opened FileProcessor

  type Store = map<string, Value>

  function Get(s: Store, key: string): Option<Value> {
    if key in s then Some(s[key]) else None
  }

  /** The value of the last write to `key`, if any. */
  function LastWrite(log: seq<Write>, key: string): (v: Option<Value>)
    ensures v.Some? <==> exists x :: 0 <= x < |log| && log[x].key == key
    decreases |log|
  {
    if |log| == 0 then None
    else
      var n := |log| - 1;
      assert forall x :: 0 <= x < n ==> log[..n][x] == log[x];
      if log[n].key == key then Some(log[n].value) else LastWrite(log[..n], key)
  }

  /** The keys some write of `log` goes to. */
  function WrittenKeys(log: seq<Write>): set<string> {
    set x | 0 <= x < |log| :: log[x].key
  }

  /** Performs the writes in order. */
  function Apply(s: Store, log: seq<Write>): Store
    decreases |log|
  {
    if |log| == 0 then s
    else
      var n := |log| - 1;
      Apply(s, log[..n])[log[n].key := log[n].value]
  }

  /** A `SET` never removes a key: after the writes the store holds its old
      keys and exactly the written ones besides. */
  lemma {:induction false} ApplyKeys(s: Store, log: seq<Write>)
    ensures Apply(s, log).Keys == s.Keys + WrittenKeys(log)
    decreases |log|
  {
    if |log| > 0 {
      var n := |log| - 1;
      ApplyKeys(s, log[..n]);
      assert WrittenKeys(log) == WrittenKeys(log[..n]) + {log[n].key} by {
        assert forall x :: 0 <= x < n ==> log[..n][x] == log[x];
      }
    }
  }

  /** After the writes a key holds the value of its last write, or what it
      held before when no write touched it. */
  lemma {:induction false} ApplyGet(s: Store, log: seq<Write>, key: string)
    ensures Get(Apply(s, log), key) == if LastWrite(log, key).Some? then LastWrite(log, key) else Get(s, key)
    decreases |log|
  {
    if |log| > 0 {
      ApplyGet(s, log[..|log| - 1], key);
    }
  }

  lemma MapsEqual(m1: Store, m2: Store)
    requires forall key :: Get(m1, key) == Get(m2, key)
    ensures m1 == m2
  {
    assert forall key :: key in m1 <==> Get(m1, key).Some?;
    assert forall key :: key in m2 <==> Get(m2, key).Some?;
  }

  /** Writing the same sequence again changes nothing: a rerun overwrites
      the keys it wrote, it does not add to them. */
  lemma {:induction false} ApplyIdempotent(s: Store, log: seq<Write>)
    ensures Apply(Apply(s, log), log) == Apply(s, log)
  {
    forall key ensures Get(Apply(Apply(s, log), log), key) == Get(Apply(s, log), key) {
      ApplyGet(Apply(s, log), log, key);
      ApplyGet(s, log, key);
    }
    MapsEqual(Apply(Apply(s, log), log), Apply(s, log));
  }

  /** With no key written twice, the last write to the key of a write is
      that write. */
  lemma {:induction false} LastWriteOfDistinct(log: seq<Write>, x: nat)
    requires x < |log|
    requires DistinctKeys(log)
    ensures LastWrite(log, log[x].key) == Some(log[x].value)
    decreases |log|
  {
    var n := |log| - 1;
    if x < n {
      assert forall y :: 0 <= y < n ==> log[..n][y] == log[y];
      LastWriteOfDistinct(log[..n], x);
    }
  }

  /** After one file's writes, each of its matrices and shapes is in the
      store under its key, and every other key is as it was. */
  lemma {:induction false} StoreAfterFile(s: Store, path: string, ms: seq<Matrix>)
    ensures var t := Apply(s, WriteLog(path, ms));
      forall i :: 0 <= i < |ms| ==>
        && Get(t, DataKey(path, i)) == Some(DataBytes(ms[i].data))
        && Get(t, ShapeKey(path, i)) == Some(ShapeText(ShapeString(ms[i])))
    ensures var t := Apply(s, WriteLog(path, ms));
      forall key :: !WrittenBy(path, |ms|, key) ==> Get(t, key) == Get(s, key)
  {
    StoredValues(s, path, ms);
    OtherKeysUnchanged(s, path, ms);
  }

  lemma {:induction false} StoredValues(s: Store, path: string, ms: seq<Matrix>)
    ensures var t := Apply(s, WriteLog(path, ms));
      forall i :: 0 <= i < |ms| ==>
        && Get(t, DataKey(path, i)) == Some(DataBytes(ms[i].data))
        && Get(t, ShapeKey(path, i)) == Some(ShapeText(ShapeString(ms[i])))
  {
    var log := WriteLog(path, ms);
    WriteKeysDistinct(path, ms);
    forall i | 0 <= i < |ms|
      ensures Get(Apply(s, log), DataKey(path, i)) == Some(DataBytes(ms[i].data))
      ensures Get(Apply(s, log), ShapeKey(path, i)) == Some(ShapeText(ShapeString(ms[i])))
    {
      StoredPair(s, log, 2 * i);
    }
  }

  /** With distinct keys, the writes at `x` and `x + 1` are both in the
      store afterwards. */
  lemma StoredPair(s: Store, log: seq<Write>, x: nat)
    requires x + 1 < |log| && DistinctKeys(log)
    ensures Get(Apply(s, log), log[x].key) == Some(log[x].value)
    ensures Get(Apply(s, log), log[x + 1].key) == Some(log[x + 1].value)
  {
    LastWriteOfDistinct(log, x);
    LastWriteOfDistinct(log, x + 1);
    ApplyGet(s, log, log[x].key);
    ApplyGet(s, log, log[x + 1].key);
  }

  lemma {:induction false} OtherKeysUnchanged(s: Store, path: string, ms: seq<Matrix>)
    ensures var t := Apply(s, WriteLog(path, ms));
      forall key :: !WrittenBy(path, |ms|, key) ==> Get(t, key) == Get(s, key)
  {
    var log := WriteLog(path, ms);
    var t := Apply(s, log);
    forall key | !WrittenBy(path, |ms|, key) ensures Get(t, key) == Get(s, key) {
      ApplyGet(s, log, key);
      if LastWrite(log, key).Some? {
        var x := WrittenAt(log, key);
        WritesOnlyOwnKeys(path, ms, log[x]);
      }
    }
  }

  /** Whether `key` is one of the keys a file with `m` matrices writes. */
  ghost predicate WrittenBy(path: string, m: nat, key: string) {
    exists i :: 0 <= i < m && (key == DataKey(path, i) || key == ShapeKey(path, i))
  }

  /** Reads matrix `i` of a file back from the store: the data under its
      data key, the dimensions from the shape string under its shape key. */
  function Reload(s: Store, path: string, i: nat): Option<Matrix> {
    match (Get(s, DataKey(path, i)), Get(s, ShapeKey(path, i)))
    case (Some(DataBytes(d)), Some(ShapeText(shape))) =>
      (match ParseShape(shape)
       case Success((rows, cols)) =>
         if rows >= 0 && cols >= 0 && |d| == rows * cols then Some(Matrix(rows, cols, d)) else None
       case Failure(_) => None)
    case _ => None
  }

  /** What a file's writes store can be read back as the matrices the file
      returned, element for element. */
  lemma {:induction false} ReloadAfterProcessing(s: Store, path: string, contents: Option<seq<string>>)
    ensures var o := ProcessFile(path, contents);
      forall i :: 0 <= i < |o.matrices| ==> Reload(Apply(s, o.writes), path, i) == Some(o.matrices[i])
  {
    var o := ProcessFile(path, contents);
    if contents.Some? {
      ReloadStored(s, path, o.matrices);
    }
  }

  /** Reading back after the writes of `WriteLog(path, ms)` gives `ms`. */
  lemma {:induction false} ReloadStored(s: Store, path: string, ms: seq<Matrix>)
    requires forall i :: 0 <= i < |ms| ==> ms[i].Valid()
    ensures forall i :: 0 <= i < |ms| ==> Reload(Apply(s, WriteLog(path, ms)), path, i) == Some(ms[i])
  {
    var t := Apply(s, WriteLog(path, ms));
    StoreAfterFile(s, path, ms);
    forall i | 0 <= i < |ms| ensures Reload(t, path, i) == Some(ms[i]) {
      ReloadOne(t, path, i, ms[i]);
    }
  }

  /** A matrix whose data and shape string sit under the keys of index `i`
      reads back as itself. */
  lemma ReloadOne(t: Store, path: string, i: nat, m: Matrix)
    requires m.Valid()
    requires Get(t, DataKey(path, i)) == Some(DataBytes(m.data))
    requires Get(t, ShapeKey(path, i)) == Some(ShapeText(ShapeString(m)))
    ensures Reload(t, path, i) == Some(m)
  {
    ShapeRoundTrip(m);
  }

  /** Running `process_file_redis` twice on the same input leaves the store
      as one run does. */
  lemma {:induction false} RerunIsIdempotent(s: Store, path: string, contents: Option<seq<string>>)
    ensures var w := ProcessFile(path, contents).writes;
      Apply(Apply(s, w), w) == Apply(s, w)
  {
    ApplyIdempotent(s, ProcessFile(path, contents).writes);
  }

  /** Two different files write disjoint keys, so the store does not depend
      on which of them is written first. */
  lemma {:induction false} FilesCommute(s: Store, p: string, ms: seq<Matrix>, q: string, ns: seq<Matrix>)
    requires p != q
    ensures Apply(Apply(s, WriteLog(p, ms)), WriteLog(q, ns)) == Apply(Apply(s, WriteLog(q, ns)), WriteLog(p, ms))
  {
    var lp, lq := WriteLog(p, ms), WriteLog(q, ns);
    var pq, qp := Apply(Apply(s, lp), lq), Apply(Apply(s, lq), lp);
    forall key ensures Get(pq, key) == Get(qp, key) {
      ApplyGet(Apply(s, lp), lq, key);
      ApplyGet(s, lp, key);
      ApplyGet(Apply(s, lq), lp, key);
      ApplyGet(s, lq, key);
      LogsDisjoint(p, ms, q, ns, key);
    }
    MapsEqual(pq, qp);
  }

  /** `w` interleaves `a` and `b`: it is made of the writes of both, each
      sequence in its own order, as when two workers write at the same
      time and every `SET` is atomic. */
  predicate IsMerge(w: seq<Write>, a: seq<Write>, b: seq<Write>)
    decreases |w|
  {
    if |w| == 0 then a == [] && b == []
    else
      var n := |w| - 1;
      || (|a| > 0 && w[n] == a[|a| - 1] && IsMerge(w[..n], a[..|a| - 1], b))
      || (|b| > 0 && w[n] == b[|b| - 1] && IsMerge(w[..n], a, b[..|b| - 1]))
  }

  lemma {:induction false} MergeSymmetric(w: seq<Write>, a: seq<Write>, b: seq<Write>)
    requires IsMerge(w, a, b)
    ensures IsMerge(w, b, a)
    decreases |w|
  {
    if |w| > 0 {
      var n := |w| - 1;
      if |a| > 0 && w[n] == a[|a| - 1] && IsMerge(w[..n], a[..|a| - 1], b) {
        MergeSymmetric(w[..n], a[..|a| - 1], b);
      } else {
        MergeSymmetric(w[..n], a, b[..|b| - 1]);
      }
    }
  }

  /** In an interleaving, a key that `b` never writes has its last write
      from `a`. */
  lemma {:induction false} LastWriteOfMerge(w: seq<Write>, a: seq<Write>, b: seq<Write>, key: string)
    requires IsMerge(w, a, b)
    requires LastWrite(b, key).None?
    ensures LastWrite(w, key) == LastWrite(a, key)
    decreases |w|
  {
    if |w| > 0 {
      var n := |w| - 1;
      if |a| > 0 && w[n] == a[|a| - 1] && IsMerge(w[..n], a[..|a| - 1], b) {
        if w[n].key != key {
          LastWriteOfMerge(w[..n], a[..|a| - 1], b, key);
        }
      } else {
        var m := |b| - 1;
        assert b[m].key != key;
        LastWriteOfMerge(w[..n], a, b[..m], key);
      }
    }
  }

  /** Files with different paths do not interfere, however their writes
      interleave: the store ends as if one file had been written after the
      other. */
  lemma {:induction false} InterleavedFiles(s: Store, p: string, ms: seq<Matrix>, q: string, ns: seq<Matrix>, w: seq<Write>)
    requires p != q
    requires IsMerge(w, WriteLog(p, ms), WriteLog(q, ns))
    ensures Apply(s, w) == Apply(Apply(s, WriteLog(p, ms)), WriteLog(q, ns))
  {
    var lp, lq := WriteLog(p, ms), WriteLog(q, ns);
    var t := Apply(Apply(s, lp), lq);
    forall key ensures Get(Apply(s, w), key) == Get(t, key) {
      ApplyGet(s, w, key);
      ApplyGet(Apply(s, lp), lq, key);
      ApplyGet(s, lp, key);
      LogsDisjoint(p, ms, q, ns, key);
      if LastWrite(lq, key).None? {
        LastWriteOfMerge(w, lp, lq, key);
      } else {
        MergeSymmetric(w, lp, lq);
        LastWriteOfMerge(w, lq, lp, key);
      }
    }
    MapsEqual(Apply(s, w), t);
  }

  /** No key is written both by a file with path `p` and by one with path
      `q`. */
  lemma {:induction false} LogsDisjoint(p: string, ms: seq<Matrix>, q: string, ns: seq<Matrix>, key: string)
    requires p != q
    ensures LastWrite(WriteLog(p, ms), key).None? || LastWrite(WriteLog(q, ns), key).None?
  {
    var lp, lq := WriteLog(p, ms), WriteLog(q, ns);
    if LastWrite(lp, key).Some? && LastWrite(lq, key).Some? {
      var x := WrittenAt(lp, key);
      var y := WrittenAt(lq, key);
      KeyAt(p, ms, x);
      KeyAt(q, ns, y);
      KeysOfDistinctFiles(p, x / 2, q, y / 2);
    }
  }

  /** A position of the log that writes `key`, when some write does. */
  lemma {:induction false} WrittenAt(log: seq<Write>, key: string) returns (x: nat)
    requires LastWrite(log, key).Some?
    ensures x < |log| && log[x].key == key
    decreases |log|
  {
    var n := |log| - 1;
    if log[n].key == key {
      x := n;
    } else {
      x := WrittenAt(log[..n], key);
      assert log[..n][x] == log[x];
    }
  }

  /** No key of one file is a key of another. */
  lemma {:induction false} KeysOfDistinctFiles(p: string, i: nat, q: string, j: nat)
    requires p != q
    ensures DataKey(p, i) != DataKey(q, j) && ShapeKey(p, i) != ShapeKey(q, j)
    ensures DataKey(p, i) != ShapeKey(q, j) && ShapeKey(p, i) != DataKey(q, j)
  {
    if DataKey(p, i) == DataKey(q, j) {
      DataKeyInjective(p, i, q, j);
    }
    if ShapeKey(p, i) == ShapeKey(q, j) {
      ShapeKeyInjective(p, i, q, j);
    }
    DataKeyIsNotShapeKey(p, i, q, j);
    DataKeyIsNotShapeKey(q, j, p, i);
  }
}
