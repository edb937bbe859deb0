/** The cache keys of `process_file_redis`: the `i`-th matrix of a file
    (counting successfully parsed lines only) is stored under
    `f"{file_path}_{i}"`, its shape under that key followed by `_shape`. */
module CacheKeys {
  import opened Wrappers
  import opened Decimal

  /** The key of the data of matrix `i`: the path, an underscore, and the
      index in decimal, so it ends in a digit. */
  function DataKey(path: string, i: nat): (key: string)
    ensures |key| > |path| + 1 && key[..|path|] == path && key[|path|] == '_'
    ensures IsDigit(key[|key| - 1])
  {
    var d := NatToString(i);
    var key := path + "_" + d;
    assert key[|key| - 1] == d[|d| - 1];
    key
  }

  /** The part of a data key after the path and the underscore reads back,
      with `int()`, as the index. */
  lemma DataKeyIndex(path: string, i: nat)
    ensures ParseInt(DataKey(path, i)[|path| + 1..]) == Some(i)
  {
    var key := DataKey(path, i);
    assert key[|path| + 1..] == NatToString(i);
    ParseNatToString(i);
  }

  /** The key of the shape of matrix `i`: its data key extended by six
      characters, ending, unlike a data key, in a letter. */
  function ShapeKey(path: string, i: nat): (key: string)
    ensures |key| == |DataKey(path, i)| + 6 && key[..|key| - 6] == DataKey(path, i)
    ensures !IsDigit(key[|key| - 1])
  {
    var key := DataKey(path, i) + "_shape";
    assert key[..|key| - 6] == DataKey(path, i);
    key
  }

  /** The index part of a key is a plain decimal, so never an underscore. */
  lemma {:induction false} NoUnderscoreInDigits(n: nat)
    ensures '_' !in NatToString(n)
  {
  }

  /** A data key ends in a digit; a shape key ends in `e`: no data key is a
      shape key. */
  lemma {:induction false} DataKeyIsNotShapeKey(p: string, i: nat, q: string, j: nat)
    ensures DataKey(p, i) != ShapeKey(q, j)
  {
    var d := DataKey(p, i);
    var s := NatToString(i);
    assert d[|d| - 1] == s[|s| - 1];
    assert IsDigit(s[|s| - 1]);
    var e := ShapeKey(q, j);
    assert e[|e| - 1] == 'e';
  }

  /** Distinct (file, index) pairs get distinct data keys: the last
      underscore of a key separates the file path from the index. */
  lemma {:induction false} DataKeyInjective(p: string, i: nat, q: string, j: nat)
    requires DataKey(p, i) == DataKey(q, j)
    ensures p == q && i == j
  {
    var s, t := NatToString(i), NatToString(j);
    var key := DataKey(p, i);
    NoUnderscoreInDigits(i);
    NoUnderscoreInDigits(j);
    if |s| < |t| {
      UnderscoreInsideIndex(p, s, q, t);
    } else if |t| < |s| {
      UnderscoreInsideIndex(q, t, p, s);
    }
    assert s == key[|key| - |s|..] == t;
    assert p == key[..|p|] == q;
    NatToStringInjective(i, j);
  }

  /** If the index part of one key were shorter than the other's, the
      underscore before it would fall inside the longer index. */
  lemma {:induction false} UnderscoreInsideIndex(p: string, s: string, q: string, t: string)
    requires p + "_" + s == q + "_" + t
    requires |s| < |t|
    ensures '_' in t
  {
    var key := p + "_" + s;
    var x := |p|;
    assert key[x] == '_';
    assert |q| < x;
    assert key[x] == t[x - |q| - 1];
  }

  /** Distinct (file, index) pairs get distinct shape keys. */
  lemma {:induction false} ShapeKeyInjective(p: string, i: nat, q: string, j: nat)
    requires ShapeKey(p, i) == ShapeKey(q, j)
    ensures p == q && i == j
  {
    var a, b := ShapeKey(p, i), ShapeKey(q, j);
    assert DataKey(p, i) == a[..|a| - 6];
    assert DataKey(q, j) == b[..|b| - 6];
    DataKeyInjective(p, i, q, j);
  }
}
