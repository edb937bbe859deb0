/** `process_file_redis`: parse every line of one file, keep the matrices of
    the lines that parse, then write each matrix and its shape to the cache.
    The cache is seen through the sequence of writes the function issues. */
module FileProcessor {
  import opened Wrappers
  import opened Text
  import opened LineParser
  import opened CacheKeys
  import opened Decimal

  /** What the source prints on its way: a skipped line (stripped, with the
      reason), or a file that could not be opened or read. */
  datatype Diagnostic =
    | LineSkipped(text: string, reason: LineError)
    | FileUnreadable(path: string)

  /** A cached value: the matrix data (its `tobytes()` encoding, kept
      abstract) or the shape string. */
  datatype Value = DataBytes(values: seq<int>) | ShapeText(text: string)

  /** One `r.set(key, value)`. */
  datatype Write = Write(key: string, value: Value)

  /** What the line loop leaves behind: the matrices of the lines that parse
      and a diagnostic per line that does not. */
  datatype Parsed = Parsed(matrices: seq<Matrix>, diagnostics: seq<Diagnostic>)

  /** `[f(x) for x in xs]`. */
  function MapSeq<A, B>(f: A -> B, xs: seq<A>): (ys: seq<B>)
    ensures |ys| == |xs|
    ensures forall k :: 0 <= k < |xs| ==> ys[k] == f(xs[k])
  {
    seq(|xs|, k requires 0 <= k < |xs| => f(xs[k]))
  }

  /** The parser's verdict on each line. */
  function Verdicts(lines: seq<string>): (rs: seq<Result<Matrix, LineError>>)
    ensures |rs| == |lines|
  {
    MapSeq(ParseLine, lines)
  }

  /** What one line adds to the loop's results: its matrix, or the stripped
      line and the reason it was skipped. */
  function Extend(p: Parsed, line: string, r: Result<Matrix, LineError>): Parsed {
    match r
    case Success(m) => Parsed(p.matrices + [m], p.diagnostics)
    case Failure(e) => Parsed(p.matrices, p.diagnostics + [LineSkipped(Strip(line), e)])
  }

  /** The loop over the lines, given the verdict on each. */
  function Gather(lines: seq<string>, rs: seq<Result<Matrix, LineError>>): (p: Parsed)
    requires |rs| == |lines|
    ensures |p.matrices| + |p.diagnostics| == |lines|
    ensures forall k :: 0 <= k < |p.diagnostics| ==> p.diagnostics[k].LineSkipped?
    decreases |lines|
  {
    if |lines| == 0 then Parsed([], [])
    else
      var n := |lines| - 1;
      Extend(Gather(lines[..n], rs[..n]), lines[n], rs[n])
  }

  /** The line loop of `process_file_redis`: a line that parses appends its
      matrix; a line that does not is reported and skipped, and the loop goes
      on with the next line. */
  function ParseLines(lines: seq<string>): (p: Parsed)
    ensures |p.matrices| + |p.diagnostics| == |lines|
    ensures forall k :: 0 <= k < |p.matrices| ==> p.matrices[k].Valid()
  {
    var rs := Verdicts(lines);
    GatherInOrder(lines, rs);
    Gather(lines, rs)
  }

  /** The two writes for the `i`-th matrix, data first. */
  function MatrixWrites(path: string, i: nat, m: Matrix): (ws: seq<Write>)
    ensures |ws| == 2 && ws[0].key != ws[1].key
    ensures ws[0].value == DataBytes(m.data) && ws[1].value.ShapeText?
  {
    DataKeyIsNotShapeKey(path, i, path, i);
    [Write(DataKey(path, i), DataBytes(m.data)), Write(ShapeKey(path, i), ShapeText(ShapeString(m)))]
  }

  /** The write loop `for i, matrix in enumerate(matrices)`: for each matrix
      in order, its data under the `i`-th data key and immediately after it
      its shape under the `i`-th shape key, and nothing else. */
  function WriteLog(path: string, ms: seq<Matrix>): (log: seq<Write>)
    ensures |log| == 2 * |ms|
    ensures forall i :: 0 <= i < |ms| ==>
      && log[2 * i] == Write(DataKey(path, i), DataBytes(ms[i].data))
      && log[2 * i + 1] == Write(ShapeKey(path, i), ShapeText(ShapeString(ms[i])))
    decreases |ms|
  {
    if |ms| == 0 then []
    else
      var n := |ms| - 1;
      var prev := WriteLog(path, ms[..n]);
      var log := prev + MatrixWrites(path, n, ms[n]);
      assert forall i :: 0 <= i < |ms| ==>
        && log[2 * i] == Write(DataKey(path, i), DataBytes(ms[i].data))
        && log[2 * i + 1] == Write(ShapeKey(path, i), ShapeText(ShapeString(ms[i])))
      by {
        forall i | 0 <= i < |ms|
          ensures log[2 * i] == Write(DataKey(path, i), DataBytes(ms[i].data))
          ensures log[2 * i + 1] == Write(ShapeKey(path, i), ShapeText(ShapeString(ms[i])))
        {
          if i < n {
            assert ms[..n][i] == ms[i];
            assert log[2 * i] == prev[2 * i] && log[2 * i + 1] == prev[2 * i + 1];
          } else {
            var w := MatrixWrites(path, n, ms[n]);
            assert log[2 * i] == w[0] && log[2 * i + 1] == w[1];
          }
        }
      }
      log
  }

  /** The result of `process_file_redis` with the writes it issues and the
      diagnostics it prints. */
  datatype Outcome = Outcome(matrices: seq<Matrix>, writes: seq<Write>, diagnostics: seq<Diagnostic>)

  /** `process_file_redis(path)`, given the file's lines as `readlines`
      returns them, or `None` when opening or reading the file fails. */
  function ProcessFile(path: string, contents: Option<seq<string>>): (o: Outcome)
    ensures contents.None? ==> o.matrices == [] && o.writes == [] && o.diagnostics == [FileUnreadable(path)]
    ensures contents.Some? ==> |o.matrices| + |o.diagnostics| == |contents.value|
    ensures |o.writes| == 2 * |o.matrices|
  {
    match contents
    case None => Outcome([], [], [FileUnreadable(path)])
    case Some(lines) =>
      var p := ParseLines(lines);
      Outcome(p.matrices, WriteLog(path, p.matrices), p.diagnostics)
  }

  /* ------------------------------------------------------ the line loop */

  /** The loop is a fold: the lines of `a + b` give the results of `a`
      followed by those of `b`. */
  lemma {:induction false} GatherAppend(a: seq<string>, ra: seq<Result<Matrix, LineError>>,
                                        b: seq<string>, rb: seq<Result<Matrix, LineError>>)
    requires |ra| == |a| && |rb| == |b|
    ensures Gather(a + b, ra + rb)
         == Parsed(Gather(a, ra).matrices + Gather(b, rb).matrices,
                   Gather(a, ra).diagnostics + Gather(b, rb).diagnostics)
    decreases |b|
  {
    if |b| == 0 {
      assert a + b == a && ra + rb == ra;
    } else {
      var n := |b| - 1;
      var N := |a| + n;
      assert (a + b)[..N] == a + b[..n];
      assert (ra + rb)[..N] == ra + rb[..n];
      assert (a + b)[N] == b[n] && (ra + rb)[N] == rb[n];
      GatherAppend(a, ra, b[..n], rb[..n]);
      ExtendAfter(Gather(a, ra), Gather(b[..n], rb[..n]), b[n], rb[n]);
    }
  }

  /** Extending the concatenated results extends the second part. */
  lemma ExtendAfter(p: Parsed, q: Parsed, line: string, r: Result<Matrix, LineError>)
    ensures Extend(Parsed(p.matrices + q.matrices, p.diagnostics + q.diagnostics), line, r)
         == Parsed(p.matrices + Extend(q, line, r).matrices, p.diagnostics + Extend(q, line, r).diagnostics)
  {
    match r
    case Success(m) =>
      assert p.matrices + q.matrices + [m] == p.matrices + (q.matrices + [m]);
    case Failure(e) =>
      var d := LineSkipped(Strip(line), e);
      assert p.diagnostics + q.diagnostics + [d] == p.diagnostics + (q.diagnostics + [d]);
  }

  /** The line loop is a fold over the lines. */
  lemma {:induction false} ParseLinesAppend(a: seq<string>, b: seq<string>)
    ensures ParseLines(a + b)
         == Parsed(ParseLines(a).matrices + ParseLines(b).matrices,
                   ParseLines(a).diagnostics + ParseLines(b).diagnostics)
  {
    VerdictsAppend(a, b);
    GatherAppend(a, Verdicts(a), b, Verdicts(b));
  }

  lemma VerdictsAppend(a: seq<string>, b: seq<string>)
    ensures Verdicts(a + b) == Verdicts(a) + Verdicts(b)
  {
    MapSeqAppend(ParseLine, a, b);
  }

  /** Mapping over a concatenation maps each part. */
  lemma {:induction false} MapSeqAppend<A, B>(f: A -> B, a: seq<A>, b: seq<A>)
    ensures MapSeq(f, a + b) == MapSeq(f, a) + MapSeq(f, b)
  {
    var ys, za, zb := MapSeq(f, a + b), MapSeq(f, a), MapSeq(f, b);
    forall k | 0 <= k < |ys| ensures ys[k] == (za + zb)[k] {
      if k < |a| {
        assert (a + b)[k] == a[k];
      } else {
        assert (a + b)[k] == b[k - |a|];
      }
    }
  }

  /** A line that does not parse adds only its diagnostic: it never keeps
      the lines after it from being collected. */
  lemma {:induction false} SkippedLineIsHarmless(a: seq<string>, bad: string, b: seq<string>)
    requires ParseLine(bad).Failure?
    ensures ParseLines(a + [bad] + b).matrices == ParseLines(a).matrices + ParseLines(b).matrices
    ensures ParseLines(a + [bad] + b).diagnostics
         == ParseLines(a).diagnostics + [LineSkipped(Strip(bad), ParseLine(bad).error)] + ParseLines(b).diagnostics
  {
    var e := ParseLine(bad).error;
    var skipped := LineSkipped(Strip(bad), e);
    OneLine(bad);
    assert ParseLines([bad]) == Parsed([], [skipped]);
    ParseLinesAppend(a, [bad]);
    var pa := ParseLines(a);
    assert ParseLines(a + [bad]) == Parsed(pa.matrices + [], pa.diagnostics + [skipped]);
    assert pa.matrices + [] == pa.matrices;
    ParseLinesAppend(a + [bad], b);
  }

  /** The loop over a single line. */
  lemma {:induction false} OneLine(line: string)
    ensures ParseLines([line]) == Extend(Parsed([], []), line, ParseLine(line))
  {
    var v := Verdicts([line]);
    assert v == [ParseLine(line)];
    assert [line][..0] == [] && v[..0] == [];
  }

  /** The positions whose verdict is a matrix, in increasing order. */
  function SuccessIndices(rs: seq<Result<Matrix, LineError>>): (idx: seq<nat>)
    ensures forall k :: 0 <= k < |idx| ==> idx[k] < |rs| && rs[idx[k]].Success?
    ensures forall k, l :: 0 <= k < l < |idx| ==> idx[k] < idx[l]
    ensures forall j :: 0 <= j < |rs| && rs[j].Success? ==> j in idx
    decreases |rs|
  {
    if |rs| == 0 then []
    else
      var n := |rs| - 1;
      var prefix := rs[..n];
      assert forall j :: 0 <= j < n ==> prefix[j] == rs[j];
      SuccessIndices(prefix) + (if rs[n].Success? then [n] else [])
  }

  /** The loop keeps exactly the matrices of the successful verdicts, in
      order. */
  lemma {:induction false} GatherInOrder(lines: seq<string>, rs: seq<Result<Matrix, LineError>>)
    requires |rs| == |lines|
    ensures var ms := Gather(lines, rs).matrices;
      var idx := SuccessIndices(rs);
      |ms| == |idx| && forall k :: 0 <= k < |ms| ==> rs[idx[k]] == Success(ms[k])
    decreases |lines|
  {
    if |lines| > 0 {
      var n := |lines| - 1;
      var prev, idx := Gather(lines[..n], rs[..n]).matrices, SuccessIndices(rs[..n]);
      GatherInOrder(lines[..n], rs[..n]);
      assert forall j :: 0 <= j < n ==> rs[..n][j] == rs[j];
      assert forall k :: 0 <= k < |prev| ==> rs[idx[k]] == Success(prev[k]);
      match rs[n]
      case Success(m) =>
        assert Gather(lines, rs).matrices == prev + [m];
        assert SuccessIndices(rs) == idx + [n];
      case Failure(_) =>
        assert Gather(lines, rs).matrices == prev;
        assert SuccessIndices(rs) == idx;
    }
  }

  /** The matrices collected are exactly those of the lines that parse, in
      line order: the `k`-th matrix is the parse of the `k`-th such line,
      and every line that parses has its matrix collected. */
  lemma {:induction false} CollectsParsedLinesInOrder(lines: seq<string>)
    ensures var ms := ParseLines(lines).matrices;
      var idx := SuccessIndices(Verdicts(lines));
      && |ms| == |idx|
      && (forall k :: 0 <= k < |ms| ==> idx[k] < |lines| && ParseLine(lines[idx[k]]) == Success(ms[k]))
      && (forall k, l :: 0 <= k < l < |idx| ==> idx[k] < idx[l])
      && (forall j :: 0 <= j < |lines| && ParseLine(lines[j]).Success? ==> j in idx)
  {
    GatherInOrder(lines, Verdicts(lines));
  }

  /* ------------------------------------------------------ the write loop */

  /** The key of the `x`-th write: even positions hold data keys, odd ones
      shape keys, both of matrix `x / 2`. */
  lemma {:induction false} KeyAt(path: string, ms: seq<Matrix>, x: nat)
    requires x < 2 * |ms|
    ensures WriteLog(path, ms)[x].key == if x % 2 == 0 then DataKey(path, x / 2) else ShapeKey(path, x / 2)
  {
    var i := x / 2;
    assert x == 2 * i || x == 2 * i + 1;
  }

  /** Only this file's keys for indices `0..M-1` are written. */
  lemma {:induction false} WritesOnlyOwnKeys(path: string, ms: seq<Matrix>, w: Write)
    requires w in WriteLog(path, ms)
    ensures exists i :: 0 <= i < |ms| && (w.key == DataKey(path, i) || w.key == ShapeKey(path, i))
  {
    var log := WriteLog(path, ms);
    var x :| 0 <= x < |log| && log[x] == w;
    KeyAt(path, ms, x);
  }

  /** No two writes of the sequence have the same key. */
  predicate DistinctKeys(log: seq<Write>) {
    forall x, y :: 0 <= x < y < |log| ==> log[x].key != log[y].key
  }

  /** No key is written twice while one file is stored, so no write of the
      file overwrites another of its writes. */
  lemma {:induction false} WriteKeysDistinct(path: string, ms: seq<Matrix>)
    ensures DistinctKeys(WriteLog(path, ms))
  {
    var log := WriteLog(path, ms);
    forall x, y | 0 <= x < y < |log| ensures log[x].key != log[y].key {
      KeyAt(path, ms, x);
      KeyAt(path, ms, y);
      var i, j := x / 2, y / 2;
      if x % 2 == 0 && y % 2 == 0 {
        if log[x].key == log[y].key {
          DataKeyInjective(path, i, path, j);
        }
      } else if x % 2 == 1 && y % 2 == 1 {
        if log[x].key == log[y].key {
          ShapeKeyInjective(path, i, path, j);
        }
      } else if x % 2 == 0 {
        DataKeyIsNotShapeKey(path, i, path, j);
      } else {
        DataKeyIsNotShapeKey(path, j, path, i);
      }
    }
  }

  /* ------------------------------------------------------------ example */

  /** A file `a.txt` holding the lines `2x2:1 2 3 4` and `bad`: one matrix,
      stored under `a.txt_0` with shape `2x2` under `a.txt_0_shape`, and one
      skipped line. */
  lemma ExampleFile()
    ensures ProcessFile("a.txt", Some(["2x2:1 2 3 4\n", "bad\n"]))
         == Outcome([Matrix(2, 2, [1, 2, 3, 4])],
                    [Write("a.txt_0", DataBytes([1, 2, 3, 4])), Write("a.txt_0_shape", ShapeText("2x2"))],
                    [LineSkipped("bad", ColonCount)])
  {
    var m := Matrix(2, 2, [1, 2, 3, 4]);
    var good, bad := "2x2:1 2 3 4\n", "bad\n";
    ExampleLines();
    OneLine(good);
    OneLine(bad);
    ParseLinesAppend([good], [bad]);
    assert [good] + [bad] == [good, bad];
    ExampleWrites();
  }

  lemma ExampleLines()
    ensures ParseLine("2x2:1 2 3 4\n") == Success(Matrix(2, 2, [1, 2, 3, 4]))
    ensures ParseLine("bad\n") == Failure(ColonCount) && Strip("bad\n") == "bad"
  {
    ExampleFormat();
    ParseFormattedLine(Matrix(2, 2, [1, 2, 3, 4]), "", "\n");
    ExampleBadLine();
  }

  lemma ExampleBadLine()
    ensures ParseLine("bad\n") == Failure(ColonCount) && Strip("bad\n") == "bad"
  {
    assert "bad\n" == "" + "bad" + "\n";
    StripPadded("", "bad", "\n");
    assert Count("bad", ':') == 0;
  }

  lemma ExampleFormat()
    ensures "2x2:1 2 3 4\n" == "" + FormatLine(Matrix(2, 2, [1, 2, 3, 4])) + "\n"
  {
    var m := Matrix(2, 2, [1, 2, 3, 4]);
    ExampleTokens();
    ExampleJoin();
    assert ShapeString(m) == "2x2";
  }

  lemma ExampleTokens()
    ensures IntTokens([1, 2, 3, 4]) == ["1", "2", "3", "4"]
  {
    var ts := IntTokens([1, 2, 3, 4]);
    assert ts[0] == "1" && ts[1] == "2" && ts[2] == "3" && ts[3] == "4";
  }

  lemma ExampleJoin()
    ensures JoinSpaces(["1", "2", "3", "4"]) == "1 2 3 4"
  {
    var ts: seq<string> := ["1", "2", "3", "4"];
    assert ts[1..] == ["2", "3", "4"] && ts[2..] == ["3", "4"] && ts[3..] == ["4"];
    assert JoinSpaces(ts[2..]) == "3 4";
    assert JoinSpaces(ts[1..]) == "2 3 4";
  }

  lemma ExampleWrites()
    ensures WriteLog("a.txt", [Matrix(2, 2, [1, 2, 3, 4])])
         == [Write("a.txt_0", DataBytes([1, 2, 3, 4])), Write("a.txt_0_shape", ShapeText("2x2"))]
  {
    var m := Matrix(2, 2, [1, 2, 3, 4]);
    assert [m][..0] == [];
    assert NatToString(0) == "0";
    assert DataKey("a.txt", 0) == "a.txt_0";
    assert ShapeKey("a.txt", 0) == "a.txt_0_shape";
    assert ShapeString(m) == "2x2";
    assert WriteLog("a.txt", [m]) == WriteLog("a.txt", []) + MatrixWrites("a.txt", 0, m);
  }
}
