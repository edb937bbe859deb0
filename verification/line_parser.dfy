/** One line of a matrix source file, `"<rows>x<cols>:<v1> <v2> ..."`, read
    the way `process_file_redis` reads it: strip, split once at `:`, split
    the dimensions at `x`, split the values on whitespace, check the count,
    reshape. Every `ValueError` of the source is a `Failure` here. */
module LineParser {
  import opened Wrappers
  import opened Text
  import opened Decimal

  /** A parsed matrix: the `rows x cols` view numpy's `reshape` gives of the
      values, in row-major order. */
  datatype Matrix = Matrix(rows: nat, cols: nat, data: seq<int>) {

    predicate Valid() {
      |data| == rows * cols
    }

    /** Element `(i, j)` of the row-major layout. */
    function At(i: nat, j: nat): int
      requires Valid() && i < rows && j < cols
    {
      RowMajorIndex(i, j, rows, cols);
      data[i * cols + j]
    }
  }

  lemma {:induction false} RowMajorIndex(i: nat, j: nat, rows: nat, cols: nat)
    requires i < rows && j < cols
    ensures i * cols + j < rows * cols
  {
    assert (i + 1) * cols <= rows * cols;
  }

  /** Why a line was skipped; each is a `ValueError` in the source. */
  datatype LineError =
    | ColonCount                          // the stripped line is not two parts around one ':'
    | DimensionCount                      // the dimension part is not two parts around one 'x'
    | NotAnInteger(token: string)         // int() refused this dimension or value token
    | CountMismatch(rows: int, cols: int, count: nat)  // count of values is not rows * cols
    | NegativeShape(rows: int, cols: int) // reshape refuses a negative dimension

  /** `rows, cols = map(int, pieces)`: Python converts the first piece, then
      checks for a second, converts it, and converts a third (if any) before
      reporting that there are too many. */
  function ParseDims(ps: seq<string>): (r: Result<(int, int), LineError>)
    requires |ps| > 0
    ensures r.Success? <==> |ps| == 2 && ParseInt(ps[0]).Some? && ParseInt(ps[1]).Some?
    ensures r.Success? ==> r.value == (ParseInt(ps[0]).value, ParseInt(ps[1]).value)
    ensures r.Failure? ==> r.error == DimensionCount || r.error.NotAnInteger?
  {
    match ParseInt(ps[0])
    case None => Failure(NotAnInteger(ps[0]))
    case Some(rows) =>
      if |ps| < 2 then Failure(DimensionCount)
      else
        match ParseInt(ps[1])
        case None => Failure(NotAnInteger(ps[1]))
        case Some(cols) =>
          if |ps| == 2 then Success((rows, cols))
          else if ParseInt(ps[2]).None? then Failure(NotAnInteger(ps[2]))
          else Failure(DimensionCount)
  }

  /** `list(map(int, tokens))`: every token converted in order; the first
      token `int()` refuses is the one reported. */
  function ParseTokens(ts: seq<string>): (r: Result<seq<int>, LineError>)
    ensures r.Success? <==> forall k :: 0 <= k < |ts| ==> ParseInt(ts[k]).Some?
    ensures r.Success? ==> |r.value| == |ts| && forall k :: 0 <= k < |ts| ==> ParseInt(ts[k]) == Some(r.value[k])
    ensures r.Failure? ==> exists k :: 0 <= k < |ts| && r.error == NotAnInteger(ts[k]) && ParseInt(ts[k]).None?
                                                       && forall j :: 0 <= j < k ==> ParseInt(ts[j]).Some?
  {
    if |ts| == 0 then Success([])
    else
      match ParseInt(ts[0])
      case None => Failure(NotAnInteger(ts[0]))
      case Some(v) =>
        match ParseTokens(ts[1..])
        case Failure(e) =>
          assert forall k :: 1 <= k < |ts| ==> ts[1..][k - 1] == ts[k];
          Failure(e)
        case Success(vs) => Success([v] + vs)
  }

  /** The body of the loop in `process_file_redis`, from the stripped line
      to the reshaped matrix. */
  function ParseLine(line: string): (r: Result<Matrix, LineError>)
    ensures r.Success? ==> r.value.Valid()
    ensures Count(Strip(line), ':') != 1 <==> r == Failure(ColonCount)
  {
    var parts := SplitOn(Strip(line), ':');
    if |parts| != 2 then Failure(ColonCount)
    else
      match ParseDims(SplitOn(parts[0], 'x'))
      case Failure(e) => Failure(e)
      case Success((rows, cols)) => ParseValues(rows, cols, parts[1])
  }

  /** The value part, once the dimensions are known: convert the tokens,
      check their count, reshape. */
  function ParseValues(rows: int, cols: int, body: string): (r: Result<Matrix, LineError>)
    ensures var ts := SplitWhitespace(body);
      r.Success? <==> AllIntegers(ts) && |ts| == rows * cols && rows >= 0 && cols >= 0
    ensures r.Success? ==>
      && r.value.rows == rows && r.value.cols == cols && r.value.Valid()
      && TokensDenote(SplitWhitespace(body), r.value.data)
    ensures !AllIntegers(SplitWhitespace(body)) ==> r.Failure? && r.error.NotAnInteger?
    ensures var ts := SplitWhitespace(body);
      AllIntegers(ts) && |ts| != rows * cols ==> r == Failure(CountMismatch(rows, cols, |ts|))
    ensures var ts := SplitWhitespace(body);
      AllIntegers(ts) && |ts| == rows * cols && (rows < 0 || cols < 0) ==> r == Failure(NegativeShape(rows, cols))
  {
    match ParseTokens(SplitWhitespace(body))
    case Failure(e) => Failure(e)
    case Success(data) =>
      if |data| != rows * cols then Failure(CountMismatch(rows, cols, |data|))
      else if rows < 0 || cols < 0 then Failure(NegativeShape(rows, cols))
      else Success(Matrix(rows, cols, data))
  }

  /** `reshape(rows, cols)` lays the values out row by row: element
      `(i, j)` of a parsed matrix is the value of token `i * cols + j`. */
  lemma ParsedElement(rows: int, cols: int, body: string, i: nat, j: nat)
    requires ParseValues(rows, cols, body).Success?
    requires i < rows && j < cols
    ensures var m, ts := ParseValues(rows, cols, body).value, SplitWhitespace(body);
      i * cols + j < |ts| && ParseInt(ts[i * cols + j]) == Some(m.At(i, j))
  {
    var m := ParseValues(rows, cols, body).value;
    RowMajorIndex(i, j, m.rows, m.cols);
  }

  /** Whether `int()` accepts every token. */
  predicate AllIntegers(ts: seq<string>) {
    forall k :: 0 <= k < |ts| ==> ParseInt(ts[k]).Some?
  }

  /** Whether token `k` reads as value `k`, for every `k`. */
  predicate TokensDenote(ts: seq<string>, d: seq<int>) {
    |ts| == |d| && forall k :: 0 <= k < |ts| ==> ParseInt(ts[k]) == Some(d[k])
  }

  /* ------------------------------------------------------------ shape text */

  /** The shape value written next to the data: `f"{rows}x{cols}"`. */
  function ShapeString(m: Matrix): (r: string)
    ensures SplitOn(r, 'x') == [NatToString(m.rows), NatToString(m.cols)]
  {
    var a, b := NatToString(m.rows), NatToString(m.cols);
    NoSeparatorInDigits(m.rows);
    NoSeparatorInDigits(m.cols);
    SplitOnPrefix(a, 'x', b);
    SplitOnFree(b, 'x');
    a + "x" + b
  }

  /** Reads a shape string back with the dimension rule of the parser. */
  function ParseShape(s: string): Result<(int, int), LineError> {
    ParseDims(SplitOn(s, 'x'))
  }

  /** The shape string written for a matrix reads back as its dimensions. */
  lemma {:induction false} ShapeRoundTrip(m: Matrix)
    ensures ParseShape(ShapeString(m)) == Success((m.rows as int, m.cols as int))
  {
    var a, b := NatToString(m.rows), NatToString(m.cols);
    NoSeparatorInDigits(m.rows);
    NoSeparatorInDigits(m.cols);
    SplitOnPrefix(a, 'x', b);
    SplitOnFree(b, 'x');
    ParseNatToString(m.rows);
    ParseNatToString(m.cols);
  }

  /** A decimal holds neither separator of the line format. */
  lemma {:induction false} NoSeparatorInDigits(n: nat)
    ensures 'x' !in NatToString(n) && ':' !in NatToString(n)
  {
    var s := NatToString(n);
    assert forall c :: c in s ==> IsDigit(c) by {
      forall c | c in s ensures IsDigit(c) {
        var k :| 0 <= k < |s| && s[k] == c;
      }
    }
  }

  /* ------------------------------------------------------------ the format */

  /** The values of a matrix as the decimal tokens `str` writes. */
  function IntTokens(d: seq<int>): (ts: seq<string>)
    ensures |ts| == |d|
    ensures forall k :: 0 <= k < |ts| ==> |ts[k]| > 0 && NoSpace(ts[k])
  {
    seq(|d|, k requires 0 <= k < |d| => IntToString(d[k]))
  }

  /** A matrix written as one line of a matrix source file, single spaces
      between values. */
  function FormatLine(m: Matrix): string {
    ShapeString(m) + ":" + JoinSpaces(IntTokens(m.data))
  }

  /** The line format as a grammar: after stripping, a dimension part
      `a x b` (no further `x`), one `:`, and a value part whose
      whitespace-separated tokens read as the values. */
  ghost predicate Denotes(line: string, m: Matrix) {
    exists a: string, b: string, body: string ::
      && Strip(line) == a + "x" + b + ":" + body
      && Separated(a, b, body)
      && ParseInt(a) == Some(m.rows as int)
      && ParseInt(b) == Some(m.cols as int)
      && TokensDenote(SplitWhitespace(body), m.data)
  }

  /** Neither separator is in the dimension tokens; no `:` in the values. */
  predicate Separated(a: string, b: string, body: string) {
    ':' !in a && ':' !in b && ':' !in body && 'x' !in a && 'x' !in b
  }

  /** How a line whose separators are where the format puts them splits. */
  lemma {:induction false} LineParts(line: string, a: string, b: string, body: string)
    requires Strip(line) == a + "x" + b + ":" + body
    requires Separated(a, b, body)
    ensures SplitOn(Strip(line), ':') == [a + "x" + b, body]
    ensures SplitOn(a + "x" + b, 'x') == [a, b]
  {
    SplitOnPrefix(a + "x" + b, ':', body);
    SplitOnFree(body, ':');
    SplitOnPrefix(a, 'x', b);
    SplitOnFree(b, 'x');
  }

  /** A line with its separators where the format puts them is judged by
      its two dimension tokens and then by its value part. */
  lemma {:induction false} ParseLineSplits(line: string, a: string, b: string, body: string)
    requires Strip(line) == a + "x" + b + ":" + body
    requires Separated(a, b, body)
    ensures ParseLine(line) == match ParseDims([a, b])
      case Failure(e) => Failure(e)
      case Success((rows, cols)) => ParseValues(rows, cols, body)
  {
    LineParts(line, a, b, body);
  }

  /** A line with one `:` whose dimension part does not hold exactly one
      `x` is rejected, as an unpacking error or as a token `int()` refuses. */
  lemma {:induction false} RejectsDimensionCount(line: string, dims: string, body: string)
    requires Strip(line) == dims + ":" + body
    requires ':' !in dims && ':' !in body
    requires Count(dims, 'x') != 1
    ensures ParseLine(line).Failure?
    ensures ParseLine(line).error == DimensionCount || ParseLine(line).error.NotAnInteger?
  {
    SplitOnPrefix(dims, ':', body);
    SplitOnFree(body, ':');
  }

  /** The parser accepts a line exactly when the line follows the grammar
      and describes a matrix whose value count is `rows * cols`. */
  lemma {:induction false} ParseLineIff(line: string, m: Matrix)
    ensures ParseLine(line) == Success(m) <==> m.Valid() && Denotes(line, m)
  {
    if ParseLine(line) == Success(m) {
      var t := Strip(line);
      var parts := SplitOn(t, ':');
      JoinSplitOn(t, ':');
      assert t == parts[0] + ":" + parts[1];
      var ds := SplitOn(parts[0], 'x');
      JoinSplitOn(parts[0], 'x');
      assert parts[0] == ds[0] + "x" + ds[1];
      assert Separated(ds[0], ds[1], parts[1]);
      ParseLineSplits(line, ds[0], ds[1], parts[1]);
      assert Strip(line) == ds[0] + "x" + ds[1] + ":" + parts[1];
    }
    if m.Valid() && Denotes(line, m) {
      var a: string, b: string, body: string :|
        && Strip(line) == a + "x" + b + ":" + body
        && Separated(a, b, body)
        && ParseInt(a) == Some(m.rows as int)
        && ParseInt(b) == Some(m.cols as int)
        && TokensDenote(SplitWhitespace(body), m.data);
      ParseLineSplits(line, a, b, body);
      var ts := SplitWhitespace(body);
      assert AllIntegers(ts);
      var r := ParseValues(m.rows, m.cols, body);
      assert r.Success?;
      assert r.value.data == m.data;
    }
  }

  /** A matrix written in the file format, with any surrounding whitespace
      (the newline `readlines` keeps, say), parses back to itself. */
  lemma {:induction false} ParseFormattedLine(m: Matrix, pre: string, post: string)
    requires m.Valid()
    requires AllSpace(pre) && AllSpace(post)
    ensures ParseLine(pre + FormatLine(m) + post) == Success(m)
  {
    var a, b := NatToString(m.rows), NatToString(m.cols);
    var body := JoinSpaces(IntTokens(m.data));
    FormattedLineParts(m, pre, post);
    ParseNatToString(m.rows);
    ParseNatToString(m.cols);
    FormattedValues(m);
    ParseLineSplits(pre + FormatLine(m) + post, a, b, body);
  }

  /** Where the separators of a formatted line are. */
  lemma {:induction false} FormattedLineParts(m: Matrix, pre: string, post: string)
    requires AllSpace(pre) && AllSpace(post)
    ensures var body := JoinSpaces(IntTokens(m.data));
      && Strip(pre + FormatLine(m) + post) == NatToString(m.rows) + "x" + NatToString(m.cols) + ":" + body
      && Separated(NatToString(m.rows), NatToString(m.cols), body)
  {
    var a, b := NatToString(m.rows), NatToString(m.cols);
    var ts := IntTokens(m.data);
    var body := JoinSpaces(ts);
    var t := FormatLine(m);
    assert t == a + "x" + b + ":" + body;
    JoinSpacesLast(ts);
    if |body| > 0 {
      assert t[|t| - 1] == body[|body| - 1];
    }
    assert t[0] == a[0];
    StripPadded(pre, t, post);
    NoSeparatorInDigits(m.rows);
    NoSeparatorInDigits(m.cols);
    forall k | 0 <= k < |ts| ensures ':' !in ts[k] {
      assert ts[k] == IntToString(m.data[k]);
    }
    JoinSpacesExcludes(ts, ':');
  }

  /** The value part of a formatted line reads back as the matrix. */
  lemma {:induction false} FormattedValues(m: Matrix)
    requires m.Valid()
    ensures ParseValues(m.rows, m.cols, JoinSpaces(IntTokens(m.data))) == Success(m)
  {
    var ts := IntTokens(m.data);
    SplitWhitespaceJoin(ts);
    forall k | 0 <= k < |ts| ensures ParseInt(ts[k]) == Some(m.data[k]) {
      assert ts[k] == IntToString(m.data[k]);
      ParseIntToString(m.data[k]);
    }
    assert AllIntegers(ts);
    var r := ParseValues(m.rows, m.cols, JoinSpaces(ts));
    assert r.Success?;
    assert |r.value.data| == |m.data|;
    assert forall k :: 0 <= k < |ts| ==> Some(r.value.data[k]) == Some(m.data[k]);
    assert r.value.data == m.data;
  }
}
