# Matrix text files into a key-value cache — a Dafny model

`mat-redis-cache-parallel.py` reads text files of matrices, one matrix per
line in the form `"<rows>x<cols>:<v1> <v2> ... <vn>"`, and caches every
matrix it can parse in Redis. The matrix data goes under `<path>_<i>` and the
shape string `"<rows>x<cols>"` goes under `<path>_<i>_shape`, where `i`
counts the parsed matrices of the file from 0. This project models the
single-file routine `process_file_redis` as pure functions and proves what it
guarantees:

- which lines it accepts, and why it rejects the others;
- that the result is the in-order subsequence of parsed lines;
- the layout of its cache writes;
- that the cache keys are injective;
- that the shape string reads back;
- what the cache holds afterwards.

Modules, one file each:

- `wrappers.dfy` — `Option` and `Result`. Python's `ValueError` becomes a
  `Failure` value.
- `text.dfy` — Python's `str.strip()`, `str.split(sep)` and `str.split()`.
  Whitespace is `str.isspace()` on ASCII: code points 9–13 and 28–32.
- `decimal.dfy` — Python's `int(s)` in base 10 and `str(n)`. `int(s)`
  accepts an optional sign and single underscores between digits. It skips
  surrounding whitespace, but only code points 9–13 and 32. That set is
  narrower than the one `strip()` and `split()` use: a dimension followed
  by code point 28 survives `strip()` and is then refused by `int()`.
- `line_parser.dfy` — one line to a `Matrix(rows, cols, data)` with `data`
  in row-major order, or a `LineError` that says why the line was skipped.
  Also the shape string and the line format as a grammar.
- `file_processor.dfy` — the line loop, the write loop, and
  `ProcessFile(path, contents)`. Its result holds the returned matrices, the
  sequence of `SET` writes issued, and the diagnostics printed.
- `cache_keys.dfy` — the two key constructions and their injectivity.
- `cache_store.dfy` — the store as a map and the writes applied in order.
  Covers reading a matrix back, idempotence of a rerun, and independence of
  the order in which two files are stored.

Points of the code that the line format alone does not show:

- Python's unpacking makes the format stricter than it looks. A line must
  contain exactly one `:` after stripping: unpacking `split(':')` into two
  names fails for any other count, so the line is not split at the first
  colon.
- The same holds for exactly one `x` in the dimension part.
- Negative dimensions are not refused by a type. With a negative dimension,
  either the count check fails or numpy's `reshape` raises `ValueError`.
  The model reports the second case as `NegativeShape`.
- A failing cache write is not caught by the routine. The model has no
  failing writes (see below).

## Model

| member | source | states |
|---|---|---|
| Text.StripPadded | mat-redis-cache-parallel.py:20 | `strip()` removes exactly the surrounding whitespace: any whitespace padding around a string with non-whitespace ends strips back to that string |
| Text.StripSpec | mat-redis-cache-parallel.py:20 | `strip()` keeps a contiguous middle part of the line whose first and last characters are not whitespace, and removes only whitespace before and after it |
| Text.SplitOn | mat-redis-cache-parallel.py:20-21 | `split(sep)` gives one more piece than there are separators, and no piece contains the separator |
| Text.JoinSplitOn | mat-redis-cache-parallel.py:20-21 | splitting at a separator loses nothing: joining the pieces with it gives the original string |
| Text.SplitOnJoin | mat-redis-cache-parallel.py:20-21 | splitting undoes joining for separator-free pieces |
| Text.SplitWhitespaceJoin | mat-redis-cache-parallel.py:22 | `split()` undoes joining non-empty whitespace-free tokens with spaces |
| Text.Strip | mat-redis-cache-parallel.py:20 | the stripped line is no longer than the line, and neither of its ends is whitespace |
| Text.SplitWhitespace | mat-redis-cache-parallel.py:22 | `split()` yields only non-empty tokens that contain no whitespace |
| Text.SplitWhitespaceLossless | mat-redis-cache-parallel.py:22 | `split()` drops only whitespace: the string is its tokens in order, with whitespace gaps around them and a non-empty gap between each two |
| Text.SplitWhitespaceInterleave | mat-redis-cache-parallel.py:22 | non-empty whitespace-free tokens separated by whitespace of any kind and length, with any whitespace around them, are exactly what `split()` returns |
| Decimal.ParseInt | mat-redis-cache-parallel.py:21-22 | a string `int()` accepts holds only digits, underscores, signs and `int()` whitespace |
| Decimal.ParseIntGrammar | mat-redis-cache-parallel.py:21-22 | `int()` accepts `s` with value `v` if and only if `s` is optional whitespace (9–13, 32), an optional `+` or `-`, a digit run with single underscores between digits, and optional whitespace, and `v` is the run's value, negated after `-` |
| Decimal.ParseIntParts | mat-redis-cache-parallel.py:21-22 | every string `int()` accepts splits into whitespace, sign, digit run and whitespace, and its value is the signed value of the run |
| Decimal.ParseIntOfParts | mat-redis-cache-parallel.py:21-22 | every such string is accepted, with the signed value of its digit run |
| Decimal.DigitsValueIgnoresUnderscores | mat-redis-cache-parallel.py:21-22 | underscores in a literal add nothing: the value is that of its digits alone |
| Decimal.DigitsValueLeadingZeros | mat-redis-cache-parallel.py:21-22 | leading zeros add nothing to a literal's value |
| Decimal.ExampleIntGrouped | mat-redis-cache-parallel.py:21-22 | `int("1_000") == 1000` |
| Decimal.ExampleIntLeadingZeros | mat-redis-cache-parallel.py:21-22 | `int("007") == 7` |
| Decimal.ExampleIntPaddedSign | mat-redis-cache-parallel.py:21-22 | `int(" +5\t") == 5` |
| Decimal.ExampleIntRefused | mat-redis-cache-parallel.py:21-22 | `int()` raises `ValueError` on `"1 2"`, `"1_"`, `"1__0"`, `"_1"`, `"--5"`, `"+"` and `""` |
| Decimal.ParseNegative | mat-redis-cache-parallel.py:21-22 | `-` followed by a digit run reads as the negated value of the run |
| Decimal.ParseIntPadded | mat-redis-cache-parallel.py:21-22 | `int()` ignores any padding of tab through carriage return and space around the literal |
| Decimal.IntRejectsFileSeparator | mat-redis-cache-parallel.py:21 | `int()` refuses a dimension followed by code point 28, which `strip()` would have removed |
| Decimal.NatToString | mat-redis-cache-parallel.py:36 | `str(n)` of a non-negative integer is a non-empty run of digits without a leading zero, one digit long exactly when `n < 10` |
| Decimal.IntToString | mat-redis-cache-parallel.py:39 | `str(v)` is non-empty, holds no whitespace, and is digits with at most a leading minus sign |
| Decimal.ParseIntToString | mat-redis-cache-parallel.py:21-22 | `int(str(v)) == v` for every integer `v` |
| Decimal.NatToStringInjective | mat-redis-cache-parallel.py:36 | the decimal written for an index determines the index |
| LineParser.ParseDims | mat-redis-cache-parallel.py:21 | the dimensions are accepted exactly when there are two pieces and `int()` accepts both; then they are those two integers; every failure is an unpacking or `int()` error |
| LineParser.ParseTokens | mat-redis-cache-parallel.py:22 | the values are accepted exactly when `int()` accepts every token; they are then the tokens' integers in order; otherwise the reported token is the first one `int()` refuses |
| LineParser.ParseValues | mat-redis-cache-parallel.py:22-25 | the value part gives a matrix exactly when every token is an integer, the count is `rows*cols`, and both dimensions are non-negative; a bad token, a wrong count and a negative dimension each give their own error |
| LineParser.ParseLine | mat-redis-cache-parallel.py:20-25 | a parsed matrix always has `rows*cols` values; a stripped line without exactly one `:` is rejected with `ColonCount`, and that error means exactly that |
| LineParser.RejectsDimensionCount | mat-redis-cache-parallel.py:21 | a dimension part without exactly one `x` rejects the line |
| LineParser.ParseLineIff | mat-redis-cache-parallel.py:18-26 | a line parses to matrix `m` if and only if, after stripping, it is `a x b : body` with no other separators, `int(a)` and `int(b)` are `m`'s dimensions, `body`'s whitespace-separated tokens read as `m`'s values, and the count is `rows*cols` |
| LineParser.ParseFormattedLine | mat-redis-cache-parallel.py:18-26 | a line `"<R>x<C>:<v1> ... <vn>"` written for a valid matrix, with any whitespace around it, parses back to that matrix |
| LineParser.ParsedElement | mat-redis-cache-parallel.py:22-25 | `reshape(rows, cols)` is row-major: element `(i, j)` of a parsed matrix is the value of token `i*cols + j` of the value part |
| LineParser.ShapeString | mat-redis-cache-parallel.py:39 | the shape string `f"{rows}x{cols}"` splits at `x` into exactly the two decimals of the dimensions |
| LineParser.ShapeRoundTrip | mat-redis-cache-parallel.py:39 | the shape string `f"{rows}x{cols}"` read with the dimension rule of line 21 gives back `(rows, cols)` |
| FileProcessor.ParseLines | mat-redis-cache-parallel.py:18-28 | every line gives either a matrix or a diagnostic, never both, and every collected matrix has `rows*cols` values |
| FileProcessor.ParseLinesAppend | mat-redis-cache-parallel.py:18-28 | the line loop is a fold: the results for `a + b` are those for `a` followed by those for `b` |
| FileProcessor.SkippedLineIsHarmless | mat-redis-cache-parallel.py:27-28 | a line that fails adds only its diagnostic; the lines after it are collected as if it were absent |
| FileProcessor.GatherInOrder | mat-redis-cache-parallel.py:18-26 | given the verdict on each line, the loop keeps as many matrices as there are successful verdicts, and the `k`-th kept matrix is the one of the `k`-th successful verdict |
| FileProcessor.CollectsParsedLinesInOrder | mat-redis-cache-parallel.py:18-26 | the `k`-th matrix is the parse of the `k`-th line that parses; those positions increase, and every line that parses is among them |
| FileProcessor.MatrixWrites | mat-redis-cache-parallel.py:36-39 | each matrix gives two writes to two different keys, its data first and its shape text second |
| FileProcessor.WriteLog | mat-redis-cache-parallel.py:35-39 | `2M` writes: at position `2i` the data of matrix `i` under `path_i`, at `2i+1` its shape string under `path_i_shape` |
| FileProcessor.WritesOnlyOwnKeys | mat-redis-cache-parallel.py:35-39 | every write goes to a data or shape key of an index below `M` |
| FileProcessor.WriteKeysDistinct | mat-redis-cache-parallel.py:36-39 | no key is written twice while one file is stored |
| FileProcessor.ProcessFile | mat-redis-cache-parallel.py:12-41 | an unopenable file gives no matrices, no writes and one diagnostic; otherwise matrices plus diagnostics number the lines; always two writes per matrix |
| FileProcessor.ExampleFile | mat-redis-cache-parallel.py:12-41 | `a.txt` holding `2x2:1 2 3 4` and `bad` gives one matrix, stored under `a.txt_0` with shape `2x2` under `a.txt_0_shape`, and one skipped line |
| CacheKeys.DataKey | mat-redis-cache-parallel.py:36 | a data key is the path, an underscore, and at least one more character; it ends in a digit |
| CacheKeys.DataKeyIndex | mat-redis-cache-parallel.py:36 | what follows the path and the underscore in a data key reads back, with `int()`, as the index |
| CacheKeys.ShapeKey | mat-redis-cache-parallel.py:39 | a shape key is the data key of the same matrix extended by six characters, and it does not end in a digit |
| CacheKeys.DataKeyIsNotShapeKey | mat-redis-cache-parallel.py:36-39 | a data key ends in a digit and a shape key ends in `e`, so none is the other |
| CacheKeys.DataKeyInjective | mat-redis-cache-parallel.py:36 | equal data keys come from the same path and the same index |
| CacheKeys.ShapeKeyInjective | mat-redis-cache-parallel.py:39 | equal shape keys come from the same path and the same index |
| CacheStore.ApplyGet | mat-redis-cache-parallel.py:38-39 | after a sequence of `SET`s, a key holds its last written value, or its old value if no write touched it |
| CacheStore.ApplyKeys | mat-redis-cache-parallel.py:38-39 | `SET` never removes a key: afterwards the store holds its old keys plus exactly the written ones |
| CacheStore.ApplyIdempotent | mat-redis-cache-parallel.py:38-39 | applying the same writes twice leaves the store as applying them once |
| CacheStore.StoreAfterFile | mat-redis-cache-parallel.py:35-39 | after a file's writes, each matrix's data and shape string are under its keys, and every other key is unchanged |
| CacheStore.ReloadAfterProcessing | mat-redis-cache-parallel.py:37-39 | the data and the shape string stored for matrix `i` rebuild exactly the `i`-th returned matrix |
| CacheStore.ReloadStored | mat-redis-cache-parallel.py:35-39 | after the writes for any sequence of well-formed matrices, reading index `i` back from the store gives the `i`-th matrix |
| CacheStore.RerunIsIdempotent | mat-redis-cache-parallel.py:12-41 | processing the same file twice leaves the store as processing it once |
| CacheStore.FilesCommute | mat-redis-cache-parallel.py:36-39 | two different paths write disjoint keys, so the store does not depend on which file is written first |
| CacheStore.InterleavedFiles | mat-redis-cache-parallel.py:35-39 | when the writes of two files with different paths are interleaved in any way that keeps each file's own order, the store is the same as after writing one file and then the other |
| CacheStore.LogsDisjoint | mat-redis-cache-parallel.py:36-39 | no key is written both by a file and by a file with a different path |
| CacheStore.KeysOfDistinctFiles | mat-redis-cache-parallel.py:36-39 | no data or shape key of one path is a data or shape key of another |

## Left out

- Opening and reading the file (lines 15-16). The file is a parameter: its
  lines as `readlines` returns them, or `None` when opening or reading
  fails. Every such failure is caught at lines 30-33 and yields no matrices,
  so they are all one case. Newline translation is not modelled.
- The catch-all at lines 32-33 when it fires inside the line loop (memory
  exhaustion and the like). It keeps the matrices parsed so far. Among the
  inputs the model can express, only oversized dimensions can raise there:
  an older numpy may raise `OverflowError` for them, and that is caught at
  lines 32-33 and ends the loop (see the next line).
- LineParser.ParseValues: a shape numpy cannot allocate is accepted, because
  integers and sizes are unbounded here. This includes a huge dimension
  beside a 0, as in `0x100000000000000000000:`. It also includes a shape
  whose byte size passes 2^63 while each dimension fits in 64 bits. There
  `reshape` raises instead: a `ValueError` in current numpy, which skips the
  line, or an `OverflowError` in older versions, which ends the loop.
- The Redis client and the network (lines 3, 8-10, 38-39). Each `r.set`
  is a `Write` in a sequence. The store is a map. A failing write is not
  modelled; in the source it raises out of the routine.
- `matrix.tobytes()` (line 37): numpy's dtype and native byte order. The
  data value is the abstract sequence of integers. Large integers that make
  numpy fall back to an object array are not modelled either.
- The text of the printed diagnostics (lines 28, 31, 33). They are kept as
  values (`LineSkipped` with the stripped line and the reason, or
  `FileUnreadable`).
- Python `int()` on Unicode digits, on non-ASCII whitespace (which it
  skips, unlike ASCII code points 28–31), and on strings past the
  interpreter's digit limit. The first two would require Unicode
  tables. The limit depends on the interpreter version.
- `strip()` and `split()` treat non-ASCII whitespace (such as U+00A0 and
  U+2028) as whitespace. The model does not.
- `main` (lines 43-69): the directory listing, the process pool of at most
  four workers, the 600-second timeout, the wall-clock timing and the report
  file. These are concurrency, operating-system and floating-point concerns.
  The only property of theirs that the key scheme decides is stated as
  `CacheStore.FilesCommute` and `CacheStore.InterleavedFiles`: the writes
  of files with different paths do not interfere, whether one file's
  writes come after the other's or the workers' writes interleave. Two
  workers given the same path are not covered.
- Redis stores keys as the UTF-8 bytes of the `str` keys. That encoding is
  injective, so the injectivity of keys over strings carries over.
