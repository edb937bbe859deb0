/** Decimal integers as Python reads them with `int(s)` and writes them with
    `str(n)` (and with `{n}` inside an f-string). */
module Decimal {
  import opened Wrappers
  import opened Text

  predicate IsDigit(c: char) {
    '0' <= c <= '9'
  }

  function DigitValue(c: char): (d: nat)
    requires IsDigit(c)
    ensures d < 10
  {
    (c as int) - ('0' as int)
  }

  function DigitChar(d: nat): (c: char)
    requires d < 10
    ensures IsDigit(c) && DigitValue(c) == d
  {
    (('0' as int) + d) as char
  }

  /** The digit part of a base-10 literal as `int()` accepts it: ASCII digits,
      where a single underscore may stand between two digits (PEP 515). */
  predicate IsDigitRun(b: string) {
    && |b| > 0
    && IsDigit(b[0])
    && forall k :: 0 <= k < |b| ==> RunCharOk(b, k)
  }

  /** Position `k` of a digit run holds a digit, or an underscore followed by
      a digit. */
  predicate RunCharOk(b: string, k: nat)
    requires k < |b|
  {
    IsDigit(b[k]) || (b[k] == '_' && k + 1 < |b| && IsDigit(b[k + 1]))
  }

  /** The value of a digit run read most significant digit first; the
      underscores carry no value. */
  function DigitsValue(b: string): nat {
    if |b| == 0 then 0
    else if IsDigit(b[|b| - 1]) then 10 * DigitsValue(b[..|b| - 1]) + DigitValue(b[|b| - 1])
    else DigitsValue(b[..|b| - 1])
  }

  /** The whitespace `int()` skips around a literal: the C library's
      `isspace` set, tab through carriage return (9..13) and the space. It is
      narrower than `Text.IsSpace`, which `strip()` and `split()` use: the
      separators 28..31 are not skipped here. */
  predicate IsIntSpace(c: char) {
    ('\t' <= c <= '\r') || c == ' '
  }

  predicate AllIntSpace(s: string) {
    forall k :: 0 <= k < |s| ==> IsIntSpace(s[k])
  }

  /** `s` without the `int()` whitespace at either end. */
  function TrimIntSpace(s: string): string
    decreases |s|
  {
    if |s| > 0 && IsIntSpace(s[0]) then TrimIntSpace(s[1..])
    else if |s| > 0 && IsIntSpace(s[|s| - 1]) then TrimIntSpace(s[..|s| - 1])
    else s
  }

  /** Python's `int(s)` in base 10: whitespace around the literal is
      ignored, an optional sign precedes the digit run; anything else is a
      `ValueError`, here `None`. Only digits, underscores, signs and the
      whitespace of `IsIntSpace` can occur in a string `int()` accepts. */
  function ParseInt(s: string): (r: Option<int>)
    ensures r.Some? ==> forall k :: 0 <= k < |s| ==> LiteralChar(s[k])
  {
    var t := TrimIntSpace(s);
    TrimIntSpaceKeeps(s);
    if |t| > 0 && (t[0] == '-' || t[0] == '+') then
      var m: int := DigitsValue(t[1..]);
      if IsDigitRun(t[1..]) then
        assert forall k :: 0 <= k < |t| ==> LiteralChar(t[k]) by {
          forall k | 0 <= k < |t| ensures LiteralChar(t[k]) {
            if k > 0 {
              assert RunCharOk(t[1..], k - 1);
            }
          }
        }
        Some(if t[0] == '-' then -m else m)
      else None
    else if IsDigitRun(t) then
      assert forall k :: 0 <= k < |t| ==> LiteralChar(t[k]) by {
        forall k | 0 <= k < |t| ensures LiteralChar(t[k]) {
          assert RunCharOk(t, k);
        }
      }
      Some(DigitsValue(t))
    else None
  }

  /** A character that may occur in a string `int()` accepts. */
  predicate LiteralChar(c: char) {
    IsIntSpace(c) || IsDigit(c) || c == '_' || c == '+' || c == '-'
  }

  /** Trimming removes only `int()` whitespace: every other character of
      `s` is still in the result. */
  lemma {:induction false} TrimIntSpaceKeeps(s: string)
    ensures forall k :: 0 <= k < |s| ==> IsIntSpace(s[k]) || s[k] in TrimIntSpace(s)
    decreases |s|
  {
    if |s| > 0 && IsIntSpace(s[0]) {
      TrimIntSpaceKeeps(s[1..]);
      forall k | 0 < k < |s| ensures s[k] == s[1..][k - 1] {}
    } else if |s| > 0 && IsIntSpace(s[|s| - 1]) {
      TrimIntSpaceKeeps(s[..|s| - 1]);
      forall k | 0 <= k < |s| - 1 ensures s[k] == s[..|s| - 1][k] {}
    }
  }

  /** `int()` ignores exactly the whitespace around a literal: padding a
      string whose ends are not `int()` whitespace changes nothing. */
  lemma {:induction false} TrimIntSpacePadded(pre: string, t: string, post: string)
    requires AllIntSpace(pre) && AllIntSpace(post)
    requires |t| > 0 ==> !IsIntSpace(t[0]) && !IsIntSpace(t[|t| - 1])
    ensures TrimIntSpace(pre + t + post) == t
    decreases |pre| + |post|
  {
    var s := pre + t + post;
    if |pre| > 0 {
      assert s[0] == pre[0];
      assert s[1..] == pre[1..] + t + post;
      TrimIntSpacePadded(pre[1..], t, post);
    } else if |post| > 0 {
      if |t| == 0 {
        assert s == post && s[1..] == "" + t + post[1..];
        TrimIntSpacePadded("", t, post[1..]);
      } else {
        assert s[0] == t[0] && s[|s| - 1] == post[|post| - 1];
        assert s[..|s| - 1] == pre + t + post[..|post| - 1];
        TrimIntSpacePadded(pre, t, post[..|post| - 1]);
      }
    } else {
      assert s == t;
    }
  }

  /** `int()` tolerates any padding of its own whitespace around a string
      whose ends are not whitespace. */
  lemma ParseIntPadded(pre: string, t: string, post: string)
    requires AllIntSpace(pre) && AllIntSpace(post)
    requires |t| > 0 ==> !IsIntSpace(t[0]) && !IsIntSpace(t[|t| - 1])
    ensures ParseInt(pre + t + post) == ParseInt(t)
  {
    TrimIntSpacePadded(pre, t, post);
    TrimIntSpacePadded("", t, "");
    assert "" + t + "" == t;
  }

  /** The value of a digit run after an optional sign. */
  function Signed(sg: string, m: nat): int {
    if sg == "-" then -(m as int) else m
  }

  /** `s` is a literal `int()` accepts with value `v`, cut into its parts:
      whitespace, an empty or one-character sign, a digit run, whitespace. */
  predicate IntLiteral(s: string, v: int, pre: string, sg: string, d: string, post: string) {
    && AllIntSpace(pre) && AllIntSpace(post)
    && (sg == "" || sg == "+" || sg == "-")
    && IsDigitRun(d)
    && s == pre + sg + d + post
    && v == Signed(sg, DigitsValue(d))
  }

  /** The grammar of base-10 `int()`: it accepts `s` with value `v` exactly
      when `s` is optional whitespace, an optional sign, a digit run with
      single underscores between digits, and optional whitespace. */
  lemma ParseIntGrammar(s: string, v: int)
    ensures ParseInt(s) == Some(v) <==> exists pre, sg, d, post :: IntLiteral(s, v, pre, sg, d, post)
  {
    if ParseInt(s) == Some(v) {
      var pre, sg, d, post := ParseIntParts(s);
      assert IntLiteral(s, v, pre, sg, d, post);
    }
    if exists pre, sg, d, post :: IntLiteral(s, v, pre, sg, d, post) {
      var pre, sg, d, post :| IntLiteral(s, v, pre, sg, d, post);
      ParseIntOfParts(pre, sg, d, post);
    }
  }

  /** Every accepted string is a literal of the grammar. */
  lemma ParseIntParts(s: string) returns (pre: string, sg: string, d: string, post: string)
    requires ParseInt(s).Some?
    ensures IntLiteral(s, ParseInt(s).value, pre, sg, d, post)
  {
    var t := TrimIntSpace(s);
    pre, post := TrimIntSpaceSplit(s);
    if |t| > 0 && (t[0] == '-' || t[0] == '+') {
      sg, d := t[..1], t[1..];
    } else {
      sg, d := "", t;
    }
    assert t == sg + d;
    assert s == pre + sg + d + post;
  }

  /** Every literal of the grammar is accepted, with its value. */
  lemma ParseIntOfParts(pre: string, sg: string, d: string, post: string)
    requires AllIntSpace(pre) && AllIntSpace(post)
    requires sg == "" || sg == "+" || sg == "-"
    requires IsDigitRun(d)
    ensures ParseInt(pre + sg + d + post) == Some(Signed(sg, DigitsValue(d)))
  {
    var t := sg + d;
    assert RunCharOk(d, |d| - 1);
    assert t[|t| - 1] == d[|d| - 1];
    assert t[0] == if sg == "" then d[0] else sg[0];
    assert pre + sg + d + post == pre + t + post;
    ParseIntPadded(pre, t, post);
    ParseIntUnpadded(sg, d);
  }

  lemma ParseIntUnpadded(sg: string, d: string)
    requires sg == "" || sg == "+" || sg == "-"
    requires IsDigitRun(d)
    ensures ParseInt(sg + d) == Some(Signed(sg, DigitsValue(d)))
  {
    assert RunCharOk(d, |d| - 1);
    if sg == "" {
      assert sg + d == d;
      TrimIntSpacePadded("", d, "");
      assert "" + d + "" == d;
    } else {
      ParseIntSigned(sg, d);
    }
  }

  lemma ParseIntSigned(sg: string, d: string)
    requires sg == "+" || sg == "-"
    requires IsDigitRun(d) && IsDigit(d[|d| - 1])
    ensures ParseInt(sg + d) == Some(Signed(sg, DigitsValue(d)))
  {
    var t := sg + d;
    assert t[0] == sg[0] && t[1..] == d;
    assert t[|t| - 1] == d[|d| - 1];
    TrimIntSpacePadded("", t, "");
    assert "" + t + "" == t;
    assert TrimIntSpace(t) == t;
  }

  /** `s` is its `int()` whitespace, the trimmed part, and more whitespace. */
  lemma {:induction false} TrimIntSpaceSplit(s: string) returns (pre: string, post: string)
    ensures AllIntSpace(pre) && AllIntSpace(post) && s == pre + TrimIntSpace(s) + post
    decreases |s|
  {
    if |s| > 0 && IsIntSpace(s[0]) {
      var p, q := TrimIntSpaceSplit(s[1..]);
      pre, post := [s[0]] + p, q;
      assert s == [s[0]] + s[1..];
    } else if |s| > 0 && IsIntSpace(s[|s| - 1]) {
      var p, q := TrimIntSpaceSplit(s[..|s| - 1]);
      pre, post := p, q + [s[|s| - 1]];
      assert s == s[..|s| - 1] + [s[|s| - 1]];
    } else {
      pre, post := "", "";
    }
  }

  /** The digits of `b` without its underscores. */
  function DigitsOnly(b: string): (r: string)
    ensures forall k :: 0 <= k < |r| ==> IsDigit(r[k])
    decreases |b|
  {
    if |b| == 0 then ""
    else if IsDigit(b[|b| - 1]) then DigitsOnly(b[..|b| - 1]) + [b[|b| - 1]]
    else DigitsOnly(b[..|b| - 1])
  }

  /** Underscores in a literal add nothing to its value. */
  lemma {:induction false} DigitsValueIgnoresUnderscores(b: string)
    ensures DigitsValue(DigitsOnly(b)) == DigitsValue(b)
    decreases |b|
  {
    if |b| > 0 {
      var init := b[..|b| - 1];
      DigitsValueIgnoresUnderscores(init);
      if IsDigit(b[|b| - 1]) {
        var r := DigitsOnly(b);
        assert r[..|r| - 1] == DigitsOnly(init);
      }
    }
  }

  /** Leading zeros add nothing to the value of a literal. */
  lemma {:induction false} DigitsValueLeadingZeros(z: string, b: string)
    requires forall k :: 0 <= k < |z| ==> z[k] == '0'
    ensures DigitsValue(z + b) == DigitsValue(b)
    decreases |b|
  {
    if |b| == 0 {
      assert z + b == z;
      ZerosValue(z);
    } else {
      assert (z + b)[..|z + b| - 1] == z + b[..|b| - 1];
      DigitsValueLeadingZeros(z, b[..|b| - 1]);
    }
  }

  lemma {:induction false} ZerosValue(z: string)
    requires forall k :: 0 <= k < |z| ==> z[k] == '0'
    ensures DigitsValue(z) == 0
    decreases |z|
  {
    if |z| > 0 {
      ZerosValue(z[..|z| - 1]);
    }
  }

  /** `int("1_000") == 1000`: the underscore only groups digits. */
  lemma ExampleIntGrouped()
    ensures ParseInt("1_000") == Some(1000)
  {
    assert "" + "" + "1_000" + "" == "1_000";
    assert RunCharOk("1_000", 1);
    ParseIntOfParts("", "", "1_000", "");
    assert "1_"[..1] == "1";
    assert "1_0"[..2] == "1_";
    assert "1_00"[..3] == "1_0";
    assert "1_000"[..4] == "1_00";
  }

  /** `int("007") == 7`: leading zeros are accepted in `int()`. */
  lemma ExampleIntLeadingZeros()
    ensures ParseInt("007") == Some(7)
  {
    assert "" + "" + "007" + "" == "007";
    ParseIntOfParts("", "", "007", "");
    assert "007"[..2] == "00" && "00"[..1] == "0";
  }

  /** `int(" +5\t") == 5`: whitespace around a signed literal. */
  lemma ExampleIntPaddedSign()
    ensures ParseInt(" +5\t") == Some(5)
  {
    assert " " + "+" + "5" + "\t" == " +5\t";
    ParseIntOfParts(" ", "+", "5", "\t");
  }

  /** Python's `ValueError` cases: `"1 2"`, `"1_"`, `"1__0"`, `"_1"`,
      `"--5"`, `"+"` and `""`. */
  lemma ExampleIntRefused()
    ensures ParseInt("1 2") == None && ParseInt("1_") == None && ParseInt("1__0") == None
    ensures ParseInt("_1") == None && ParseInt("--5") == None
    ensures ParseInt("+") == None && ParseInt("") == None
  {
    assert !RunCharOk("1 2", 1);
    assert !RunCharOk("1_", 1);
    assert !RunCharOk("1__0", 1);
    assert !RunCharOk("-5", 0);
  }

  /** A file separator (code point 28) next to a dimension is not skipped
      by `int()`, although `strip()` and `split()` treat it as whitespace. */
  lemma IntRejectsFileSeparator()
    ensures ParseInt("2\U{1C}") == None
  {
    var s := "2\U{1C}";
    assert !LiteralChar(s[1]);
  }

  /** Python's `str(n)` for a non-negative integer: canonical decimal, with
      no sign and no leading zero. */
  function NatToString(n: nat): (r: string)
    ensures |r| > 0
    ensures forall k :: 0 <= k < |r| ==> IsDigit(r[k])
    ensures |r| > 1 ==> r[0] != '0'
    ensures n < 10 <==> |r| == 1
  {
    if n < 10 then [DigitChar(n)] else NatToString(n / 10) + [DigitChar(n % 10)]
  }

  /** Python's `str(v)` for any integer. */
  function IntToString(v: int): (r: string)
    ensures |r| > 0 && NoSpace(r)
    ensures forall k :: 0 <= k < |r| ==> IsDigit(r[k]) || (k == 0 && r[k] == '-')
  {
    if v < 0 then "-" + NatToString(-v) else NatToString(v)
  }

  /** Reading back the digits `str(n)` writes gives `n`. */
  lemma {:induction false} DigitsValueOfNat(n: nat)
    ensures DigitsValue(NatToString(n)) == n
    decreases n
  {
    if n >= 10 {
      var r := NatToString(n);
      assert r[..|r| - 1] == NatToString(n / 10);
      DigitsValueOfNat(n / 10);
    }
  }

  /** `int(str(n)) == n` for non-negative `n`. */
  lemma {:induction false} ParseNatToString(n: nat)
    ensures ParseInt(NatToString(n)) == Some(n)
  {
    var r := NatToString(n);
    TrimIntSpacePadded("", r, "");
    assert "" + r + "" == r;
    DigitsRunOfNat(n);
    DigitsValueOfNat(n);
  }

  lemma DigitsRunOfNat(n: nat)
    ensures IsDigitRun(NatToString(n))
  {
  }

  /** `int(str(v)) == v` for every integer `v`. */
  lemma {:induction false} ParseIntToString(v: int)
    ensures ParseInt(IntToString(v)) == Some(v)
  {
    if v < 0 {
      ParseNegatedNat(-v);
    } else {
      ParseNatToString(v);
    }
  }

  /** `int("-" + str(n)) == -n`. */
  lemma ParseNegatedNat(n: nat)
    ensures ParseInt("-" + NatToString(n)) == Some(-(n as int))
  {
    var d := NatToString(n);
    DigitsRunOfNat(n);
    DigitsValueOfNat(n);
    ParseNegative(d, n);
  }

  lemma ParseNegative(d: string, n: nat)
    requires IsDigitRun(d) && DigitsValue(d) == n
    ensures ParseInt("-" + d) == Some(-(n as int))
  {
    var r := "-" + d;
    assert r[1..] == d;
    assert RunCharOk(d, |d| - 1);
    assert r[|r| - 1] == d[|d| - 1];
    TrimIntSpacePadded("", r, "");
    assert "" + r + "" == r;
  }

  /** `str` is injective on non-negative integers. */
  lemma NatToStringInjective(m: nat, n: nat)
    requires NatToString(m) == NatToString(n)
    ensures m == n
  {
    ParseNatToString(m);
    ParseNatToString(n);
  }
}
