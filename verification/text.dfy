/** The Python `str` operations the line parser relies on: `strip()`,
    `split(sep)` and the whitespace form `split()`. Whitespace is Python's
    `str.isspace()` restricted to ASCII. */
module Text {

  /** Python's `str.isspace()` on ASCII: tab, line feed, vertical tab, form
      feed, carriage return (9..13), the four separators 28..31 and space. */
  predicate IsSpace(c: char) {
    ('\t' <= c <= '\r') || ('\U{1C}' <= c <= ' ')
  }

  predicate NoSpace(s: string) {
    forall k :: 0 <= k < |s| ==> !IsSpace(s[k])
  }

  predicate AllSpace(s: string) {
    forall k :: 0 <= k < |s| ==> IsSpace(s[k])
  }

  /* ---------------------------------------------------------------- strip() */

  function TrimStart(s: string): string {
    if |s| > 0 && IsSpace(s[0]) then TrimStart(s[1..]) else s
  }

  function TrimEnd(s: string): string {
    if |s| > 0 && IsSpace(s[|s| - 1]) then TrimEnd(s[..|s| - 1]) else s
  }

  /** Python's `str.strip()` with no argument. */
  function Strip(s: string): (r: string)
    ensures |r| <= |s|
    ensures |r| > 0 ==> !IsSpace(r[0]) && !IsSpace(r[|r| - 1])
  {
    TrimStartSpec(s);
    TrimEndSpec(TrimStart(s));
    TrimEnd(TrimStart(s))
  }

  /** `lstrip()` removes a whitespace prefix and stops at the first
      character that is not whitespace. */
  lemma {:induction false} TrimStartSpec(s: string)
    ensures var r := TrimStart(s);
      && |r| <= |s| && r == s[|s| - |r|..]
      && AllSpace(s[..|s| - |r|])
      && (|r| > 0 ==> !IsSpace(r[0]))
    decreases |s|
  {
    if |s| > 0 && IsSpace(s[0]) {
      TrimStartSpec(s[1..]);
      var r := TrimStart(s[1..]);
      assert s[1..][|s| - 1 - |r|..] == s[|s| - |r|..];
      forall k | 0 <= k < |s| - |r| ensures IsSpace(s[k]) {
        if k > 0 {
          assert s[k] == s[1..][..|s| - 1 - |r|][k - 1];
        }
      }
    }
  }

  /** `rstrip()` removes a whitespace suffix and stops at the last
      character that is not whitespace. */
  lemma {:induction false} TrimEndSpec(s: string)
    ensures var r := TrimEnd(s);
      && |r| <= |s| && r == s[..|r|]
      && AllSpace(s[|r|..])
      && (|r| > 0 ==> !IsSpace(r[|r| - 1]))
    decreases |s|
  {
    if |s| > 0 && IsSpace(s[|s| - 1]) {
      var u := s[..|s| - 1];
      TrimEndSpec(u);
      var r := TrimEnd(u);
      assert u[..|r|] == s[..|r|];
      forall k | |r| <= k < |s| ensures IsSpace(s[k]) {
        if k < |s| - 1 {
          assert s[k] == u[|r|..][k - |r|];
        }
      }
    }
  }

  /** `strip()` keeps a middle part of the string whose ends are not
      whitespace, and removes only whitespace around it. */
  lemma StripSpec(s: string)
    ensures var r := Strip(s);
      && (|r| > 0 ==> !IsSpace(r[0]) && !IsSpace(r[|r| - 1]))
      && exists i, j :: 0 <= i <= j <= |s| && r == s[i..j] && AllSpace(s[..i]) && AllSpace(s[j..])
  {
    var u := TrimStart(s);
    TrimStartSpec(s);
    TrimEndSpec(u);
    var r := TrimEnd(u);
    var i := |s| - |u|;
    var j := i + |r|;
    assert r == s[i..j];
    assert s[j..] == u[|r|..];
  }

  /** Stripping removes exactly the surrounding whitespace: a string whose
      ends are not whitespace comes back unchanged from any padding. */
  lemma {:induction false} StripPadded(pre: string, t: string, post: string)
    requires AllSpace(pre) && AllSpace(post)
    requires |t| > 0 ==> !IsSpace(t[0]) && !IsSpace(t[|t| - 1])
    ensures Strip(pre + t + post) == t
  {
    if |t| == 0 {
      var s := pre + t + post;
      assert AllSpace(s) && s + "" == s;
      TrimStartPadded(s, "");
    } else {
      assert pre + t + post == pre + (t + post);
      TrimStartPadded(pre, t + post);
      TrimEndPadded(t, post);
    }
  }

  lemma {:induction false} TrimStartPadded(pre: string, u: string)
    requires AllSpace(pre)
    requires |u| > 0 ==> !IsSpace(u[0])
    ensures TrimStart(pre + u) == u
    decreases |pre|
  {
    if |pre| == 0 {
      assert pre + u == u;
    } else {
      assert (pre + u)[1..] == pre[1..] + u;
      TrimStartPadded(pre[1..], u);
    }
  }

  lemma {:induction false} TrimEndPadded(u: string, post: string)
    requires AllSpace(post)
    requires |u| > 0 ==> !IsSpace(u[|u| - 1])
    ensures TrimEnd(u + post) == u
    decreases |post|
  {
    if |post| == 0 {
      assert u + post == u;
    } else {
      assert (u + post)[..|u + post| - 1] == u + post[..|post| - 1];
      TrimEndPadded(u, post[..|post| - 1]);
    }
  }

  /* ------------------------------------------------------------ split(sep) */

  function Count(s: string, c: char): nat {
    if |s| == 0 then 0 else (if s[0] == c then 1 else 0) + Count(s[1..], c)
  }

  /** Python's `str.split(sep)` for a one-character separator: the pieces
      between consecutive separators, empty pieces included. */
  function SplitOn(s: string, c: char): (r: seq<string>)
    ensures |r| == Count(s, c) + 1
    ensures forall k :: 0 <= k < |r| ==> c !in r[k]
  {
    if |s| == 0 then [""]
    else
      var rest := SplitOn(s[1..], c);
      if s[0] == c then [""] + rest
      else [[s[0]] + rest[0]] + rest[1..]
  }

  /** Joins pieces with a one-character separator (Python's `sep.join`). */
  function Join(ps: seq<string>, c: char): string
    requires |ps| > 0
  {
    if |ps| == 1 then ps[0] else ps[0] + [c] + Join(ps[1..], c)
  }

  /** Splitting loses nothing: the pieces joined by the separator give back
      the original string. */
  lemma {:induction false} JoinSplitOn(s: string, c: char)
    ensures Join(SplitOn(s, c), c) == s
    decreases |s|
  {
    if |s| > 0 {
      var rest := SplitOn(s[1..], c);
      JoinSplitOn(s[1..], c);
      if s[0] == c {
        assert s == [c] + s[1..];
      } else if |rest| == 1 {
        assert s == [s[0]] + s[1..];
      } else {
        assert Join(rest, c) == rest[0] + [c] + Join(rest[1..], c);
        assert s == [s[0]] + s[1..];
      }
    }
  }

  /** Splitting undoes joining, for pieces free of the separator. */
  lemma {:induction false} SplitOnJoin(ps: seq<string>, c: char)
    requires |ps| > 0
    requires forall k :: 0 <= k < |ps| ==> c !in ps[k]
    ensures SplitOn(Join(ps, c), c) == ps
    decreases |ps|
  {
    if |ps| == 1 {
      SplitOnFree(ps[0], c);
    } else {
      SplitOnJoin(ps[1..], c);
      SplitOnPrefix(ps[0], c, Join(ps[1..], c));
      assert Join(ps, c) == ps[0] + [c] + Join(ps[1..], c);
      assert ps == [ps[0]] + ps[1..];
    }
  }

  /** A string without the separator is a single piece. */
  lemma {:induction false} SplitOnFree(s: string, c: char)
    requires c !in s
    ensures SplitOn(s, c) == [s]
    decreases |s|
  {
    if |s| > 0 {
      assert c !in s[1..] by {
        forall k | 0 <= k < |s[1..]| ensures s[1..][k] != c {
          assert s[1..][k] == s[k + 1];
        }
      }
      SplitOnFree(s[1..], c);
      assert s == [s[0]] + s[1..];
    }
  }

  /** The first separator ends the first piece. */
  lemma {:induction false} SplitOnPrefix(a: string, c: char, b: string)
    requires c !in a
    ensures SplitOn(a + [c] + b, c) == [a] + SplitOn(b, c)
    decreases |a|
  {
    if |a| == 0 {
      assert a + [c] + b == [c] + b;
      assert ([c] + b)[1..] == b;
    } else {
      var s := a + [c] + b;
      assert s[0] == a[0] && s[1..] == a[1..] + [c] + b;
      assert c !in a[1..] by {
        forall k | 0 <= k < |a[1..]| ensures a[1..][k] != c {
          assert a[1..][k] == a[k + 1];
        }
      }
      SplitOnPrefix(a[1..], c, b);
      assert [a[0]] + a[1..] == a;
    }
  }

  /* --------------------------------------------------------------- split() */

  /** Length of the longest prefix of `s` that holds no whitespace. */
  function TokenLength(s: string): (n: nat)
    ensures n <= |s|
    ensures NoSpace(s[..n])
    ensures n < |s| ==> IsSpace(s[n])
  {
    if |s| == 0 || IsSpace(s[0]) then 0 else 1 + TokenLength(s[1..])
  }

  /** Python's `str.split()` with no argument: the maximal runs of
      non-whitespace characters, in order; leading, trailing and repeated
      whitespace produce no empty tokens. */
  function SplitWhitespace(s: string): (r: seq<string>)
    ensures forall k :: 0 <= k < |r| ==> |r[k]| > 0 && NoSpace(r[k])
    decreases |s|
  {
    if |s| == 0 then []
    else if IsSpace(s[0]) then SplitWhitespace(s[1..])
    else
      var n := TokenLength(s);
      [s[..n]] + SplitWhitespace(s[n..])
  }

  /** The gaps `ws` interleaved with the tokens `ts`:
      `ws[0] + ts[0] + ws[1] + ... + ts[n - 1] + ws[n]`. */
  function Interleave(ws: seq<string>, ts: seq<string>): string
    requires |ws| == |ts| + 1
    decreases |ts|
  {
    if |ts| == 0 then ws[0] else ws[0] + ts[0] + Interleave(ws[1..], ts[1..])
  }

  /** `ws` can stand around `n` tokens: whitespace only, and at least one
      character between two tokens. */
  predicate Gaps(ws: seq<string>, n: nat) {
    && |ws| == n + 1
    && (forall k :: 0 <= k < |ws| ==> AllSpace(ws[k]))
    && (forall k :: 0 < k < n ==> |ws[k]| > 0)
  }

  /** `split()` loses only whitespace: the string is its tokens with
      whitespace gaps between and around them. */
  lemma SplitWhitespaceLossless(s: string)
    ensures exists ws :: Gaps(ws, |SplitWhitespace(s)|) && s == Interleave(ws, SplitWhitespace(s))
  {
    var ws := GapsOf(s);
  }

  /** `split()` finds exactly the tokens again when non-empty
      whitespace-free tokens are separated by whitespace of any kind and
      length, with any whitespace around them. */
  lemma {:induction false} SplitWhitespaceInterleave(ws: seq<string>, ts: seq<string>)
    requires Gaps(ws, |ts|)
    requires forall k :: 0 <= k < |ts| ==> |ts[k]| > 0 && NoSpace(ts[k])
    ensures SplitWhitespace(Interleave(ws, ts)) == ts
    decreases |Interleave(ws, ts)|
  {
    var s := Interleave(ws, ts);
    if |ws[0]| > 0 {
      var vs := [ws[0][1..]] + ws[1..];
      assert [ws[0][0]] + vs[0] == ws[0];
      assert [[ws[0][0]] + vs[0]] + vs[1..] == ws;
      InterleaveHead(ws[0][0], vs, ts);
      assert AllSpace(ws[0]);
      assert forall k :: 0 < k < |vs| ==> vs[k] == ws[k];
      assert AllSpace(vs[0]) by {
        forall k | 0 <= k < |vs[0]| ensures IsSpace(vs[0][k]) {
          assert vs[0][k] == ws[0][k + 1];
        }
      }
      assert s[1..] == Interleave(vs, ts);
      SplitWhitespaceInterleave(vs, ts);
    } else if |ts| > 0 {
      var rest := Interleave(ws[1..], ts[1..]);
      assert s == ts[0] + rest;
      if |ts| > 1 {
        assert rest[0] == ws[1][0];
        assert AllSpace(ws[1]);
      } else {
        assert rest == ws[1] && AllSpace(ws[1]);
      }
      TokenLengthOf(ts[0], rest);
      assert s[..|ts[0]|] == ts[0] && s[|ts[0]|..] == rest;
      assert forall k :: 0 <= k < |ws| - 1 ==> ws[1..][k] == ws[k + 1];
      SplitWhitespaceInterleave(ws[1..], ts[1..]);
      assert ts == [ts[0]] + ts[1..];
    }
  }

  /** `ws` are the gaps around the tokens `split()` finds in `s`; the first
      one is not empty when `s` starts with whitespace. */
  predicate SplitGaps(s: string, ws: seq<string>) {
    var ts := SplitWhitespace(s);
    && Gaps(ws, |ts|) && s == Interleave(ws, ts)
    && (|s| > 0 && IsSpace(s[0]) ==> |ws[0]| > 0)
  }

  /** The gaps around the tokens of `split()`. */
  lemma {:induction false} GapsOf(s: string) returns (ws: seq<string>)
    ensures SplitGaps(s, ws)
    decreases |s|
  {
    if |s| == 0 {
      ws := [""];
    } else if IsSpace(s[0]) {
      var rest := GapsOf(s[1..]);
      ws := GapsOfSpace(s, rest);
    } else {
      var rest := GapsOf(s[TokenLength(s)..]);
      ws := GapsOfToken(s, rest);
    }
  }

  /** A leading whitespace character joins the first gap. */
  lemma GapsOfSpace(s: string, rest: seq<string>) returns (ws: seq<string>)
    requires |s| > 0 && IsSpace(s[0]) && SplitGaps(s[1..], rest)
    ensures SplitGaps(s, ws)
  {
    var ts := SplitWhitespace(s[1..]);
    ws := [[s[0]] + rest[0]] + rest[1..];
    GapsSpaceStep(s[0], rest, |ts|);
    InterleaveHead(s[0], rest, ts);
    assert s == [s[0]] + s[1..];
  }

  /** A leading token comes after an empty first gap. */
  lemma GapsOfToken(s: string, rest: seq<string>) returns (ws: seq<string>)
    requires |s| > 0 && !IsSpace(s[0]) && SplitGaps(s[TokenLength(s)..], rest)
    ensures SplitGaps(s, ws)
  {
    var n := TokenLength(s);
    var more := SplitWhitespace(s[n..]);
    if n < |s| {
      assert IsSpace(s[n..][0]);
    }
    GapsTokenStep(s[..n], rest, more);
    ws := [""] + rest;
    assert s == s[..n] + s[n..];
  }

  /** A whitespace character in front of the first gap keeps the gaps
      valid. */
  lemma GapsSpaceStep(c: char, ws: seq<string>, n: nat)
    requires IsSpace(c) && Gaps(ws, n)
    ensures Gaps([[c] + ws[0]] + ws[1..], n)
  {
    var vs := [[c] + ws[0]] + ws[1..];
    assert forall k :: 0 < k < |vs| ==> vs[k] == ws[k];
    assert AllSpace(vs[0]) by {
      assert AllSpace(ws[0]);
    }
  }

  /** A token in front: an empty gap before it, and the old first gap, not
      empty when tokens follow, after it. */
  lemma GapsTokenStep(t: string, ws: seq<string>, ts: seq<string>)
    requires Gaps(ws, |ts|) && (|ts| > 0 ==> |ws[0]| > 0)
    ensures Gaps([""] + ws, |ts| + 1)
    ensures Interleave([""] + ws, [t] + ts) == t + Interleave(ws, ts)
  {
    var vs := [""] + ws;
    forall k | 0 <= k < |vs| ensures AllSpace(vs[k]) {
      if k > 0 {
        assert vs[k] == ws[k - 1];
      }
    }
    forall k | 0 < k < |ts| + 1 ensures |vs[k]| > 0 {
      assert vs[k] == ws[k - 1];
    }
    assert vs[1..] == ws && ([t] + ts)[1..] == ts;
    assert Interleave(vs, [t] + ts) == "" + t + Interleave(ws, ts);
  }

  /** A character added in front of the first gap comes first. */
  lemma InterleaveHead(c: char, ws: seq<string>, ts: seq<string>)
    requires |ws| == |ts| + 1
    ensures Interleave([[c] + ws[0]] + ws[1..], ts) == [c] + Interleave(ws, ts)
  {
    var vs := [[c] + ws[0]] + ws[1..];
    assert vs[1..] == ws[1..];
    if |ts| > 0 {
      assert [c] + ws[0] + ts[0] + Interleave(ws[1..], ts[1..]) == [c] + (ws[0] + ts[0] + Interleave(ws[1..], ts[1..]));
    }
  }

  /** Joins tokens with single spaces (Python's `" ".join`). */
  function JoinSpaces(ts: seq<string>): string {
    if |ts| == 0 then "" else if |ts| == 1 then ts[0] else ts[0] + " " + JoinSpaces(ts[1..])
  }

  /** Splitting on whitespace undoes joining with spaces, for non-empty
      whitespace-free tokens. */
  lemma {:induction false} SplitWhitespaceJoin(ts: seq<string>)
    requires forall k :: 0 <= k < |ts| ==> |ts[k]| > 0 && NoSpace(ts[k])
    ensures SplitWhitespace(JoinSpaces(ts)) == ts
    decreases |ts|
  {
    if |ts| == 1 {
      TokenLengthOf(ts[0], "");
      assert ts[0] + "" == ts[0];
      assert ts[0][|ts[0]|..] == "";
    } else if |ts| > 1 {
      var rest := JoinSpaces(ts[1..]);
      var s := ts[0] + " " + rest;
      TokenLengthOf(ts[0], " " + rest);
      assert s == ts[0] + (" " + rest);
      assert s[..|ts[0]|] == ts[0];
      assert s[|ts[0]|..] == " " + rest;
      assert (" " + rest)[1..] == rest;
      SplitWhitespaceJoin(ts[1..]);
      assert ts == [ts[0]] + ts[1..];
    }
  }

  lemma {:induction false} TokenLengthOf(t: string, rest: string)
    requires |t| > 0 && NoSpace(t)
    requires |rest| > 0 ==> IsSpace(rest[0])
    ensures TokenLength(t + rest) == |t|
    decreases |t|
  {
    var s := t + rest;
    assert s[1..] == t[1..] + rest;
    if |t| > 1 {
      TokenLengthOf(t[1..], rest);
    } else {
      assert s[1..] == rest;
    }
  }

  /** Joining adds only spaces: a character other than space that no token
      holds is not in the joined string. */
  lemma {:induction false} JoinSpacesExcludes(ts: seq<string>, c: char)
    requires c != ' '
    requires forall k :: 0 <= k < |ts| ==> c !in ts[k]
    ensures c !in JoinSpaces(ts)
    decreases |ts|
  {
    if |ts| > 1 {
      JoinSpacesExcludes(ts[1..], c);
    }
  }

  /** Joined non-empty whitespace-free tokens do not end in whitespace. */
  lemma {:induction false} JoinSpacesLast(ts: seq<string>)
    requires forall k :: 0 <= k < |ts| ==> |ts[k]| > 0 && NoSpace(ts[k])
    ensures var j := JoinSpaces(ts); |j| > 0 ==> !IsSpace(j[|j| - 1])
    decreases |ts|
  {
    if |ts| > 1 {
      JoinSpacesLast(ts[1..]);
      var rest := JoinSpaces(ts[1..]);
      var j := ts[0] + " " + rest;
      if |rest| > 0 {
        assert j[|j| - 1] == rest[|rest| - 1];
      }
    }
  }
}
