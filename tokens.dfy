/** Splitting a command line into its arguments.

    The engine splits the line in place (see Engine.Console.SplitArguments);
    this module says what the result is: the maximal runs of non-whitespace,
    left to right, of which at most the argument capacity are kept. */
module Tokens {
  import opened Bytes

  /** Every character of `s` is whitespace. */
  predicate Blank(s: seq<Ascii>) {
    forall i :: 0 <= i < |s| ==> IsWhitespace(s[i])
  }

  /** No character of `s` is whitespace. */
  predicate Solid(s: seq<Ascii>) {
    forall i :: 0 <= i < |s| ==> !IsWhitespace(s[i])
  }

  /** Length of the leading run of non-whitespace characters of `s`. */
  function RunLength(s: seq<Ascii>): (n: nat)
    ensures n <= |s|
    decreases |s|
  {
    if s == [] || IsWhitespace(s[0]) then 0 else 1 + RunLength(s[1..])
  }

  /** The leading run is solid and stops at whitespace or at the end. */
  lemma {:induction false} RunLengthStops(s: seq<Ascii>)
    ensures Solid(s[..RunLength(s)])
    ensures RunLength(s) < |s| ==> IsWhitespace(s[RunLength(s)])
    decreases |s|
  {
    if s != [] && !IsWhitespace(s[0]) {
      RunLengthStops(s[1..]);
      var n := RunLength(s);
      forall i | 0 <= i < n ensures !IsWhitespace(s[..n][i]) {
        if i > 0 {
          assert s[..n][i] == s[1..][..n - 1][i - 1];
        }
      }
      if n < |s| {
        assert s[n] == s[1..][n - 1];
      }
    }
  }

  /** The words of a line: its maximal runs of non-whitespace characters, in
      order. Runs of whitespace of any length separate words. */
  function Words(s: seq<Ascii>): seq<seq<Ascii>>
    decreases |s|
  {
    if s == [] then []
    else if IsWhitespace(s[0]) then Words(s[1..])
    else
      var n := RunLength(s);
      [s[..n]] + Words(s[n..])
  }

  /** The arguments captured from a line when at most `max` fit: the first
      `max` words. */
  function Capture(s: seq<Ascii>, max: nat): (args: seq<seq<Ascii>>)
    ensures |args| <= max && |args| <= |Words(s)|
    ensures |args| == max || args == Words(s)
    ensures args == Words(s)[..|args|]
  {
    var ws := Words(s);
    if |ws| <= max then ws else ws[..max]
  }

  /** Every word is a non-empty run without whitespace, and a line without
      NUL characters (or of printable characters only) yields words without
      NUL characters (or of printable characters only). */
  lemma {:induction false} WordsShape(s: seq<Ascii>)
    ensures forall k :: 0 <= k < |Words(s)| ==> Words(s)[k] != [] && Solid(Words(s)[k])
    ensures IsCString(s) ==> forall k :: 0 <= k < |Words(s)| ==> IsCString(Words(s)[k])
    ensures PrintableText(s) ==> forall k :: 0 <= k < |Words(s)| ==> PrintableText(Words(s)[k])
    decreases |s|
  {
    if s != [] {
      if IsWhitespace(s[0]) {
        WordsShape(s[1..]);
        assert IsCString(s) ==> IsCString(s[1..]) by {
          if IsCString(s) {
            forall i | 0 <= i < |s| - 1 ensures s[1..][i] != NUL { assert s[1..][i] == s[i + 1]; }
          }
        }
        assert PrintableText(s) ==> PrintableText(s[1..]) by {
          if PrintableText(s) {
            forall i | 0 <= i < |s| - 1 ensures IsPrintable(s[1..][i]) { assert s[1..][i] == s[i + 1]; }
          }
        }
      } else {
        var n := RunLength(s);
        RunLengthStops(s);
        WordsShape(s[n..]);
        assert IsCString(s) ==> IsCString(s[n..]) && IsCString(s[..n]) by {
          if IsCString(s) {
            forall i | 0 <= i < |s| - n ensures s[n..][i] != NUL { assert s[n..][i] == s[i + n]; }
            forall i | 0 <= i < n ensures s[..n][i] != NUL { assert s[..n][i] == s[i]; }
          }
        }
        assert PrintableText(s) ==> PrintableText(s[n..]) && PrintableText(s[..n]) by {
          if PrintableText(s) {
            forall i | 0 <= i < |s| - n ensures IsPrintable(s[n..][i]) { assert s[n..][i] == s[i + n]; }
            forall i | 0 <= i < n ensures IsPrintable(s[..n][i]) { assert s[..n][i] == s[i]; }
          }
        }
        var ws := Words(s);
        assert ws == [s[..n]] + Words(s[n..]);
        forall k | 0 <= k < |ws|
          ensures ws[k] != [] && Solid(ws[k])
          ensures IsCString(s) ==> IsCString(ws[k])
          ensures PrintableText(s) ==> PrintableText(ws[k])
        {
          if k > 0 {
            assert ws[k] == Words(s[n..])[k - 1];
          } else {
            assert s[..n][0] == s[0];
          }
        }
      }
    }
  }

  /** The leading run is the one that stops at the first whitespace. */
  lemma RunLengthUnique(s: seq<Ascii>, n: nat)
    requires n <= |s| && Solid(s[..n])
    requires n < |s| ==> IsWhitespace(s[n])
    ensures RunLength(s) == n
  {
    var m := RunLength(s);
    RunLengthStops(s);
    forall i | 0 <= i < n ensures !IsWhitespace(s[i]) {
      assert s[..n][i] == s[i];
    }
    forall i | 0 <= i < m ensures !IsWhitespace(s[i]) {
      assert s[..m][i] == s[i];
    }
  }

  /** Leading whitespace contributes no word. */
  lemma {:induction false} WordsBlankPrefix(m: seq<Ascii>, b: seq<Ascii>)
    requires Blank(m)
    ensures Words(m + b) == Words(b)
    decreases |m|
  {
    if m != [] {
      assert (m + b)[0] == m[0] && IsWhitespace(m[0]);
      assert (m + b)[1..] == m[1..] + b;
      assert Blank(m[1..]) by {
        forall i | 0 <= i < |m| - 1 ensures IsWhitespace(m[1..][i]) {
          assert m[1..][i] == m[i + 1];
        }
      }
      WordsBlankPrefix(m[1..], b);
    } else {
      assert m + b == b;
    }
  }

  /** A blank line has no words. */
  lemma WordsOfBlank(s: seq<Ascii>)
    requires Blank(s)
    ensures Words(s) == []
  {
    WordsBlankPrefix(s, []);
    assert s + [] == s;
  }

  /** A non-empty run without whitespace is one word. */
  lemma WordsOfSolid(s: seq<Ascii>)
    requires s != [] && Solid(s)
    ensures Words(s) == [s]
  {
    RunLengthUnique(s, |s|);
    assert s[..|s|] == s;
    assert s[|s|..] == [];
  }

  /** Whitespace separates: a non-empty whitespace run between two texts
      splits the line into the words of each. Together with WordsOfBlank and
      WordsOfSolid this pins Words down on every line. */
  lemma {:induction false} WordsSplit(a: seq<Ascii>, m: seq<Ascii>, b: seq<Ascii>)
    requires m != [] && Blank(m)
    ensures Words(a + m + b) == Words(a) + Words(b)
    decreases |a|, 1
  {
    if a == [] {
      assert a + m + b == m + b;
      WordsBlankPrefix(m, b);
    } else if IsWhitespace(a[0]) {
      WordsSplitBlankHead(a, m, b);
    } else {
      WordsSplitRunHead(a, m, b);
    }
  }

  /** WordsSplit when the first text starts with whitespace. */
  lemma {:induction false} WordsSplitBlankHead(a: seq<Ascii>, m: seq<Ascii>, b: seq<Ascii>)
    requires m != [] && Blank(m) && a != [] && IsWhitespace(a[0])
    ensures Words(a + m + b) == Words(a) + Words(b)
    decreases |a|, 0
  {
    var s := a + m + b;
    assert s[0] == a[0];
    assert s[1..] == a[1..] + m + b;
    WordsSplit(a[1..], m, b);
  }

  /** WordsSplit when the first text starts with a word. */
  lemma {:induction false} WordsSplitRunHead(a: seq<Ascii>, m: seq<Ascii>, b: seq<Ascii>)
    requires m != [] && Blank(m) && a != [] && !IsWhitespace(a[0])
    ensures Words(a + m + b) == Words(a) + Words(b)
    decreases |a|, 0
  {
    var s := a + m + b;
    var n := RunLength(a);
    RunLengthStops(a);
    assert s[0] == a[0];
    assert s[..n] == a[..n];
    if n < |a| {
      assert s[n] == a[n];
      RunLengthUnique(s, n);
      assert s[n..] == a[n..] + m + b;
      WordsSplit(a[n..], m, b);
    } else {
      assert s[n] == m[0];
      RunLengthUnique(s, n);
      assert s[n..] == m + b;
      WordsBlankPrefix(m, b);
      assert a[..n] == a && a[n..] == [];
    }
  }

  /** Skipping leading whitespace up to `q` does not change the words. */
  lemma WordsAfterBlank(s: seq<Ascii>, q: nat)
    requires q <= |s| && Blank(s[..q])
    ensures Words(s) == Words(s[q..])
  {
    assert s[..q] + s[q..] == s;
    WordsBlankPrefix(s[..q], s[q..]);
  }

  /** A line that starts with a run of `e` non-whitespace characters ending
      at whitespace or at the end has that run as its first word. */
  lemma WordsLeadingRun(s: seq<Ascii>, e: nat)
    requires 0 < e <= |s| && Solid(s[..e])
    requires e < |s| ==> IsWhitespace(s[e])
    ensures e < |s| ==> Words(s) == [s[..e]] + Words(s[e + 1..])
    ensures e == |s| ==> Words(s) == [s]
  {
    assert s[..e][0] == s[0];
    RunLengthUnique(s, e);
    if e < |s| {
      assert s[e..][1..] == s[e + 1..];
    } else {
      assert s[..e] == s && s[e..] == [];
    }
  }

  /** Four runs without whitespace, separated by whitespace runs of any
      length, are exactly the four words of the line. */
  lemma WordsOfFourRuns(a: seq<Ascii>, m1: seq<Ascii>, b: seq<Ascii>, m2: seq<Ascii>,
                        c: seq<Ascii>, m3: seq<Ascii>, d: seq<Ascii>)
    requires a != [] && b != [] && c != [] && d != []
    requires Solid(a) && Solid(b) && Solid(c) && Solid(d)
    requires m1 != [] && m2 != [] && m3 != []
    requires Blank(m1) && Blank(m2) && Blank(m3)
    ensures Words(a + m1 + b + m2 + c + m3 + d) == [a, b, c, d]
  {
    WordsOfSolid(a);
    WordsOfSolid(b);
    WordsOfSolid(c);
    WordsOfSolid(d);
    var t3 := c + m3 + d;
    WordsSplit(c, m3, d);
    var t2 := b + m2 + t3;
    WordsSplit(b, m2, t3);
    WordsSplit(a, m1, t2);
    Regroup(a + m1 + b, m2, c + m3, d);
    Regroup(a + m1, b, m2, t3);
    Regroup(a, m1, b + m2, t3);
    assert a + m1 + b + m2 + c + m3 + d == a + m1 + t2;
  }

  /** The first position at or after `p` that holds no whitespace, or the
      end of the line. */
  function SkipBlank(s: seq<Ascii>, p: nat): (q: nat)
    requires p <= |s|
    ensures p <= q <= |s|
    decreases |s| - p
  {
    if p == |s| || !IsWhitespace(s[p]) then p else SkipBlank(s, p + 1)
  }

  /** The first position at or after `p` that holds whitespace, or the end
      of the line. */
  function SkipSolid(s: seq<Ascii>, p: nat): (e: nat)
    requires p <= |s|
    ensures p <= e <= |s|
    decreases |s| - p
  {
    if p == |s| || IsWhitespace(s[p]) then p else SkipSolid(s, p + 1)
  }

  /** SkipBlank passes over whitespace only and stops at a character that is
      not whitespace, or at the end. */
  lemma {:induction false} SkipBlankStops(s: seq<Ascii>, p: nat)
    requires p <= |s|
    ensures forall i :: p <= i < SkipBlank(s, p) ==> IsWhitespace(s[i])
    ensures SkipBlank(s, p) < |s| ==> !IsWhitespace(s[SkipBlank(s, p)])
    decreases |s| - p
  {
    if p < |s| && IsWhitespace(s[p]) {
      SkipBlankStops(s, p + 1);
    }
  }

  /** SkipSolid passes over non-whitespace only and stops at whitespace, or
      at the end. */
  lemma {:induction false} SkipSolidStops(s: seq<Ascii>, p: nat)
    requires p <= |s|
    ensures forall i :: p <= i < SkipSolid(s, p) ==> !IsWhitespace(s[i])
    ensures SkipSolid(s, p) < |s| ==> IsWhitespace(s[SkipSolid(s, p)])
    decreases |s| - p
  {
    if p < |s| && !IsWhitespace(s[p]) {
      SkipSolidStops(s, p + 1);
    }
  }

  /** Skipping the whitespace from `p` keeps the words. */
  lemma SkipBlankWords(s: seq<Ascii>, p: nat)
    requires p <= |s|
    ensures Words(s[p..]) == Words(s[SkipBlank(s, p)..])
    ensures SkipBlank(s, p) < |s| ==> !IsWhitespace(s[SkipBlank(s, p)])
  {
    var q := SkipBlank(s, p);
    SkipBlankStops(s, p);
    var t := s[p..];
    assert t[..q - p] == s[p..q];
    assert Blank(s[p..q]) by {
      forall i | 0 <= i < q - p ensures IsWhitespace(s[p..q][i]) { assert s[p..q][i] == s[p + i]; }
    }
    WordsAfterBlank(t, q - p);
    assert t[q - p..] == s[q..];
  }

  /** The non-whitespace run from a non-whitespace position `q` is the first
      word of the rest of the line; when whitespace ends it, the remaining
      words follow that whitespace. */
  lemma RunWords(s: seq<Ascii>, q: nat)
    requires q < |s| && !IsWhitespace(s[q])
    ensures q < SkipSolid(s, q)
    ensures SkipSolid(s, q) == |s| ==> Words(s[q..]) == [s[q..]]
    ensures SkipSolid(s, q) < |s| ==>
              Words(s[q..]) == [s[q..SkipSolid(s, q)]] + Words(s[SkipSolid(s, q) + 1..])
  {
    var e := SkipSolid(s, q);
    SkipSolidStops(s, q);
    var t := s[q..];
    assert t[..e - q] == s[q..e] by {
      forall i | 0 <= i < e - q ensures t[..e - q][i] == s[q..e][i] { assert s[q..e][i] == s[q + i]; }
    }
    assert Solid(s[q..e]) by {
      forall i | 0 <= i < e - q ensures !IsWhitespace(s[q..e][i]) { assert s[q..e][i] == s[q + i]; }
    }
    if e < |s| {
      assert t[e - q] == s[e];
      var u, r := t[e - q + 1..], s[e + 1..];
      assert u == r by {
        forall i | 0 <= i < |r| ensures u[i] == r[i] {
          assert u[i] == s[e + 1 + i];
        }
      }
    }
    WordsLeadingRun(t, e - q);
  }

  /** Capturing from a line whose first word is `w` keeps `w` and captures
      one word fewer from the rest. */
  lemma CaptureStep(t: seq<Ascii>, u: seq<Ascii>, w: seq<Ascii>, k: nat)
    requires k >= 1 && Words(t) == [w] + Words(u)
    ensures Capture(t, k) == [w] + Capture(u, k - 1)
  {
    var ws := Words(u);
    if |ws| > k - 1 {
      assert ([w] + ws)[..k] == [w] + ws[..k - 1];
    }
  }

  /** The line buffer after the in-place split, and where each captured
      argument starts in it. */
  datatype Cut = Cut(buf: seq<Ascii>, starts: seq<nat>)

  /** The in-place split, one round per captured argument: from position
      `p`, skip whitespace (stop if the line ends), record the start, find
      the whitespace that ends the argument (stop if the line ends), write a
      NUL over it and go on right after it; at most `k` rounds. */
  function CutFrom(s: seq<Ascii>, p: nat, k: nat): Cut
    requires p <= |s|
    decreases k
  {
    if k == 0 then Cut(s, [])
    else
      var q := SkipBlank(s, p);
      if q == |s| then Cut(s, [])
      else
        var e := SkipSolid(s, q);
        if e == |s| then Cut(s, [q])
        else
          var c := CutFrom(s[e := NUL], e + 1, k - 1);
          Cut(c.buf, [q] + c.starts)
  }

  /** A round of the in-place split that cuts the argument `s[q..e]` off
      and goes on right after it. */
  lemma CutFromRound(s: seq<Ascii>, p: nat, k: nat, q: nat, e: nat)
    requires p <= |s| && k >= 1
    requires q == SkipBlank(s, p) < |s| && e == SkipSolid(s, q) < |s|
    ensures var c := CutFrom(s[e := NUL], e + 1, k - 1);
            CutFrom(s, p, k) == Cut(c.buf, [q] + c.starts)
  {
  }

  /** A suffix of a NUL-free text is NUL-free. */
  lemma CStringSuffix(s: seq<Ascii>, p: nat, i: nat)
    requires p <= i <= |s| && IsCString(s[p..])
    ensures IsCString(s[i..])
  {
    forall j | 0 <= j < |s| - i ensures s[i..][j] != NUL {
      assert s[i..][j] == s[p..][i - p + j];
    }
  }

  /** A stretch of a NUL-free text is NUL-free. */
  lemma CStringSlice(s: seq<Ascii>, p: nat, i: nat, j: nat)
    requires p <= i <= j <= |s| && IsCString(s[p..])
    ensures IsCString(s[i..j])
  {
    forall m | 0 <= m < j - i ensures s[i..j][m] != NUL {
      assert s[i..j][m] == s[p..][i - p + m];
    }
  }

  /** `c` is what splitting `s` in place from `p` should give for the
      arguments `args`: a buffer of the same length, unchanged before `p`,
      and one start per argument, at or after `p`, from which the buffer
      (with its terminating NUL) reads as that argument. */
  predicate CutMatches(c: Cut, s: seq<Ascii>, p: nat, args: seq<seq<Ascii>>)
    requires p <= |s|
  {
    && |c.buf| == |s|
    && c.buf[..p] == s[..p]
    && |c.starts| == |args|
    && forall j :: 0 <= j < |c.starts| ==>
         p <= c.starts[j] < |s| && CStringAt(c.buf + [NUL], c.starts[j]) == args[j]
  }

  /** The in-place split is the word split: it records one start per
      captured word, reading the buffer from a recorded start up to the next
      NUL gives that word, and nothing before `p` changes. */
  lemma {:induction false} CutFromWords(s: seq<Ascii>, p: nat, k: nat)
    requires p <= |s| && IsCString(s[p..])
    ensures CutMatches(CutFrom(s, p, k), s, p, Capture(s[p..], k))
    decreases k, 2
  {
    if k == 0 {
      assert CutFrom(s, p, k) == Cut(s, []);
      assert Capture(s[p..], k) == [];
      return;
    }
    SkipBlankWords(s, p);
    var q := SkipBlank(s, p);
    if q == |s| {
      assert CutFrom(s, p, k) == Cut(s, []);
      assert Words(s[p..]) == [] by {
        assert s[q..] == [];
      }
      return;
    }
    RunWords(s, q);
    var e := SkipSolid(s, q);
    CStringSlice(s, p, q, e);
    if e == |s| {
      assert CutFrom(s, p, k) == Cut(s, [q]);
      assert Capture(s[p..], k) == [s[q..e]] by {
        assert s[q..] == s[q..e];
      }
      CutLast(s, p, q);
      return;
    }
    CaptureStep(s[p..], s[e + 1..], s[q..e], k);
    CutRound(s, p, k, q, e);
  }

  /** A round of the in-place split that ends at whitespace: the argument
      `s[q..e]` is cut off and the rest of the line is split by induction. */
  lemma {:induction false} CutRound(s: seq<Ascii>, p: nat, k: nat, q: nat, e: nat)
    requires p <= q < e < |s| && k >= 1 && IsCString(s[p..])
    requires q == SkipBlank(s, p) && e == SkipSolid(s, q)
    ensures CutMatches(CutFrom(s, p, k), s, p, [s[q..e]] + Capture(s[e + 1..], k - 1))
    decreases k, 1
  {
    var c' := CutFrom(s[e := NUL], e + 1, k - 1);
    CutFromRound(s, p, k, q, e);
    CutRest(s, p, k, e);
    CStringSlice(s, p, q, e);
    CutGlue(s, p, q, e, c', Capture(s[e + 1..], k - 1));
  }

  /** The rest of the line after a cut, split by induction. */
  lemma {:induction false} CutRest(s: seq<Ascii>, p: nat, k: nat, e: nat)
    requires p <= e < |s| && k >= 1 && IsCString(s[p..])
    ensures CutMatches(CutFrom(s[e := NUL], e + 1, k - 1), s[e := NUL], e + 1, Capture(s[e + 1..], k - 1))
    decreases k, 0
  {
    var s' := s[e := NUL];
    SuffixAfterUpdate(s, e);
    CStringSuffix(s, p, e + 1);
    CutFromWords(s', e + 1, k - 1);
  }

  /** Writing at `e` leaves what follows `e` alone. */
  lemma SuffixAfterUpdate(s: seq<Ascii>, e: nat)
    requires e < |s|
    ensures s[e := NUL][e + 1..] == s[e + 1..]
  {
    var s', t := s[e := NUL], s[e + 1..];
    assert forall i :: 0 <= i < |t| ==> s'[e + 1..][i] == t[i];
  }

  /** The last round of the in-place split: an argument that runs to the
      end of the line needs no NUL of its own, the terminator ends it. */
  lemma CutLast(s: seq<Ascii>, p: nat, q: nat)
    requires p <= q < |s| && IsCString(s[q..])
    ensures CutMatches(Cut(s, [q]), s, p, [s[q..]])
  {
    CStringAtSlice(s + [NUL], q, |s| - q);
    assert (s + [NUL])[q..|s|] == s[q..];
  }

  /** One round of the in-place split: cutting the argument `s[q..e]` off in
      front of a split of the rest that matches `args` matches the argument
      followed by `args`. */
  lemma CutGlue(s: seq<Ascii>, p: nat, q: nat, e: nat, c: Cut, args: seq<seq<Ascii>>)
    requires p <= q < e < |s| && IsCString(s[q..e])
    requires CutMatches(c, s[e := NUL], e + 1, args)
    ensures CutMatches(Cut(c.buf, [q] + c.starts), s, p, [s[q..e]] + args)
  {
    var s' := s[e := NUL];
    var pre := c.buf[..e + 1];
    assert pre == s'[..e + 1];
    assert c.buf[..p] == s[..p] by {
      assert pre[..p] == s[..p];
    }
    var b := c.buf + [NUL];
    assert b[q..e] == s[q..e] by {
      assert b[q..e] == c.buf[q..e] == pre[q..e];
      forall i | 0 <= i < e - q ensures pre[q..e][i] == s[q..e][i] {
        assert pre[q..e][i] == s'[q + i];
      }
    }
    assert b[e] == NUL by {
      assert pre[e] == s'[e];
    }
    CStringAtSlice(b, q, e - q);
    var starts := [q] + c.starts;
    forall j | 0 <= j < |starts|
      ensures p <= starts[j] < |s| && CStringAt(b, starts[j]) == ([s[q..e]] + args)[j]
    {
      if j > 0 {
        assert starts[j] == c.starts[j - 1];
      }
    }
  }

  /** The command line of the engine's parsing test. */
  const EXAMPLE_LINE: seq<Ascii> := "cmd_1 arg_1 arg_2     arg_3"

  /** The arguments the parsing test expects from EXAMPLE_LINE. */
  const EXAMPLE_WORDS: seq<seq<Ascii>> := ["cmd_1", "arg_1", "arg_2", "arg_3"]

  /** The example line of the engine's tests splits into exactly its four
      words; the run of five spaces counts as one separator. */
  lemma WordsExample(line: seq<Ascii>)
    requires line == EXAMPLE_LINE
    ensures Words(line) == EXAMPLE_WORDS
  {
    var sp: seq<Ascii> := [SP];
    var gap: seq<Ascii> := [SP, SP, SP, SP, SP];
    var a, b, c, d := EXAMPLE_WORDS[0], EXAMPLE_WORDS[1], EXAMPLE_WORDS[2], EXAMPLE_WORDS[3];
    assert line == a + sp + b + sp + c + gap + d;
    WordsOfFourRuns(a, sp, b, sp, c, gap, d);
  }
}
