/** Python's `re.sub(M + ".*", repl, s)` for a literal marker `M`, modelled as
    the regex engine scans (`Sub`), and the per-line reading it amounts to
    (`PerLine`): `.` never matches a line feed, so on every line the text from
    the first occurrence of `M` to the end of that line becomes `repl`. */
module LineSub {
  import opened Wrappers
  import opened Strings

  /** The scan `re.sub` performs: try a match at the current position; on a
      match, `.*` runs greedily to the next line feed (or the end), `repl` is
      emitted and the scan resumes where the match ended; otherwise the
      character is kept and the scan moves one position on. */
  function Sub(s: string, m: string, repl: string): string
    requires m != []
    decreases |s|
  {
    if s == [] then []
    else if OccursAt(s, m, 0) then repl + Sub(s[SpanEnd(s, |m|, NotNewline)..], m, repl)
    else [s[0]] + Sub(s[1..], m, repl)
  }

  /** What the substitution does to one line (a string with no line feed):
      everything from the first occurrence of `m` on becomes `repl`. */
  function RewriteLine(l: string, m: string, repl: string): string
    decreases |l|
  {
    if l == [] then []
    else if OccursAt(l, m, 0) then repl
    else [l[0]] + RewriteLine(l[1..], m, repl)
  }

  /** Every line rewritten on its own, in order. */
  function RewriteEach(ls: seq<string>, m: string, repl: string): (rs: seq<string>)
    decreases |ls|
    ensures |rs| == |ls|
    ensures forall k :: 0 <= k < |ls| ==> rs[k] == RewriteLine(ls[k], m, repl)
  {
    if ls == [] then [] else [RewriteLine(ls[0], m, repl)] + RewriteEach(ls[1..], m, repl)
  }

  /** The per-line reference: rewrite every line on its own and join again. */
  function PerLine(s: string, m: string, repl: string): string
  {
    Unlines(RewriteEach(Lines(s), m, repl))
  }

  // ---------------------------------------------------------------------------
  // One line
  // ---------------------------------------------------------------------------

  lemma SliceOfTail(l: string, a: int, b: int)
    requires 1 <= a <= b <= |l|
    ensures l[1..][a - 1..b - 1] == l[a..b]
  {
  }

  /** Occurrences past the first character are occurrences in the tail. */
  lemma OccursTail(l: string, m: string, q: int)
    requires l != [] && 1 <= q
    ensures OccursAt(l, m, q) <==> OccursAt(l[1..], m, q - 1)
  {
    if q + |m| <= |l| {
      SliceOfTail(l, q, q + |m|);
    }
  }

  /** A line without `m` is kept as it is. */
  lemma {:induction false} RewriteLineNone(l: string, m: string, repl: string)
    requires m != [] && !Contains(l, m)
    ensures RewriteLine(l, m, repl) == l
    decreases |l|
  {
    if l != [] {
      var t := l[1..];
      assert !Contains(t, m) by {
        forall q | OccursAt(t, m, q)
          ensures false
        {
          OccursTail(l, m, q + 1);
        }
      }
      RewriteLineNone(t, m, repl);
      assert l == [l[0]] + t;
    }
  }

  /** A line whose first occurrence of `m` is at `i` keeps the text before `i`
      and ends in `repl`. */
  lemma {:induction false} RewriteLineAt(l: string, m: string, repl: string, i: nat)
    requires m != [] && OccursAt(l, m, i)
    requires forall j :: 0 <= j < i ==> !OccursAt(l, m, j)
    ensures RewriteLine(l, m, repl) == l[..i] + repl
    decreases i
  {
    if i > 0 {
      var t := l[1..];
      OccursTail(l, m, i);
      forall j | 0 <= j < i - 1
        ensures !OccursAt(t, m, j)
      {
        OccursTail(l, m, j + 1);
      }
      RewriteLineAt(t, m, repl, i - 1);
      RewriteLineCons(l, m, repl);
      PrefixCons(l, i);
      assert ([l[0]] + t[..i - 1]) + repl == [l[0]] + (t[..i - 1] + repl);
    }
  }

  lemma RewriteLineCons(l: string, m: string, repl: string)
    requires l != [] && !OccursAt(l, m, 0)
    ensures RewriteLine(l, m, repl) == [l[0]] + RewriteLine(l[1..], m, repl)
  {
  }

  lemma PrefixCons(l: string, i: int)
    requires 1 <= i <= |l|
    ensures l[..i] == [l[0]] + l[1..][..i - 1]
  {
  }

  /** `RewriteLine` keeps a line without `m`, and otherwise keeps exactly the
      text before the first occurrence and replaces the rest by `repl`. */
  lemma RewriteLineSpec(l: string, m: string, repl: string)
    requires m != []
    ensures !Contains(l, m) ==> RewriteLine(l, m, repl) == l
    ensures Contains(l, m) ==> RewriteLine(l, m, repl) == l[..IndexOf(l, m).value] + repl
  {
    if Contains(l, m) {
      RewriteLineAt(l, m, repl, IndexOf(l, m).value);
    } else {
      RewriteLineNone(l, m, repl);
    }
  }

  /** Rewriting a line keeps it a single line. */
  lemma {:induction false} RewriteLineNoNewline(l: string, m: string, repl: string)
    requires '\n' !in l && '\n' !in repl
    ensures '\n' !in RewriteLine(l, m, repl)
    decreases |l|
  {
    if l != [] && !OccursAt(l, m, 0) {
      assert l == [l[0]] + l[1..];
      RewriteLineNoNewline(l[1..], m, repl);
    }
  }

  /** When `repl` itself starts with a marker whose occurrences cannot
      overlap, rewriting a line twice rewrites it once. */
  lemma RewriteLineIdempotent(l: string, m: string, repl: string)
    requires LastUnique(m) && |m| <= |repl| && repl[..|m|] == m
    ensures RewriteLine(RewriteLine(l, m, repl), m, repl) == RewriteLine(l, m, repl)
  {
    RewriteLineSpec(l, m, repl);
    if Contains(l, m) {
      var i := IndexOf(l, m).value;
      var p := l[..i];
      assert !Contains(p, m) by {
        forall q | OccursAt(p, m, q)
          ensures false
        {
          OccursInPrefix(l, i, m, q);
        }
      }
      assert repl == m + repl[|m|..];
      FirstAfterClean(p, m, repl[|m|..]);
      assert p + repl == p + m + repl[|m|..];
      RewriteLineSpec(p + repl, m, repl);
      assert (p + repl)[..i] == p;
    }
  }

  // ---------------------------------------------------------------------------
  // The per-line reference, one step at a time
  // ---------------------------------------------------------------------------

  /** The first line of a text that does not start with a line feed is its
      first character followed by the first line of the tail. */
  lemma LinesCons(s: string)
    requires s != [] && s[0] != '\n'
    ensures Lines(s)[0] == [s[0]] + Lines(s[1..])[0]
    ensures Lines(s)[1..] == Lines(s[1..])[1..]
  {
    var k := SpanEnd(s, 0, NotNewline);
    var t := s[1..];
    forall i | 0 <= i < k - 1
      ensures NotNewline(t[i])
    {
      assert t[i] == s[i + 1];
    }
    SpanEndIs(t, 0, NotNewline, k - 1);
    assert s[..k] == [s[0]] + t[..k - 1];
    if k < |s| {
      assert t[k..] == s[k + 1..];
    } else {
      assert t[..k - 1] == t;
    }
  }

  /** The first line of a text that starts with a line feed is empty. */
  lemma LinesNewline(s: string)
    requires s != [] && s[0] == '\n'
    ensures Lines(s) == [""] + Lines(s[1..])
  {
    SpanEndIs(s, 0, NotNewline, 0);
  }

  lemma PerLineNewline(s: string, m: string, repl: string)
    requires s != [] && s[0] == '\n'
    ensures PerLine(s, m, repl) == "\n" + PerLine(s[1..], m, repl)
  {
    LinesNewline(s);
    var rs := RewriteEach(Lines(s), m, repl);
    assert rs[1..] == RewriteEach(Lines(s[1..]), m, repl);
  }

  lemma PerLineChar(s: string, m: string, repl: string)
    requires s != [] && s[0] != '\n' && !OccursAt(Lines(s)[0], m, 0)
    ensures PerLine(s, m, repl) == [s[0]] + PerLine(s[1..], m, repl)
  {
    LinesCons(s);
    var ls, lt := Lines(s), Lines(s[1..]);
    var rs, rt := RewriteEach(ls, m, repl), RewriteEach(lt, m, repl);
    assert rs[0] == [s[0]] + rt[0] by {
      assert ls[0][1..] == lt[0];
    }
    assert rs[1..] == rt[1..];
    UnlinesFirstGrows(s[0], rs, rt);
  }

  /** The per-line reading splits after the first line. */
  lemma PerLineFirst(s: string, m: string, repl: string)
    ensures PerLine(s, m, repl)
      == RewriteLine(s[..SpanEnd(s, 0, NotNewline)], m, repl) + PerLine(s[SpanEnd(s, 0, NotNewline)..], m, repl)
  {
    var k := SpanEnd(s, 0, NotNewline);
    var rs := RewriteEach(Lines(s), m, repl);
    if k == |s| {
      assert s[..k] == s;
      assert s[k..] == [];
    } else {
      LinesNewline(s[k..]);
      assert s[k..][1..] == s[k + 1..];
      assert rs[1..] == RewriteEach(Lines(s[k + 1..]), m, repl);
      PerLineNewline(s[k..], m, repl);
    }
  }

  /** A line feed-free marker at the front makes the whole first line `repl`. */
  lemma PerLineMarked(s: string, m: string, repl: string)
    requires m != [] && '\n' !in m && OccursAt(s, m, 0)
    ensures SpanEnd(s, |m|, NotNewline) == SpanEnd(s, 0, NotNewline)
    ensures PerLine(s, m, repl) == repl + PerLine(s[SpanEnd(s, 0, NotNewline)..], m, repl)
  {
    var k := SpanEnd(s, 0, NotNewline);
    forall i | 0 <= i < |m|
      ensures NotNewline(s[i])
    {
      OccursChar(s, m, 0, i);
    }
    SpanEndIs(s, 0, NotNewline, SpanEnd(s, |m|, NotNewline));
    assert OccursAt(s[..k], m, 0) by {
      assert s[..k][..|m|] == s[..|m|];
    }
    PerLineFirst(s, m, repl);
  }

  // ---------------------------------------------------------------------------
  // The scan agrees with the per-line reference
  // ---------------------------------------------------------------------------

  /** The scan and the per-line reading agree on every input. */
  lemma {:induction false} SubIsPerLine(s: string, m: string, repl: string)
    requires m != [] && '\n' !in m
    ensures Sub(s, m, repl) == PerLine(s, m, repl)
    decreases |s|
  {
    if s == [] {
    } else if OccursAt(s, m, 0) {
      PerLineMarked(s, m, repl);
      SubIsPerLine(s[SpanEnd(s, 0, NotNewline)..], m, repl);
    } else if s[0] == '\n' {
      PerLineNewline(s, m, repl);
      SubIsPerLine(s[1..], m, repl);
    } else {
      assert !OccursAt(Lines(s)[0], m, 0) by {
        var k := SpanEnd(s, 0, NotNewline);
        if OccursAt(s[..k], m, 0) {
          OccursInPrefix(s, k, m, 0);
        }
      }
      PerLineChar(s, m, repl);
      SubIsPerLine(s[1..], m, repl);
    }
  }

  /** The line view of the substitution: the output has exactly the input's
      lines, each rewritten on its own. */
  lemma SubLines(s: string, m: string, repl: string)
    requires m != [] && '\n' !in m && '\n' !in repl
    ensures Lines(Sub(s, m, repl)) == RewriteEach(Lines(s), m, repl)
  {
    SubIsPerLine(s, m, repl);
    var ls := Lines(s);
    forall k | 0 <= k < |ls|
      ensures '\n' !in RewriteLine(ls[k], m, repl)
    {
      RewriteLineNoNewline(ls[k], m, repl);
    }
    LinesOfUnlines(RewriteEach(ls, m, repl));
  }

  /** The substitution on a three-line text, from what it does to each line. */
  lemma SubThreeLines(a: string, b: string, c: string, m: string, repl: string)
    requires m != [] && '\n' !in m
    requires '\n' !in a && '\n' !in b && '\n' !in c
    ensures Sub(a + ("\n" + (b + ("\n" + c))), m, repl)
      == RewriteLine(a, m, repl) + ("\n" + (RewriteLine(b, m, repl) + ("\n" + RewriteLine(c, m, repl))))
  {
    var s := a + ("\n" + (b + ("\n" + c)));
    ThreeLines(a, b, c);
    SubIsPerLine(s, m, repl);
    var rs := RewriteEach([a, b, c], m, repl);
    assert rs == [RewriteLine(a, m, repl), RewriteLine(b, m, repl), RewriteLine(c, m, repl)];
    UnlinesThree(rs[0], rs[1], rs[2]);
  }

  /** A text whose every line the rewrite leaves alone is left alone. */
  lemma SubFixed(s: string, m: string, repl: string)
    requires m != [] && '\n' !in m
    requires forall k :: 0 <= k < |Lines(s)| ==> RewriteLine(Lines(s)[k], m, repl) == Lines(s)[k]
    ensures Sub(s, m, repl) == s
  {
    SubIsPerLine(s, m, repl);
    assert RewriteEach(Lines(s), m, repl) == Lines(s);
  }

  /** Text without the marker is left alone; text with it receives `repl`. */
  lemma {:induction false} SubMarker(s: string, m: string, repl: string)
    requires m != []
    ensures !Contains(s, m) ==> Sub(s, m, repl) == s
    ensures Contains(s, m) ==> Contains(Sub(s, m, repl), repl)
    decreases |s|
  {
    if s == [] {
    } else if OccursAt(s, m, 0) {
      PrefixOccurs(repl, Sub(s[SpanEnd(s, |m|, NotNewline)..], m, repl));
    } else {
      var t := s[1..];
      SubMarker(t, m, repl);
      if Contains(t, m) {
        var q :| 0 <= q <= |t| && OccursAt(t, m, q);
        OccursTail(s, m, q + 1);
        var j :| 0 <= j <= |Sub(t, m, repl)| && OccursAt(Sub(t, m, repl), repl, j);
        OccursInRight([s[0]], Sub(t, m, repl), repl, j);
      } else {
        assert !Contains(s, m) by {
          forall q | OccursAt(s, m, q)
            ensures false
          {
            OccursTail(s, m, q);
          }
        }
        assert s == [s[0]] + t;
      }
    }
  }

  /** In a text the substitution leaves alone, the first occurrence of the
      marker starts an occurrence of `repl`. */
  lemma {:induction false} FixedStartsRepl(s: string, m: string, repl: string, j: nat)
    requires m != [] && Sub(s, m, repl) == s
    requires OccursAt(s, m, j) && forall q :: 0 <= q < j ==> !OccursAt(s, m, q)
    ensures OccursAt(s, repl, j)
    decreases j
  {
    if j == 0 {
      PrefixOccurs(repl, Sub(s[SpanEnd(s, |m|, NotNewline)..], m, repl));
    } else {
      var t := s[1..];
      assert Sub(t, m, repl) == t by {
        assert [s[0]] + Sub(t, m, repl) == [s[0]] + t;
        assert Sub(t, m, repl) == ([s[0]] + Sub(t, m, repl))[1..];
      }
      OccursTail(s, m, j);
      forall q | 0 <= q < j - 1
        ensures !OccursAt(t, m, q)
      {
        OccursTail(s, m, q + 1);
      }
      FixedStartsRepl(t, m, repl, j - 1);
      OccursTail(s, repl, j);
    }
  }

  /** Under the idempotence conditions of `RewriteLineIdempotent` the whole
      substitution is idempotent. */
  lemma SubIdempotent(s: string, m: string, repl: string)
    requires LastUnique(m) && |m| <= |repl| && repl[..|m|] == m
    requires '\n' !in m && '\n' !in repl
    ensures Sub(Sub(s, m, repl), m, repl) == Sub(s, m, repl)
  {
    var r := Sub(s, m, repl);
    SubLines(s, m, repl);
    forall k | 0 <= k < |Lines(r)|
      ensures RewriteLine(Lines(r)[k], m, repl) == Lines(r)[k]
    {
      RewriteLineIdempotent(Lines(s)[k], m, repl);
    }
    SubFixed(r, m, repl);
  }
}
