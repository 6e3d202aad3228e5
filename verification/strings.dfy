/** Text primitives shared by the screening back end and the React front end:
    substring search, character classes of the two regex dialects, Python's
    `str.strip()`, decimal digits, and splitting a text into lines. */
module Strings {
  import opened Wrappers

  // ---------------------------------------------------------------------------
  // Substrings
  // ---------------------------------------------------------------------------

  /** `s` holds `m` starting at index `i`. */
  predicate OccursAt(s: string, m: string, i: int)
  {
    0 <= i && i + |m| <= |s| && s[i..i + |m|] == m
  }

  /** Python's `m in s` and JavaScript's `s.includes(m)`. */
  predicate Contains(s: string, m: string)
  {
    exists i :: 0 <= i <= |s| && OccursAt(s, m, i)
  }

  /** The first occurrence of `m` in `s` at or after index `k`. */
  function IndexFrom(s: string, m: string, k: nat): (r: Option<nat>)
    decreases |s| - k
    ensures r.Some? ==> k <= r.value && OccursAt(s, m, r.value)
    ensures r.Some? ==> forall j :: k <= j < r.value ==> !OccursAt(s, m, j)
    ensures r.None? ==> forall j :: k <= j ==> !OccursAt(s, m, j)
  {
    if k + |m| > |s| then None
    else if s[k..k + |m|] == m then Some(k)
    else IndexFrom(s, m, k + 1)
  }

  /** The leftmost occurrence of `m` in `s`, which is also where a regular
      expression that is the literal `m` first matches. */
  function IndexOf(s: string, m: string): (r: Option<nat>)
    ensures r.Some? ==> OccursAt(s, m, r.value)
    ensures r.Some? ==> forall j :: 0 <= j < r.value ==> !OccursAt(s, m, j)
    ensures r.None? <==> !Contains(s, m)
  {
    IndexFrom(s, m, 0)
  }

  /** The leftmost occurrence is the only one with no occurrence before it. */
  lemma IndexOfIs(s: string, m: string, i: int)
    requires OccursAt(s, m, i)
    requires forall j :: 0 <= j < i ==> !OccursAt(s, m, j)
    ensures IndexOf(s, m) == Some(i)
  {
  }

  lemma OccursInLeft(a: string, b: string, m: string, i: int)
    requires OccursAt(a, m, i)
    ensures OccursAt(a + b, m, i)
  {
    assert (a + b)[i..i + |m|] == a[i..i + |m|];
  }

  lemma OccursInRight(a: string, b: string, m: string, i: int)
    requires OccursAt(b, m, i)
    ensures OccursAt(a + b, m, |a| + i)
  {
    assert (a + b)[|a| + i..|a| + i + |m|] == b[i..i + |m|];
  }

  /** An occurrence in `a + b` that lies wholly on one side is an occurrence there. */
  lemma OccursSplit(a: string, b: string, m: string, i: int)
    requires OccursAt(a + b, m, i)
    ensures i + |m| <= |a| ==> OccursAt(a, m, i)
    ensures |a| <= i ==> OccursAt(b, m, i - |a|)
  {
    if i + |m| <= |a| {
      assert (a + b)[i..i + |m|] == a[i..i + |m|];
    }
    if |a| <= i {
      assert (a + b)[i..i + |m|] == b[i - |a|..i - |a| + |m|];
    }
  }

  /** The character at offset `e` of an occurrence. */
  lemma OccursChar(s: string, m: string, i: int, e: int)
    requires OccursAt(s, m, i) && 0 <= e < |m|
    ensures s[i + e] == m[e]
  {
    assert s[i..i + |m|][e] == s[i + e];
  }

  lemma PrefixOccurs(a: string, b: string)
    ensures OccursAt(a + b, a, 0)
  {
    assert (a + b)[..|a|] == a;
  }

  /** An occurrence inside a prefix of `s` is an occurrence in `s`. */
  lemma OccursInPrefix(s: string, k: int, m: string, i: int)
    requires 0 <= k <= |s| && OccursAt(s[..k], m, i)
    ensures OccursAt(s, m, i)
  {
    assert s == s[..k] + s[k..];
    OccursInLeft(s[..k], s[k..], m, i);
  }

  /** An occurrence of `x` is also one of every prefix `y` of `x`. */
  lemma OccursStart(s: string, x: string, y: string, j: int)
    requires OccursAt(s, x, j) && |y| <= |x| && x[..|y|] == y
    ensures OccursAt(s, y, j)
  {
    assert s[j..j + |y|] == s[j..j + |x|][..|y|];
  }

  /** A text missing one of the marker's characters cannot hold the marker. */
  lemma MissingChar(s: string, m: string, e: int)
    requires 0 <= e < |m| && m[e] !in s
    ensures !Contains(s, m)
  {
    forall i | OccursAt(s, m, i)
      ensures false
    {
      OccursChar(s, m, i, e);
    }
  }

  /** `a + b` holds no occurrence of `m` when neither part does and `b`'s first
      character appears nowhere in `m` but at its head, so that no occurrence
      can start in `a` and end in `b`. */
  lemma NoOccurrenceAcross(a: string, b: string, m: string)
    requires !Contains(a, m) && !Contains(b, m)
    requires b != [] && m != [] ==> b[0] !in m[1..]
    ensures !Contains(a + b, m)
  {
    forall i | OccursAt(a + b, m, i)
      ensures false
    {
      OccursSplit(a, b, m, i);
      if |a| < i + |m| && i < |a| {
        OccursChar(a + b, m, i, |a| - i);
      }
    }
  }

  /** The last character of `m` occurs nowhere else in `m`, so that two
      occurrences of `m` never overlap. */
  predicate LastUnique(m: string)
  {
    m != [] && forall k :: 0 <= k < |m| - 1 ==> m[k] != m[|m| - 1]
  }

  /** When `a` holds no occurrence of a `LastUnique` marker `m`, the first
      occurrence of `m` in `a + m + tail` is the one right after `a`. */
  lemma FirstAfterClean(a: string, m: string, tail: string)
    requires LastUnique(m) && !Contains(a, m)
    ensures IndexOf(a + m + tail, m) == Some(|a|)
  {
    var s := a + m + tail;
    assert s == a + (m + tail);
    assert OccursAt(m + tail, m, 0) by {
      assert (m + tail)[..|m|] == m;
    }
    OccursInRight(a, m + tail, m, 0);
    forall j | 0 <= j < |a| && OccursAt(s, m, j)
      ensures false
    {
      if j + |m| <= |a| {
        OccursSplit(a, m + tail, m, j);
      } else {
        OccursChar(s, m, j, |m| - 1);
        OccursChar(s, m, |a|, j + |m| - 1 - |a|);
      }
    }
    IndexOfIs(s, m, |a|);
  }

  // ---------------------------------------------------------------------------
  // Spans of characters of one class
  // ---------------------------------------------------------------------------

  /** The end of the run of characters satisfying `p` that starts at `k`:
      what a greedy `[class]*` consumes there. */
  function SpanEnd(s: string, k: nat, p: char -> bool): (e: nat)
    requires k <= |s|
    decreases |s| - k
    ensures k <= e <= |s|
    ensures forall i :: k <= i < e ==> p(s[i])
    ensures e < |s| ==> !p(s[e])
  {
    if k == |s| || !p(s[k]) then k else SpanEnd(s, k + 1, p)
  }

  lemma SpanEndIs(s: string, k: nat, p: char -> bool, e: nat)
    requires k <= e <= |s|
    requires forall i :: k <= i < e ==> p(s[i])
    requires e < |s| ==> !p(s[e])
    ensures SpanEnd(s, k, p) == e
  {
  }

  /** `.` in a Python regular expression: anything but a line feed. */
  predicate NotNewline(c: char)
  {
    c != '\n'
  }

  /** The characters Python's `str.isspace()` accepts; `\s` in a `re` pattern
      over `str` and the argument-less `str.strip()` both use this class. */
  predicate IsPySpace(c: char)
  {
    || ('\t' <= c <= '\r')
    || ('\U{1C}' <= c <= '\U{1F}')
    || c == ' ' || c == '\U{85}' || c == '\U{A0}' || c == '\U{1680}'
    || ('\U{2000}' <= c <= '\U{200A}')
    || c == '\U{2028}' || c == '\U{2029}' || c == '\U{202F}' || c == '\U{205F}'
    || c == '\U{3000}'
  }

  /** The characters `\s` matches in a JavaScript regular expression: the
      ECMAScript WhiteSpace and LineTerminator sets. */
  predicate IsJsSpace(c: char)
  {
    || ('\t' <= c <= '\r')
    || c == ' ' || c == '\U{A0}' || c == '\U{1680}'
    || ('\U{2000}' <= c <= '\U{200A}')
    || c == '\U{2028}' || c == '\U{2029}' || c == '\U{202F}' || c == '\U{205F}'
    || c == '\U{3000}' || c == '\U{FEFF}'
  }

  // ---------------------------------------------------------------------------
  // str.strip()
  // ---------------------------------------------------------------------------

  predicate AllPySpace(s: string)
  {
    forall i :: 0 <= i < |s| ==> IsPySpace(s[i])
  }

  /** The smallest `b >= lo` such that `s[b..hi]` is all whitespace. */
  function TrimEnd(s: string, lo: nat, hi: nat): (b: nat)
    requires lo <= hi <= |s|
    decreases hi - lo
    ensures lo <= b <= hi
    ensures forall i :: b <= i < hi ==> IsPySpace(s[i])
    ensures b > lo ==> !IsPySpace(s[b - 1])
  {
    if hi == lo || !IsPySpace(s[hi - 1]) then hi else TrimEnd(s, lo, hi - 1)
  }

  /** Python's `s.strip()` with no argument: `s` with the whitespace at both
      ends removed. */
  function Strip(s: string): (r: string)
    ensures exists a :: OccursAt(s, r, a) && AllPySpace(s[..a]) && AllPySpace(s[a + |r|..])
    ensures r != [] ==> !IsPySpace(r[0]) && !IsPySpace(r[|r| - 1])
  {
    var a := SpanEnd(s, 0, IsPySpace);
    var b := TrimEnd(s, a, |s|);
    assert OccursAt(s, s[a..b], a);
    s[a..b]
  }

  /** Stripping twice strips nothing more. */
  lemma StripIdempotent(s: string)
    ensures Strip(Strip(s)) == Strip(s)
  {
    var r := Strip(s);
    SpanEndIs(r, 0, IsPySpace, 0);
    if r != [] {
      assert TrimEnd(r, 0, |r|) == |r|;
    }
    assert r[0..|r|] == r;
  }

  // ---------------------------------------------------------------------------
  // Decimal digits
  // ---------------------------------------------------------------------------

  /** `\d`, restricted to the ASCII digits. */
  predicate IsDigit(c: char)
  {
    '0' <= c <= '9'
  }

  predicate AllDigits(s: string)
  {
    forall i :: 0 <= i < |s| ==> IsDigit(s[i])
  }

  /** Python's `int(ds)` for a string of ASCII digits (leading zeros allowed). */
  function DigitsValue(ds: string): nat
    requires AllDigits(ds)
    decreases |ds|
  {
    if ds == [] then 0
    else 10 * DigitsValue(ds[..|ds| - 1]) + (ds[|ds| - 1] as int - '0' as int)
  }

  /** The decimal numeral of `n` without leading zeros, as JavaScript's
      `String(n)` writes a non-negative integer. */
  function NatToDecimal(n: nat): (ds: string)
    decreases n
    ensures ds != [] && AllDigits(ds)
    ensures DigitsValue(ds) == n
    ensures |ds| > 1 ==> ds[0] != '0'
  {
    if n < 10 then [('0' as int + n) as char]
    else
      var init := NatToDecimal(n / 10);
      var ds := init + [('0' as int + n % 10) as char];
      assert ds[..|ds| - 1] == init;
      ds
  }

  /** Reading back a numeral without leading zeros gives the numeral again. */
  lemma {:induction false} DecimalOfDigits(ds: string)
    requires ds != [] && AllDigits(ds)
    requires |ds| > 1 ==> ds[0] != '0'
    ensures NatToDecimal(DigitsValue(ds)) == ds
    decreases |ds|
  {
    var n := DigitsValue(ds);
    var last := ds[|ds| - 1] as int - '0' as int;
    if |ds| == 1 {
      assert ds[..0] == [];
      assert n == last;
      assert ds == [('0' as int + n) as char];
    } else {
      var init := ds[..|ds| - 1];
      assert init[0] == ds[0];
      DecimalOfDigits(init);
      assert n == 10 * DigitsValue(init) + last;
      NonZeroLead(init);
      assert n / 10 == DigitsValue(init) && n % 10 == last;
      assert ds == init + [ds[|ds| - 1]];
    }
  }

  /** A numeral of two or more digits that does not start with `0` has value at least one. */
  lemma {:induction false} NonZeroLead(ds: string)
    requires ds != [] && AllDigits(ds) && ds[0] != '0'
    ensures DigitsValue(ds) >= 1
    decreases |ds|
  {
    if |ds| > 1 {
      var init := ds[..|ds| - 1];
      assert init[0] == ds[0];
      NonZeroLead(init);
    } else {
      assert ds[..0] == [];
    }
  }

  // ---------------------------------------------------------------------------
  // Lines
  // ---------------------------------------------------------------------------

  /** Joins lines with a line feed between neighbours, like `'\n'.join(ls)`. */
  function Unlines(ls: seq<string>): string
    decreases |ls|
  {
    if |ls| == 0 then ""
    else if |ls| == 1 then ls[0]
    else ls[0] + ("\n" + Unlines(ls[1..]))
  }

  /** Putting a character in front of the first line puts it in front of the
      joined text. */
  lemma UnlinesFirstGrows(c: char, ls: seq<string>, lt: seq<string>)
    requires |ls| == |lt| > 0 && ls[0] == [c] + lt[0] && ls[1..] == lt[1..]
    ensures Unlines(ls) == [c] + Unlines(lt)
  {
    if |lt| > 1 {
      var x, y := lt[0], "\n" + Unlines(lt[1..]);
      assert Unlines(ls) == ([c] + x) + y;
      assert ([c] + x) + y == [c] + (x + y);
    }
  }

  /** Splits at every line feed, like Python's `s.split('\n')`: there is
      always at least one line, and no line holds a line feed. */
  function Lines(s: string): (ls: seq<string>)
    decreases |s|
    ensures |ls| >= 1
    ensures forall k :: 0 <= k < |ls| ==> '\n' !in ls[k]
    ensures Unlines(ls) == s
  {
    var k := SpanEnd(s, 0, NotNewline);
    assert forall i :: 0 <= i < k ==> s[..k][i] != '\n';
    if k == |s| then
      assert s[..k] == s;
      [s]
    else
      var rest := Lines(s[k + 1..]);
      assert s == s[..k] + ("\n" + s[k + 1..]);
      [s[..k]] + rest
  }

  /** A text without a line feed is one line. */
  lemma LinesSingle(h: string)
    requires '\n' !in h
    ensures Lines(h) == [h]
  {
    SpanEndIs(h, 0, NotNewline, |h|);
    assert h[..|h|] == h;
  }

  /** The pieces of `h + ("\n" + t)`. */
  lemma JoinParts(h: string, t: string)
    ensures (h + ("\n" + t))[..|h|] == h
    ensures (h + ("\n" + t))[|h|] == '\n'
    ensures (h + ("\n" + t))[|h| + 1..] == t
  {
  }

  /** A line without a line feed, a line feed, then more text: the first line
      and the lines of the rest. */
  lemma LinesJoin(h: string, t: string)
    requires '\n' !in h
    ensures Lines(h + ("\n" + t)) == [h] + Lines(t)
  {
    var s := h + ("\n" + t);
    JoinParts(h, t);
    forall i | 0 <= i < |h|
      ensures NotNewline(s[i])
    {
      assert s[i] == s[..|h|][i];
    }
    SpanEndIs(s, 0, NotNewline, |h|);
  }

  /** Splitting joined lines gives the lines back. */
  lemma {:induction false} LinesOfUnlines(ls: seq<string>)
    requires |ls| >= 1
    requires forall k :: 0 <= k < |ls| ==> '\n' !in ls[k]
    ensures Lines(Unlines(ls)) == ls
    decreases |ls|
  {
    if |ls| == 1 {
      LinesSingle(ls[0]);
    } else {
      LinesJoin(ls[0], Unlines(ls[1..]));
      LinesOfUnlines(ls[1..]);
      assert ls == [ls[0]] + ls[1..];
    }
  }

  /** Joining three lines. */
  lemma UnlinesThree(a: string, b: string, c: string)
    ensures Unlines([a, b, c]) == a + ("\n" + (b + ("\n" + c)))
  {
    assert [a, b, c][1..] == [b, c] && [b, c][1..] == [c];
    assert Unlines([c]) == c;
    assert Unlines([b, c]) == b + ("\n" + c);
  }

  /** Three lines joined split back into the same three lines. */
  lemma ThreeLines(a: string, b: string, c: string)
    requires '\n' !in a && '\n' !in b && '\n' !in c
    ensures Lines(a + ("\n" + (b + ("\n" + c)))) == [a, b, c]
  {
    LinesJoin(a, b + ("\n" + c));
    LinesJoin(b, c);
    LinesSingle(c);
  }

  /** Joining is associative across a line feed. */
  lemma {:induction false} UnlinesAppend(xs: seq<string>, ys: seq<string>)
    requires |xs| >= 1 && |ys| >= 1
    ensures Unlines(xs + ys) == Unlines(xs) + ("\n" + Unlines(ys))
    decreases |xs|
  {
    if |xs| == 1 {
      assert (xs + ys)[1..] == ys;
    } else {
      assert (xs + ys)[1..] == xs[1..] + ys;
      UnlinesAppend(xs[1..], ys);
    }
  }

  /** Appending a line feed and more text appends lines. */
  lemma LinesAppend(a: string, b: string)
    ensures Lines(a + ("\n" + b)) == Lines(a) + Lines(b)
  {
    UnlinesAppend(Lines(a), Lines(b));
    LinesOfUnlines(Lines(a) + Lines(b));
  }

  /** A marker without a line feed cannot start in one line and end in the
      next. */
  lemma NoOccurrenceAcrossNewline(a: string, b: string, m: string)
    requires m != [] && '\n' !in m
    requires !Contains(a, m) && !Contains(b, m)
    ensures !Contains(a + ("\n" + b), m)
  {
    var nb := "\n" + b;
    assert (a + nb)[|a|] == '\n';
    forall i | OccursAt(a + nb, m, i)
      ensures false
    {
      OccursSplit(a, nb, m, i);
      if i <= |a| < i + |m| {
        OccursChar(a + nb, m, i, |a| - i);
      } else if |a| < i {
        OccursSplit("\n", b, m, i - |a|);
      }
    }
  }

  /** A marker without a line feed that no line holds is not in the joined
      text. */
  lemma {:induction false} NoLineContains(ls: seq<string>, m: string)
    requires m != [] && '\n' !in m
    requires forall k :: 0 <= k < |ls| ==> !Contains(ls[k], m)
    ensures !Contains(Unlines(ls), m)
    decreases |ls|
  {
    if |ls| == 0 {
      assert Unlines(ls) == "";
    } else if |ls| > 1 {
      NoLineContains(ls[1..], m);
      NoOccurrenceAcrossNewline(ls[0], Unlines(ls[1..]), m);
    }
  }

  /** An occurrence inside one line is an occurrence in the joined text. */
  lemma {:induction false} ContainsFromLine(ls: seq<string>, k: int, m: string)
    requires 0 <= k < |ls| && Contains(ls[k], m)
    ensures Contains(Unlines(ls), m)
    decreases |ls|
  {
    var i :| OccursAt(ls[k], m, i);
    if |ls| == 1 {
    } else if k == 0 {
      OccursInLeft(ls[0], "\n" + Unlines(ls[1..]), m, i);
    } else {
      ContainsFromLine(ls[1..], k - 1, m);
      var j :| OccursAt(Unlines(ls[1..]), m, j);
      assert Unlines(ls) == (ls[0] + "\n") + Unlines(ls[1..]) by {
        assert (ls[0] + "\n") + Unlines(ls[1..]) == ls[0] + ("\n" + Unlines(ls[1..]));
      }
      OccursInRight(ls[0] + "\n", Unlines(ls[1..]), m, j);
    }
  }
}
