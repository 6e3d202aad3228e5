/** The back end's batch endpoint (`analyze_resumes`): each uploaded file is
    routed by its lower-cased extension, screened when it is a PDF or DOCX
    file, and turned into one record of the response, in upload order. Text
    extraction is a parameter. */
module Batch {
  import opened Wrappers
  import opened Strings
  import opened Screening

  /** An uploaded file: the name the client sent, if any, and its bytes. */
  datatype Upload = Upload(filename: Option<string>, content: seq<Byte>)

  /** The two formats the endpoint extracts text from. */
  datatype Format = Pdf | Docx

  /** One entry of the response: the analysis, or an error message. */
  datatype Outcome = Scored(report: Report) | Failed(error: string)
  datatype Record = Record(filename: string, outcome: Outcome)

  const UnsupportedMessage: string := "Unsupported file type. Only PDF and DOCX are allowed."

  /** `file.filename or ""`. */
  function FilenameOf(u: Upload): string
  {
    if u.filename.Some? then u.filename.value else ""
  }

  // ---------------------------------------------------------------------------
  // os.path.splitext (POSIX) and str.lower
  // ---------------------------------------------------------------------------

  /** `s.rfind(c)`: the last index of `c`, or -1. */
  function LastIndex(s: string, c: char): (r: int)
    ensures -1 <= r < |s|
    ensures r >= 0 ==> s[r] == c
    ensures forall j :: r < j < |s| ==> s[j] != c
  {
    if s == [] then -1
    else if s[|s| - 1] == c then |s| - 1
    else LastIndex(s[..|s| - 1], c)
  }

  /** Nothing but dots (the loop that skips a component's leading dots). */
  predicate AllDots(s: string)
  {
    forall i :: 0 <= i < |s| ==> s[i] == '.'
  }

  /** Where `os.path.splitext` (POSIX) splits `p`: at the last `.` of the
      last path component, unless everything in that component before the
      `.` is a dot too; at the end of `p` when there is no extension. */
  function ExtStart(p: string): (d: nat)
    ensures d <= |p|
    ensures d < |p| ==> p[d] == '.'
    ensures forall j :: d < j < |p| ==> p[j] != '.' && p[j] != '/'
  {
    var sep := LastIndex(p, '/');
    var dot := LastIndex(p, '.');
    if dot > sep && !AllDots(p[sep + 1..dot]) then dot else |p|
  }

  /** What `os.path.splitext` can return as an extension: a dot followed by
      neither dots nor slashes. */
  predicate IsExt(e: string)
  {
    e != [] && e[0] == '.' && forall i :: 0 < i < |e| ==> e[i] != '.' && e[i] != '/'
  }

  /** The last path component of `stem` holds some character other than a
      dot, so a dot right after `stem` starts an extension. */
  predicate NamedStem(stem: string)
  {
    exists i :: 0 <= i < |stem| && stem[i] != '.' && stem[i] != '/'
      && forall j :: i < j < |stem| ==> stem[j] != '/'
  }

  /** `p` splits at `d` into a stem whose last component is not all dots and
      an extension. */
  predicate Splits(p: string, d: int)
  {
    0 <= d < |p| && NamedStem(p[..d]) && IsExt(p[d..])
  }

  /** The last index of `c` is `r` when `s[r]` is `c` and no later index is. */
  lemma LastIndexIs(s: string, c: char, r: nat)
    requires r < |s| && s[r] == c
    requires forall j :: r < j < |s| ==> s[j] != c
    ensures LastIndex(s, c) == r
  {
  }

  /** The last index of `c` lies before `i` when no index from `i` on holds `c`. */
  lemma LastIndexBelow(s: string, c: char, i: nat)
    requires forall j :: i <= j < |s| ==> s[j] != c
    ensures LastIndex(s, c) < i
  {
  }

  /** A stem whose last component has a character other than a dot at `i`. */
  lemma NamedStemAt(stem: string, i: nat)
    requires i < |stem| && stem[i] != '.' && stem[i] != '/'
    requires forall j :: i < j < |stem| ==> stem[j] != '/'
    ensures NamedStem(stem)
  {
  }

  /** `splitext` splits at `d` when `d` holds the last dot, nothing after it
      is a slash, and some character before it in the same component is not
      a dot. */
  lemma ExtStartAt(p: string, d: nat, i: nat)
    requires i < d < |p| && p[d] == '.'
    requires forall j :: d < j < |p| ==> p[j] != '.' && p[j] != '/'
    requires p[i] != '.' && p[i] != '/'
    requires forall j :: i < j < d ==> p[j] != '/'
    ensures ExtStart(p) == d
  {
    LastIndexIs(p, '.', d);
    LastIndexBelow(p, '/', i);
    var sep := LastIndex(p, '/');
    var q := p[sep + 1..d];
    assert q[i - sep - 1] == p[i];
    assert !AllDots(q);
  }

  /** A stem whose last component is not all dots, followed by an extension,
      is split right after the stem. */
  lemma ExtStartOfNamed(stem: string, e: string)
    requires IsExt(e) && NamedStem(stem)
    ensures ExtStart(stem + e) == |stem|
  {
    var p := stem + e;
    var i :| 0 <= i < |stem| && stem[i] != '.' && stem[i] != '/'
      && forall j :: i < j < |stem| ==> stem[j] != '/';
    forall j | |stem| < j < |p|
      ensures p[j] != '.' && p[j] != '/'
    {
      assert p[j] == e[j - |stem|];
    }
    forall j | i <= j < |stem|
      ensures p[j] == stem[j]
    {
    }
    assert p[|stem|] == e[0];
    ExtStartAt(p, |stem|, i);
  }

  /** Where `splitext` splits inside the name, the name before the split is
      a stem whose last component is not all dots. */
  lemma ExtHasStem(p: string)
    requires ExtStart(p) < |p|
    ensures NamedStem(p[..ExtStart(p)])
  {
    var sep := LastIndex(p, '/');
    var dot := LastIndex(p, '.');
    assert ExtStart(p) == dot && sep < dot && !AllDots(p[sep + 1..dot]);
    var q := p[sep + 1..dot];
    var k :| 0 <= k < |q| && q[k] != '.';
    var i := sep + 1 + k;
    assert p[i] == q[k];
    var stem := p[..dot];
    forall j | i <= j < dot
      ensures stem[j] == p[j] && p[j] != '/'
    {
    }
    NamedStemAt(stem, i);
  }

  /** `splitext` splits inside the name exactly when the name splits into a
      stem whose last component is not all dots and an extension, and then
      it splits there. */
  lemma ExtStartSplits(p: string)
    ensures ExtStart(p) < |p| <==> exists d :: Splits(p, d)
    ensures ExtStart(p) < |p| ==> Splits(p, ExtStart(p))
  {
    if exists d :: Splits(p, d) {
      var d :| Splits(p, d);
      ExtStartOfNamed(p[..d], p[d..]);
      assert p[..d] + p[d..] == p;
    }
    var d := ExtStart(p);
    if d < |p| {
      ExtHasStem(p);
      assert forall i :: 0 < i < |p| - d ==> p[d..][i] == p[d + i];
      assert Splits(p, d);
    }
  }

  /** `os.path.splitext(p)[1]`: a suffix of `p` that is empty or an
      extension. It is an extension exactly when `p` splits into a stem whose
      last component is not all dots and an extension, and then it is that
      extension; otherwise it is `""`, as for `a/.pdf` or `.pdf`. */
  function Ext(p: string): (e: string)
    ensures |e| <= |p| && p[|p| - |e|..] == e
    ensures e == [] || IsExt(e)
    ensures e != [] <==> exists d :: Splits(p, d)
    ensures e != [] ==> Splits(p, |p| - |e|)
  {
    var d := ExtStart(p);
    ExtStartSplits(p);
    assert forall i :: 0 < i < |p| - d ==> p[d..][i] == p[d + i];
    p[d..]
  }

  /** A name that ends in an extension after a stem whose last component is
      not all dots has that extension: `cv.pdf`, `cv..pdf` and `a/b..docx`
      alike. */
  lemma ExtOfNamed(stem: string, e: string)
    requires IsExt(e) && NamedStem(stem)
    ensures Ext(stem + e) == e
  {
    ExtStartOfNamed(stem, e);
    assert (stem + e)[|stem|..] == e;
  }

  /** An example: doubled dots before the extension still leave the
      extension, so `cv..pdf` is read as a PDF. */
  lemma DoubledDotExt(stem: string, e: string)
    requires stem == "cv." && e == ".pdf"
    ensures Ext(stem + e) == ".pdf"
  {
    NamedStemAt(stem, 0);
    ExtOfNamed(stem, e);
  }

  /** A last path component made of dots and then an extension, like
      `.pdf` or `a/.pdf`, has no extension. */
  lemma DotNameHasNoExt(dir: string, dots: string, e: string)
    requires dir == [] || dir[|dir| - 1] == '/'
    requires forall i :: 0 <= i < |dots| ==> dots[i] == '.'
    requires IsExt(e)
    ensures Ext(dir + dots + e) == []
  {
    var p := dir + dots + e;
    var d := |dir| + |dots|;
    forall j | d < j < |p|
      ensures p[j] != '.' && p[j] != '/'
    {
      assert p[j] == e[j - d];
    }
    assert p[d] == '.';
    LastIndexIs(p, '.', d);
    if dir != [] {
      assert p[|dir| - 1] == '/';
      forall j | |dir| <= j < |p|
        ensures p[j] != '/'
      {
        if j < d {
          assert p[j] == dots[j - |dir|];
        }
      }
      LastIndexIs(p, '/', |dir| - 1);
    } else {
      forall j | 0 <= j < |p|
        ensures p[j] != '/'
      {
        if j < d {
          assert p[j] == dots[j];
        }
      }
      LastIndexBelow(p, '/', 0);
    }
    var sep := LastIndex(p, '/');
    assert sep == |dir| - 1;
    assert p[sep + 1..d] == dots;
  }

  /** ASCII lower case of one character. */
  function LowerChar(c: char): char
  {
    if 'A' <= c <= 'Z' then (c as int + 32) as char else c
  }

  /** `s.lower()` on ASCII letters; every other character is kept. No upper
      case ASCII letter is left, and a character that is not one is kept. */
  function Lower(s: string): (r: string)
    ensures |r| == |s| && forall i :: 0 <= i < |s| ==> r[i] == LowerChar(s[i])
    ensures forall i :: 0 <= i < |r| ==> !('A' <= r[i] <= 'Z')
    ensures forall i :: 0 <= i < |s| && !('A' <= s[i] <= 'Z') ==> r[i] == s[i]
  {
    seq(|s|, i requires 0 <= i < |s| => LowerChar(s[i]))
  }

  /** Lower-casing twice is lower-casing once. */
  lemma LowerIdempotent(s: string)
    ensures Lower(Lower(s)) == Lower(s)
  {
    var r := Lower(s);
    assert forall i :: 0 <= i < |r| ==> Lower(r)[i] == r[i];
  }

  /** The extension the endpoint accepts. */
  function FormatOf(suffix: string): Option<Format>
  {
    if suffix == ".pdf" then Some(Pdf)
    else if suffix == ".docx" then Some(Docx)
    else None
  }

  /** The comparison ignores case: an extension is read as PDF exactly when
      it is `.pdf` with each letter in either case, and likewise for DOCX. */
  lemma FormatIgnoresCase(e: string)
    ensures FormatOf(Lower(e)) == Some(Pdf) <==>
      |e| == 4 && e[0] == '.' && e[1] in "pP" && e[2] in "dD" && e[3] in "fF"
    ensures FormatOf(Lower(e)) == Some(Docx) <==>
      |e| == 5 && e[0] == '.' && e[1] in "dD" && e[2] in "oO" && e[3] in "cC" && e[4] in "xX"
  {
    var l := Lower(e);
    if |e| == 4 && e[0] == '.' && e[1] in "pP" && e[2] in "dD" && e[3] in "fF" {
      assert l == ".pdf";
    }
    if |e| == 5 && e[0] == '.' && e[1] in "dD" && e[2] in "oO" && e[3] in "cC" && e[4] in "xX" {
      assert l == ".docx";
    }
    if l == ".pdf" {
      assert LowerChar(e[1]) == 'p' && LowerChar(e[2]) == 'd' && LowerChar(e[3]) == 'f';
    }
    if l == ".docx" {
      assert LowerChar(e[1]) == 'd' && LowerChar(e[2]) == 'o' && LowerChar(e[3]) == 'c' && LowerChar(e[4]) == 'x';
    }
  }

  // ---------------------------------------------------------------------------
  // One file, and the batch
  // ---------------------------------------------------------------------------

  /** One iteration of the endpoint's loop. Each record carries its file's
      name. An unsupported file is answered with the unsupported-type error
      whatever the codes; a supported one is screened exactly when both codes
      are known, and otherwise carries the invalid-choice error. Either way a
      supported file's outcome is `analyze_resume` of the text extracted in
      its format. */
  function AnalyzeFile(u: Upload, jd: string, hiring: string, level: string,
                       model: Prompt -> Option<string>, extract: (Format, seq<Byte>) -> string): (r: Record)
    ensures r.filename == FilenameOf(u)
    ensures FormatOf(Lower(Ext(FilenameOf(u)))).None? ==> r.outcome == Failed(UnsupportedMessage)
    ensures r.outcome.Scored? <==>
              FormatOf(Lower(Ext(FilenameOf(u)))).Some?
              && (hiring == "1" || hiring == "2" || hiring == "3") && (level == "1" || level == "2")
    ensures FormatOf(Lower(Ext(FilenameOf(u)))).Some? && r.outcome.Failed? ==>
              r.outcome.error == InvalidChoiceMessage
    ensures FormatOf(Lower(Ext(FilenameOf(u)))).Some? ==>
              AnalyzeResume(jd, extract(FormatOf(Lower(Ext(FilenameOf(u)))).value, u.content), hiring, level, model)
              == if r.outcome.Scored? then Analysed(r.outcome.report) else ChoiceError(r.outcome.error)
  {
    var name := FilenameOf(u);
    match FormatOf(Lower(Ext(name)))
    case None => Record(name, Failed(UnsupportedMessage))
    case Some(f) =>
      match AnalyzeResume(jd, extract(f, u.content), hiring, level, model)
      case ChoiceError(message) => Record(name, Failed(message))
      case Analysed(report) => Record(name, Scored(report))
  }

  /** The endpoint's loop, over any per-file step: one record per file, in
      upload order. */
  method MapFiles(files: seq<Upload>, step: Upload -> Record) returns (results: seq<Record>)
    ensures |results| == |files|
    ensures forall k :: 0 <= k < |files| ==> results[k] == step(files[k])
  {
    results := [];
    var n := 0;
    while n < |files|
      invariant n <= |files| && |results| == n
      invariant forall k :: 0 <= k < n ==> results[k] == step(files[k])
    {
      results := results + [step(files[n])];
      n := n + 1;
    }
  }

  /** `analyze_resumes`: every uploaded file gets its own record, in upload
      order, each computed with the same description and codes. */
  method AnalyzeResumes(jd: string, hiring: string, level: string, files: seq<Upload>,
                        model: Prompt -> Option<string>, extract: (Format, seq<Byte>) -> string)
    returns (results: seq<Record>)
    ensures |results| == |files|
    ensures forall k :: 0 <= k < |files| ==> results[k] == AnalyzeFile(files[k], jd, hiring, level, model, extract)
  {
    results := MapFiles(files, u => AnalyzeFile(u, jd, hiring, level, model, extract));
  }
}
