/** The page and the back end together: the form the page sends, how the
    endpoint binds it, the JSON rows it answers with, and what the results
    table then shows for each staged file. */
module Pipeline {
  import opened Wrappers
  import opened Strings
  import opened LineSub
  import opened Protocol
  import opened Screening
  import opened Batch
  import opened Decision
  import opened App

  // ---------------------------------------------------------------------------
  // Binding the form
  // ---------------------------------------------------------------------------

  /** What the endpoint's four parameters receive. */
  datatype Request = Request(jd: string, hiring: string, level: string, files: seq<Upload>)

  /** A text field of the form, as a single-valued parameter reads it: the
      value of the last field with that name, or none when there is no such
      field. */
  function LastField(parts: seq<Part>, name: string): (v: Option<string>)
    decreases |parts|
    ensures v.Some? ==>
              exists i :: (0 <= i < |parts| && parts[i] == Field(name, v.value)
                && forall j :: i < j < |parts| ==> !(parts[j].Field? && parts[j].name == name))
    ensures v.None? ==> forall p :: p in parts ==> !(p.Field? && p.name == name)
  {
    if parts == [] then None
    else
      var p := parts[|parts| - 1];
      if p.Field? && p.name == name then Some(p.value)
      else
        var init := parts[..|parts| - 1];
        assert forall j :: 0 <= j < |init| ==> init[j] == parts[j];
        assert forall q :: q in parts ==> q in init || q == p;
        LastField(init, name)
  }

  /** A staged file as the endpoint receives it: named, with its bytes. */
  function ToUpload(f: StagedFile): Upload
  {
    Upload(Some(f.name), f.content)
  }

  /** The staged files as the endpoint receives them. */
  function Uploads(fs: seq<StagedFile>): (us: seq<Upload>)
    ensures |us| == |fs|
    ensures forall k :: 0 <= k < |fs| ==> us[k] == ToUpload(fs[k])
  {
    seq(|fs|, k requires 0 <= k < |fs| => ToUpload(fs[k]))
  }

  /** The `files` parameter: every file part named `files`, in order. */
  function FileParts(parts: seq<Part>): seq<Upload>
    decreases |parts|
  {
    if parts == [] then []
    else
      var p := parts[|parts| - 1];
      FileParts(parts[..|parts| - 1]) + (if p.FilePart? && p.name == "files" then [ToUpload(p.file)] else [])
  }

  /** A required form field the binding accepts: present and not empty.
      FastAPI reads an empty string in a form field as a missing value. */
  predicate Filled(v: Option<string>)
  {
    v.Some? && v.value != []
  }

  /** The binding of the endpoint's parameters. All four are required, so a
      missing or empty text field, or an empty file list, rejects the
      request. */
  function ReadForm(parts: seq<Part>): Option<Request>
  {
    var jd := LastField(parts, "job_description");
    var hiring := LastField(parts, "hiring_type");
    var level := LastField(parts, "level");
    var files := FileParts(parts);
    if !Filled(jd) || !Filled(hiring) || !Filled(level) || files == [] then None
    else Some(Request(jd.value, hiring.value, level.value, files))
  }

  /** File parts after the text fields do not change what the text fields read. */
  lemma {:induction false} LastFieldPastFiles(fields: seq<Part>, fs: seq<StagedFile>, name: string)
    ensures LastField(fields + FileSection(fs), name)
         == LastField(fields, name)
    decreases |fs|
  {
    var ps := FileSection(fs);
    if fs != [] {
      var init := fs[..|fs| - 1];
      var qs := FileSection(init);
      assert (fields + ps)[..|fields + ps| - 1] == fields + qs;
      LastFieldPastFiles(fields, init, name);
    } else {
      assert fields + ps == fields;
    }
  }

  /** The file parts of the form bind to the staged files, in order. */
  lemma {:induction false} FilePartsOfFiles(fields: seq<Part>, fs: seq<StagedFile>)
    requires forall p :: p in fields ==> p.Field?
    ensures FileParts(fields + FileSection(fs))
         == Uploads(fs)
    decreases |fields| + |fs|
  {
    var ps := FileSection(fs);
    if fs != [] {
      var init := fs[..|fs| - 1];
      var qs := FileSection(init);
      assert (fields + ps)[..|fields + ps| - 1] == fields + qs;
      FilePartsOfFiles(fields, init);
    } else {
      assert fields + ps == fields;
      FieldsOnly(fields);
    }
  }

  lemma {:induction false} FieldsOnly(fields: seq<Part>)
    requires forall p :: p in fields ==> p.Field?
    ensures FileParts(fields) == []
    decreases |fields|
  {
    if fields != [] {
      var init := fields[..|fields| - 1];
      assert forall p :: p in init ==> p in fields;
      assert fields[|fields| - 1] in fields;
      FieldsOnly(init);
    }
  }

  /** Each text field reads back as the page's value. */
  lemma TextFieldsRead(s: State)
    ensures LastField(TextFields(s), "job_description") == Some(s.jd)
    ensures LastField(TextFields(s), "hiring_type") == Some(s.hiringType)
    ensures LastField(TextFields(s), "level") == Some(s.level)
  {
    var fs := TextFields(s);
    assert fs[..2] == [Field("job_description", s.jd), Field("hiring_type", s.hiringType)];
    assert fs[..2][..1] == [Field("job_description", s.jd)];
    assert fs[..2][..1][..0] == [];
  }

  /** The page's form binds: some file is staged and no text field is empty. */
  predicate Binds(s: State)
  {
    s.files != [] && s.jd != [] && s.hiringType != [] && s.level != []
  }

  /** The endpoint reads back exactly what the page sent: the three fields and
      the staged files in order, unless no file is staged or a field is
      empty, which the endpoint rejects. */
  lemma ReadFormEntries(s: State)
    ensures ReadForm(FormEntries(s)) ==
      if !Binds(s) then None
      else Some(Request(s.jd, s.hiringType, s.level, Uploads(s.files)))
  {
    var fields := TextFields(s);
    TextFieldsRead(s);
    LastFieldPastFiles(fields, s.files, "job_description");
    LastFieldPastFiles(fields, s.files, "hiring_type");
    LastFieldPastFiles(fields, s.files, "level");
    FilePartsOfFiles(fields, s.files);
  }

  // ---------------------------------------------------------------------------
  // The answer
  // ---------------------------------------------------------------------------

  /** A record as a JSON row: a screened file carries the text shown and the
      percentage, a failed one only its error; neither carries `decision`. */
  function ToRow(r: Record): (row: ResultRow)
    ensures row.filename == Some(r.filename) && row.decision.None?
    ensures row.matchPercent.Some? <==> r.outcome.Scored?
    ensures row.error.Some? <==> r.outcome.Failed?
    ensures r.outcome.Scored? ==>
      row.matchPercent == Some(r.outcome.report.matchPercent as int)
      && row.resultText == Some(r.outcome.report.resultText)
    ensures r.outcome.Failed? ==> row.error == Some(r.outcome.error) && row.resultText.None?
  {
    match r.outcome
    case Scored(rep) => ResultRow(Some(r.filename), Some(rep.matchPercent), None, Some(rep.resultText), None)
    case Failed(e) => ResultRow(Some(r.filename), None, None, None, Some(e))
  }

  /** The endpoint's answer to a form: one row per bound file, or, when the
      form does not bind, a body without `results`. */
  function Serve(parts: seq<Part>, model: Prompt -> Option<string>, extract: (Format, seq<Byte>) -> string): Response
  {
    match ReadForm(parts)
    case None => Replied(None)
    case Some(q) =>
      Replied(Some(seq(|q.files|, k requires 0 <= k < |q.files| =>
        ToRow(AnalyzeFile(q.files[k], q.jd, q.hiring, q.level, model, extract)))))
  }

  /** The page after pressing Evaluate and taking in the endpoint's answer. */
  function Round(s: State, model: Prompt -> Option<string>, extract: (Format, seq<Byte>) -> string): State
    requires !s.loading
  {
    var (pressed, form) := PressStep(s);
    SettleStep(pressed, Serve(form.value, model, extract))
  }

  /** After a round whose form binds, the table holds one row per staged
      file, in the order the files were chosen, each for that file under the
      form's description and codes. When it does not bind (no file staged,
      or an empty description or code) the endpoint answers without
      `results` and the table is emptied. The staged files and the form stay
      either way. */
  lemma RoundRows(s: State, model: Prompt -> Option<string>, extract: (Format, seq<Byte>) -> string, k: nat)
    requires !s.loading
    ensures var t := Round(s, model, extract);
      && !t.loading && t.files == s.files && t.jd == s.jd
      && (!Binds(s) ==> t.results == [])
      && (Binds(s) ==> |t.results| == |s.files|)
      && (Binds(s) && k < |s.files| ==>
            t.results[k] == ToRow(AnalyzeFile(ToUpload(s.files[k]), s.jd, s.hiringType, s.level, model, extract)))
  {
    ReadFormEntries(s);
  }

  /** On the page as it first renders the description is empty, so pressing
      Evaluate with files chosen but nothing typed empties the table. */
  lemma FreshPageClears(fs: seq<StagedFile>, model: Prompt -> Option<string>, extract: (Format, seq<Byte>) -> string)
    ensures Round(Initial.(files := fs), model, extract).results == []
  {
    ReadFormEntries(Initial.(files := fs));
  }

  // ---------------------------------------------------------------------------
  // What one row shows
  // ---------------------------------------------------------------------------

  /** The row of a file the endpoint turned away shows `Error`, `-` for the
      percentage, and the message in its details. */
  lemma UnsupportedRowShows(u: Upload, jd: string, hiring: string, level: string,
                            model: Prompt -> Option<string>, extract: (Format, seq<Byte>) -> string)
    requires FormatOf(Lower(Ext(FilenameOf(u)))).None?
    ensures var row := ToRow(AnalyzeFile(u, jd, hiring, level, model, extract));
      ExtractDecision(row) == "Error" && MatchCell(row.matchPercent) == "-"
      && DetailsCell(row) == UnsupportedMessage
  {
    var row := ToRow(AnalyzeFile(u, jd, hiring, level, model, extract));
    assert row.resultText.None? && row.error == Some(UnsupportedMessage);
    assert UnsupportedMessage != [];
  }

  /** With codes the page can send, a file shows `Error` exactly when its
      type is unsupported, and a percentage exactly when it is supported. */
  lemma ErrorOnlyForType(u: Upload, jd: string, hiring: string, level: string,
                         model: Prompt -> Option<string>, extract: (Format, seq<Byte>) -> string)
    requires hiring in HiringOptions && level in LevelOptions
    ensures var row := ToRow(AnalyzeFile(u, jd, hiring, level, model, extract));
      && (ExtractDecision(row) == "Error" <==> FormatOf(Lower(Ext(FilenameOf(u)))).None?)
      && (MatchCell(row.matchPercent) == "-" <==> FormatOf(Lower(Ext(FilenameOf(u)))).None?)
  {
    var row := ToRow(AnalyzeFile(u, jd, hiring, level, model, extract));
    if FormatOf(Lower(Ext(FilenameOf(u)))).None? {
      UnsupportedRowShows(u, jd, hiring, level, model, extract);
    }
  }

  /** A screened reply below the threshold shows `Rejected` whenever some
      line of the reply holds `Decision:` with no reason label before it. */
  lemma BelowThresholdShowsRejected(name: string, text: string, k: nat)
    requires MatchPercent(text) < Threshold
    requires k < |Lines(text)| && DecisionFirst(Lines(text)[k])
    ensures ExtractDecision(ToRow(Record(name, Scored(Score(text))))) == "Rejected"
  {
    var b := RejectBelowThreshold(text);
    DecisionSurvives(text, k);
    var i :| 0 <= i <= |b| && OccursAt(b, RejectDecision, i);
    assert RejectDecision[..9] == DecisionMarker;
    OccursStart(b, RejectDecision, DecisionMarker, i);
    FirstDecisionRejects(text);
    var j := IndexOf(b, DecisionMarker).value;
    TextVerdictAtFirstDecision(b, j);
    assert b != [];
  }

  /** For a screened reply below the threshold the Decision column reads
      `Rejected` exactly when some line holds `Decision:` with no reason label
      before its first `Decision:`, and `-` otherwise: on every other line the
      reason rewrite cuts away the written rejection. */
  lemma BelowThresholdRow(name: string, text: string)
    requires MatchPercent(text) < Threshold
    ensures var d := ExtractDecision(ToRow(Record(name, Scored(Score(text)))));
      && (d == "Rejected" <==> exists k :: 0 <= k < |Lines(text)| && DecisionFirst(Lines(text)[k]))
      && (d != "Rejected" ==> d == "-")
  {
    if exists k :: 0 <= k < |Lines(text)| && DecisionFirst(Lines(text)[k]) {
      var k :| 0 <= k < |Lines(text)| && DecisionFirst(Lines(text)[k]);
      BelowThresholdShowsRejected(name, text, k);
    } else {
      NoDecisionLeft(text);
      NoMarkerNoVerdict(RejectBelowThreshold(text));
    }
  }

  // ---------------------------------------------------------------------------
  // A reply whose reason label comes first
  // ---------------------------------------------------------------------------

  /** A one-line text is rewritten as its only line. */
  lemma SubOneLine(l: string, m: string, repl: string)
    requires m != [] && '\n' !in m && '\n' !in l && '\n' !in repl
    ensures Sub(l, m, repl) == RewriteLine(l, m, repl)
  {
    RewriteLineNoNewline(l, m, repl);
    SubIsPerLine(l, m, repl);
    LinesSingle(l);
    LinesSingle(RewriteLine(l, m, repl));
  }

  /** The reply `Reason (if Rejected): Decision: ✅ Shortlist`. */
  const ReasonFirst: string := ReasonMarker + " " + (DecisionMarker + " " + ShortlistTag)

  lemma ReasonFirstChars()
    ensures '\n' !in ReasonFirst && 'M' !in ReasonFirst
    ensures forall j :: 0 <= j < |ReasonMarker + " "| ==> ReasonFirst[j] != 'D'
    ensures OccursAt(ReasonFirst, DecisionMarker, 22)
  {
    ReasonMarkerChars();
    DecisionMarkerChars();
    assert ReasonFirst[..22] == ReasonMarker + " ";
    assert ReasonFirst[22..31] == DecisionMarker;
  }

  lemma ReasonFirstPercent()
    ensures MatchPercent(ReasonFirst) == 0
  {
    var t := ReasonFirst;
    ReasonFirstChars();
    forall j: nat
      ensures MatchAt(t, j).None?
    {
      if j + 5 <= |t| {
        assert t[j..j + 5][0] == t[j];
        assert t[j] in t;
      }
    }
  }

  /** The decision rewrite turns the tail from `Decision:` on into the
      written rejection. */
  lemma ReasonFirstDecisions()
    ensures RejectDecisions(ReasonFirst) == ReasonFirst[..22] + RejectDecision
  {
    var t := ReasonFirst;
    ReasonFirstChars();
    PhraseFacts();
    forall j | 0 <= j < 22
      ensures !OccursAt(t, DecisionMarker, j)
    {
      assert t[j..j + 9][0] == t[j];
    }
    SubOneLine(t, DecisionMarker, RejectDecision);
    RewriteLineAt(t, DecisionMarker, RejectDecision, 22);
  }

  /** The reason rewrite then replaces the whole line. */
  lemma ReasonFirstReason()
    ensures RejectBelowThreshold(ReasonFirst) == ThresholdReason
  {
    var t := ReasonFirst;
    ReasonFirstChars();
    PhraseFacts();
    ReasonFirstDecisions();
    var a := t[..22] + RejectDecision;
    assert a[..21] == ReasonMarker;
    assert OccursAt(a, ReasonMarker, 0);
    assert '\n' !in a;
    SubOneLine(a, ReasonMarker, ThresholdReason);
    RewriteLineAt(a, ReasonMarker, ThresholdReason, 0);
    assert a[..0] + ThresholdReason == ThresholdReason;
  }

  /** The threshold reason holds no verdict. */
  lemma ThresholdReasonNoVerdict()
    ensures TextVerdict(ThresholdReason).None?
  {
    PhraseFacts();
    forall j: nat
      ensures VerdictAt(ThresholdReason, j).None?
    {
      assert !OccursAt(ThresholdReason, DecisionMarker, j);
    }
    TextVerdictLeftmost(ThresholdReason, 0);
  }

  /** Without the extra condition the threshold rewrite can hide the verdict:
      when the reason label precedes `Decision:` on its line, the reason
      rewrite replaces the whole line, the written rejection with it, and the
      table shows `-` for a reply that did hold a decision. */
  lemma ReasonFirstShowsDash()
    ensures Contains(ReasonFirst, DecisionMarker) && MatchPercent(ReasonFirst) < Threshold
    ensures Score(ReasonFirst).resultText == ThresholdReason
    ensures ExtractDecision(ToRow(Record("cv.pdf", Scored(Score(ReasonFirst))))) == "-"
  {
    ReasonFirstChars();
    ReasonFirstPercent();
    ReasonFirstReason();
    ThresholdReasonNoVerdict();
  }
}
