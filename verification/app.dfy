/** The state of the React page and how its handlers change it: the form
    fields, the staged files, the results table and the loading flag. The
    request to the back end is an output of pressing the button and its
    answer an input of a later event; what the page does in between is
    nothing but wait. */
module App {
  import opened Wrappers
  import opened Decision

  /** A file chosen in the file input. */
  datatype StagedFile = StagedFile(name: string, content: seq<Byte>)

  datatype State = State(
    jd: string,
    files: seq<StagedFile>,
    results: seq<ResultRow>,
    hiringType: string,
    level: string,
    loading: bool)

  /** The state before any interaction. */
  const Initial: State := State("", [], [], "1", "1", false)

  /** The values the two select boxes offer. */
  const HiringOptions: seq<string> := ["1", "2", "3"]
  const LevelOptions: seq<string> := ["1", "2"]

  // ---------------------------------------------------------------------------
  // The request
  // ---------------------------------------------------------------------------

  /** One part of a multipart form. */
  datatype Part = Field(name: string, value: string) | FilePart(name: string, file: StagedFile)

  /** One `files` part per staged file, in the order they were chosen. */
  function FileSection(fs: seq<StagedFile>): (parts: seq<Part>)
    ensures |parts| == |fs|
    ensures forall k :: 0 <= k < |fs| ==> parts[k] == FilePart("files", fs[k])
  {
    seq(|fs|, k requires 0 <= k < |fs| => FilePart("files", fs[k]))
  }

  /** The three text fields of the form, in the order they are appended. */
  function TextFields(s: State): seq<Part>
  {
    [Field("job_description", s.jd), Field("hiring_type", s.hiringType), Field("level", s.level)]
  }

  /** The form `handleSubmit` sends: the text fields, then the files. */
  function FormEntries(s: State): seq<Part>
  {
    TextFields(s) + FileSection(s.files)
  }

  /** What comes back for a request: a parsed JSON body, whose `results`
      property may be missing, or a failure to connect or to parse. */
  datatype Response = Replied(results: Option<seq<ResultRow>>) | Threw

  // ---------------------------------------------------------------------------
  // Events
  // ---------------------------------------------------------------------------

  datatype Event =
    | EditJd(text: string)
    | PickHiring(value: string)
    | PickLevel(value: string)
    | ChooseFiles(chosen: seq<StagedFile>)
    | Press
    | Settle(response: Response)

  /** An event the page itself can produce: the select boxes only ever report
      one of their options. */
  predicate FromPage(e: Event)
  {
    match e
    case PickHiring(v) => v in HiringOptions
    case PickLevel(v) => v in LevelOptions
    case _ => true
  }

  /** The Evaluate button is clickable exactly while no request is pending. */
  predicate SubmitEnabled(s: State)
  {
    !s.loading
  }

  /** The caption of the button. */
  function ButtonLabel(s: State): string
  {
    if s.loading then "Evaluating..." else "Evaluate"
  }

  /** The results table is drawn only when there is at least one row. */
  predicate TableShown(s: State)
  {
    |s.results| > 0
  }

  /** `handleFileChange`: the chosen files replace the staged ones. */
  function ChooseFilesStep(s: State, chosen: seq<StagedFile>): (s': State)
    ensures s'.files == chosen
    ensures s'.jd == s.jd && s'.results == s.results && s'.loading == s.loading
    ensures s'.hiringType == s.hiringType && s'.level == s.level
  {
    s.(files := chosen)
  }

  /** Choosing again forgets the earlier choice: only the last one counts. */
  lemma ChooseFilesLastWins(s: State, first: seq<StagedFile>, second: seq<StagedFile>)
    ensures ChooseFilesStep(ChooseFilesStep(s, first), second) == ChooseFilesStep(s, second)
  {
  }

  /** The first half of `handleSubmit`: the page starts loading and sends the
      form built from what is on the page. A press while loading is lost on
      the disabled button. */
  function PressStep(s: State): (out: (State, Option<seq<Part>>))
    ensures s.loading ==> out == (s, None)
    ensures !s.loading ==> out.0 == s.(loading := true) && out.1 == Some(FormEntries(s))
  {
    if !SubmitEnabled(s) then (s, None)
    else (s.(loading := true), Some(FormEntries(s)))
  }

  /** The second half of `handleSubmit`: the rows of the answer, or none when
      the answer has no `results` or the request failed, replace the table and
      loading ends. The form fields and the staged files stay as they are. */
  function SettleStep(s: State, r: Response): (s': State)
    ensures !s'.loading
    ensures s'.jd == s.jd && s'.files == s.files
    ensures s'.hiringType == s.hiringType && s'.level == s.level
    ensures r == Threw || r == Replied(None) ==> s'.results == []
    ensures r.Replied? && r.results.Some? ==> s'.results == r.results.value
  {
    var rows := match r
      case Replied(Some(rows)) => rows
      case _ => [];
    s.(results := rows, loading := false)
  }

  /** One event. An answer only arrives for a pending request, so `Settle`
      while not loading does nothing. The second component is the form sent,
      if any: a form goes out exactly on a press while idle, and it is the
      form of the page as it stands. Loading starts only on that press and
      ends only on an answer; the table changes only on an answer; the staged
      files change only on a file choice; the description, the hiring type
      and the level change only on their own edit or pick, and then take the
      value entered. */
  function Step(s: State, e: Event): (out: (State, Option<seq<Part>>))
    ensures out.1.Some? <==> e.Press? && !s.loading
    ensures out.1.Some? ==> out.1.value == FormEntries(s)
    ensures out.0.loading <==> (e.Press? && !s.loading) || (s.loading && !e.Settle?)
    ensures !(e.Settle? && s.loading) ==> out.0.results == s.results
    ensures !e.ChooseFiles? ==> out.0.files == s.files
    ensures !e.EditJd? ==> out.0.jd == s.jd
    ensures e.EditJd? ==> out.0.jd == e.text
    ensures e.PickHiring? ==> out.0.hiringType == e.value
    ensures !e.PickHiring? ==> out.0.hiringType == s.hiringType
    ensures e.PickLevel? ==> out.0.level == e.value
    ensures !e.PickLevel? ==> out.0.level == s.level
  {
    match e
    case EditJd(text) => (s.(jd := text), None)
    case PickHiring(v) => (s.(hiringType := v), None)
    case PickLevel(v) => (s.(level := v), None)
    case ChooseFiles(chosen) => (ChooseFilesStep(s, chosen), None)
    case Press => PressStep(s)
    case Settle(r) => if s.loading then (SettleStep(s, r), None) else (s, None)
  }

  /** The state after a sequence of events, with the number of requests sent
      and of answers taken in. */
  function Run(s: State, es: seq<Event>): (State, nat, nat)
    decreases |es|
  {
    if es == [] then (s, 0, 0)
    else
      var (s1, sent) := Step(s, es[0]);
      var (t, n, m) := Run(s1, es[1..]);
      (t, n + (if sent.Some? then 1 else 0), m + (if es[0].Settle? && s.loading then 1 else 0))
  }

  /** At most one request is ever in flight: from a state that is not loading,
      every request sent but one has been answered, and the one unanswered
      request is exactly the loading flag. */
  lemma {:induction false} SingleFlight(s: State, es: seq<Event>)
    requires !s.loading
    ensures var (t, sent, settled) := Run(s, es);
      sent == settled + (if t.loading then 1 else 0)
    decreases |es|
  {
    if es != [] {
      var (s1, _) := Step(s, es[0]);
      if s1.loading {
        assert es[0] == Press;
        LoadingRun(s1, es[1..]);
      } else {
        SingleFlight(s1, es[1..]);
      }
    }
  }

  /** The same count from a loading state: one request more than answers. */
  lemma {:induction false} LoadingRun(s: State, es: seq<Event>)
    requires s.loading
    ensures var (t, sent, settled) := Run(s, es);
      sent + 1 == settled + (if t.loading then 1 else 0)
    decreases |es|
  {
    if es != [] {
      var (s1, _) := Step(s, es[0]);
      if s1.loading {
        LoadingRun(s1, es[1..]);
      } else {
        assert es[0].Settle?;
        SingleFlight(s1, es[1..]);
      }
    }
  }

  /** Whatever the page does, the two codes it holds are among the options of
      their select boxes. */
  lemma {:induction false} CodesStayValid(s: State, es: seq<Event>)
    requires s.hiringType in HiringOptions && s.level in LevelOptions
    requires forall k :: 0 <= k < |es| ==> FromPage(es[k])
    ensures Run(s, es).0.hiringType in HiringOptions
    ensures Run(s, es).0.level in LevelOptions
    decreases |es|
  {
    if es != [] {
      assert FromPage(es[0]);
      var (s1, _) := Step(s, es[0]);
      forall k | 0 <= k < |es[1..]|
        ensures FromPage(es[1..][k])
      {
        assert es[1..][k] == es[k + 1];
      }
      CodesStayValid(s1, es[1..]);
    }
  }

  /** From the page as it first renders, whatever the user does: at most one
      request is in flight, and the codes stay among the options. */
  lemma FromInitial(es: seq<Event>)
    requires forall k :: 0 <= k < |es| ==> FromPage(es[k])
    ensures var (t, sent, settled) := Run(Initial, es);
      && sent == settled + (if t.loading then 1 else 0)
      && t.hiringType in HiringOptions && t.level in LevelOptions
  {
    SingleFlight(Initial, es);
    CodesStayValid(Initial, es);
  }

  /** A full round, press then answer, changes only the results: the
      description, the codes and the staged files are still there. */
  lemma RoundKeepsForm(s: State, r: Response)
    requires !s.loading
    ensures var t := SettleStep(PressStep(s).0, r);
      t == s.(results := t.results)
  {
  }

  /** While a request is pending the button reads `Evaluating...` and is
      disabled; once a failed request settles it reads `Evaluate` again and no
      table is drawn. */
  lemma FailedRoundShows(s: State)
    requires !s.loading
    ensures var pressed := PressStep(s).0;
      && ButtonLabel(pressed) == "Evaluating..." && !SubmitEnabled(pressed)
      && ButtonLabel(SettleStep(pressed, Threw)) == "Evaluate"
      && !TableShown(SettleStep(pressed, Threw))
  {
  }
}
