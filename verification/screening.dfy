/** The back end's screening of one resume (`analyze_resume`): the choice of
    prompt from the two form codes, the match percentage read from the model's
    reply, and the 72% threshold rewrite of that reply. The model itself is a
    parameter: it maps a prompt to its reply, or to `None` when the reply has
    no content. */
module Screening {
  import opened Wrappers
  import opened Strings
  import opened LineSub
  import opened Protocol

  // ---------------------------------------------------------------------------
  // Prompt choice
  // ---------------------------------------------------------------------------

  datatype HiringType = Sales | IT | NonSales
  datatype Level = Fresher | Experienced

  /** The prompt sent to the model. Each (hiring type, level) pair selects its
      own template; the templates' wording is not modelled. */
  datatype Prompt = Prompt(hiring: HiringType, level: Level, jd: string, resume: string)

  /** The form code of a hiring type. */
  function HiringCode(t: HiringType): string
  {
    match t
    case Sales => "1"
    case IT => "2"
    case NonSales => "3"
  }

  /** The form code of a level. */
  function LevelCode(l: Level): string
  {
    match l
    case Fresher => "1"
    case Experienced => "2"
  }

  /** The hiring type a form code stands for: exactly the codes of the three
      types are recognised, each as the type it is the code of. */
  function HiringOf(code: string): (t: Option<HiringType>)
    ensures t.Some? <==> code == "1" || code == "2" || code == "3"
    ensures t.Some? ==> HiringCode(t.value) == code
  {
    if code == "1" then Some(Sales)
    else if code == "2" then Some(IT)
    else if code == "3" then Some(NonSales)
    else None
  }

  /** The level a form code stands for. */
  function LevelOf(code: string): (l: Option<Level>)
    ensures l.Some? <==> code == "1" || code == "2"
    ensures l.Some? ==> LevelCode(l.value) == code
  {
    if code == "1" then Some(Fresher)
    else if code == "2" then Some(Experienced)
    else None
  }

  /** The prompt for a pair of codes, or `None` when either code is unknown. */
  function SelectPrompt(jd: string, resume: string, hiring: string, level: string): (p: Option<Prompt>)
    ensures p.Some? <==> HiringOf(hiring).Some? && LevelOf(level).Some?
    ensures p.Some? ==> HiringCode(p.value.hiring) == hiring && LevelCode(p.value.level) == level
    ensures p.Some? ==> p.value.jd == jd && p.value.resume == resume
  {
    match (HiringOf(hiring), LevelOf(level))
    case (Some(h), Some(l)) => Some(Prompt(h, l, jd, resume))
    case _ => None
  }

  // ---------------------------------------------------------------------------
  // Reading the match percentage: the first match of `Match\s*%:\s*(\d+)`
  // ---------------------------------------------------------------------------

  /** The value a match of the pattern starting at `i` captures. Both `\s*`
      runs are greedy and are followed by a character they cannot take, and
      `\d+` takes the whole digit run, so no backtracking can change the
      outcome. */
  function MatchAt(t: string, i: nat): Option<nat>
  {
    if !OccursAt(t, "Match", i) then None
    else
      var a := SpanEnd(t, i + 5, IsPySpace);
      if !OccursAt(t, "%:", a) then None
      else
        var b := SpanEnd(t, a + 2, IsPySpace);
        var e := SpanEnd(t, b, IsDigit);
        if e == b then None else Some(DigitsValue(t[b..e]))
  }

  /** The leftmost position at or after `k` where the pattern matches. */
  function MatchIndex(t: string, k: nat): (r: Option<nat>)
    decreases |t| - k
    ensures r.Some? ==> k <= r.value && MatchAt(t, r.value).Some?
    ensures r.Some? ==> forall j: nat :: k <= j < r.value ==> MatchAt(t, j).None?
    ensures r.None? ==> forall j: nat :: k <= j ==> MatchAt(t, j).None?
  {
    if k >= |t| then None
    else if MatchAt(t, k).Some? then Some(k)
    else MatchIndex(t, k + 1)
  }

  /** `match_percent`: the number the leftmost match captures, and 0 when
      nothing matches. */
  function MatchPercent(t: string): (n: nat)
    ensures (forall j: nat :: MatchAt(t, j).None?) ==> n == 0
    ensures forall i: nat ::
              (MatchAt(t, i).Some? && (forall j: nat :: j < i ==> MatchAt(t, j).None?) ==> n == MatchAt(t, i).value)
  {
    match MatchIndex(t, 0)
    case None => 0
    case Some(i) => MatchAt(t, i).value
  }

  /** The pattern matches a line `Match %: <n>` at its start and captures
      `n` when no digit follows. */
  lemma MatchLineAt(n: nat, rest: string)
    requires rest == [] || !IsDigit(rest[0])
    ensures MatchAt("Match %: " + (NatToDecimal(n) + rest), 0) == Some(n)
  {
    var ds := NatToDecimal(n);
    var tail := ds + rest;
    var s := "Match %: " + tail;
    assert s[..9] == "Match %: " && s[9..] == tail;
    assert s[..5] == "Match";
    SpanEndIs(s, 5, IsPySpace, 6);
    assert s[6..8] == "%:";
    forall i | 0 <= i < |ds|
      ensures s[9 + i] == ds[i]
    {
      assert s[9 + i] == tail[i];
    }
    SpanEndIs(s, 8, IsPySpace, 9);
    SpanEndIs(s, 9, IsDigit, 9 + |ds|);
    assert s[9..9 + |ds|] == ds;
  }

  /** The line `Match %: <n>` reads back as `n` when no digit follows it. */
  lemma MatchLineRead(n: nat, rest: string)
    requires rest == [] || !IsDigit(rest[0])
    ensures MatchPercent("Match %: " + (NatToDecimal(n) + rest)) == n
  {
    MatchLineAt(n, rest);
  }

  // ---------------------------------------------------------------------------
  // The 72% threshold rewrite
  // ---------------------------------------------------------------------------

  const Threshold: nat := 72

  /** Every `Decision:` tail becomes `Decision: ❌ Reject`. */
  function RejectDecisions(t: string): string
  {
    Sub(t, DecisionMarker, RejectDecision)
  }

  /** An existing reason tail is replaced by the threshold reason; without one
      the threshold reason is appended on a line of its own. */
  function ReplaceReason(a: string): string
  {
    if Contains(a, ReasonMarker) then Sub(a, ReasonMarker, ThresholdReason)
    else a + ("\n" + ThresholdReason)
  }

  /** The rewrite applied to a reply whose match percentage is below 72. Its
      output always carries the threshold reason. */
  function RejectBelowThreshold(t: string): (r: string)
    ensures Contains(r, ThresholdReason)
  {
    var a := RejectDecisions(t);
    ReasonAppears(a);
    ReplaceReason(a)
  }

  lemma DecisionMarkerChars()
    ensures LastUnique(DecisionMarker) && '\n' !in DecisionMarker && '(' !in DecisionMarker
  {
  }

  lemma RejectTagChars()
    ensures '\n' !in RejectTag && '(' !in RejectTag
  {
  }

  lemma ReasonMarkerChars()
    ensures LastUnique(ReasonMarker) && '\n' !in ReasonMarker && 'D' !in ReasonMarker
  {
  }

  lemma ThresholdNoteChars()
    ensures '\n' !in ThresholdNote && 'D' !in ThresholdNote
  {
  }

  /** The character-level facts about the fixed phrases the proofs use. */
  lemma PhraseFacts()
    ensures LastUnique(DecisionMarker) && LastUnique(ReasonMarker)
    ensures '\n' !in DecisionMarker && '\n' !in RejectDecision
    ensures '\n' !in ReasonMarker && '\n' !in ThresholdReason
    ensures |RejectDecision| == 18 && |ReasonMarker| == 21
    ensures RejectDecision == DecisionMarker + RejectDecision[9..]
    ensures ThresholdReason == ReasonMarker + ThresholdReason[21..]
    ensures !Contains(ThresholdReason, DecisionMarker)
    ensures !Contains(RejectDecision, ReasonMarker)
    ensures ThresholdReason[0] !in DecisionMarker[1..]
    ensures RejectDecision[0] !in ReasonMarker[1..]
  {
    DecisionMarkerChars();
    RejectTagChars();
    ReasonMarkerChars();
    ThresholdNoteChars();
    assert RejectDecision[..9] == DecisionMarker;
    assert ThresholdReason[..21] == ReasonMarker;
    MissingChar(ThresholdReason, DecisionMarker, 0);
    MissingChar(RejectDecision, ReasonMarker, 7);
  }

  /** A prefix of a text ending before its first occurrence of `m` holds no `m`. */
  lemma PrefixBeforeFirst(l: string, m: string, i: nat)
    requires m != [] && i <= |l| && forall q :: 0 <= q < i ==> !OccursAt(l, m, q)
    ensures !Contains(l[..i], m)
  {
    forall q | OccursAt(l[..i], m, q)
      ensures false
    {
      OccursInPrefix(l, i, m, q);
    }
  }

  /** The decision step line by line: a line holding `Decision:` keeps the
      text before its first `Decision:` and then reads `Decision: ❌ Reject`;
      every other line is unchanged, and no line is added or removed. */
  lemma DecisionLines(t: string)
    ensures |Lines(RejectDecisions(t))| == |Lines(t)|
    ensures forall k :: 0 <= k < |Lines(t)| ==>
      Lines(RejectDecisions(t))[k]
      == if Contains(Lines(t)[k], DecisionMarker)
         then Lines(t)[k][..IndexOf(Lines(t)[k], DecisionMarker).value] + RejectDecision
         else Lines(t)[k]
  {
    PhraseFacts();
    SubLines(t, DecisionMarker, RejectDecision);
    forall k | 0 <= k < |Lines(t)|
      ensures RewriteLine(Lines(t)[k], DecisionMarker, RejectDecision)
        == if Contains(Lines(t)[k], DecisionMarker)
           then Lines(t)[k][..IndexOf(Lines(t)[k], DecisionMarker).value] + RejectDecision
           else Lines(t)[k]
    {
      RewriteLineSpec(Lines(t)[k], DecisionMarker, RejectDecision);
    }
  }

  /** The reason step line by line: with a reason line present every line is
      rewritten at its first `Reason (if Rejected):`; otherwise the lines are
      kept and the threshold reason follows as one more line. */
  lemma ReasonLines(a: string)
    ensures Contains(a, ReasonMarker) ==>
      Lines(ReplaceReason(a)) == RewriteEach(Lines(a), ReasonMarker, ThresholdReason)
    ensures !Contains(a, ReasonMarker) ==> Lines(ReplaceReason(a)) == Lines(a) + [ThresholdReason]
  {
    PhraseFacts();
    if Contains(a, ReasonMarker) {
      SubLines(a, ReasonMarker, ThresholdReason);
    } else {
      LinesAppend(a, ThresholdReason);
      LinesSingle(ThresholdReason);
    }
  }

  /** The reason step leaves the threshold reason in the text, in place of
      an existing reason tail or on a line of its own. */
  lemma ReasonAppears(a: string)
    ensures Contains(ReplaceReason(a), ThresholdReason)
  {
    if Contains(a, ReasonMarker) {
      SubMarker(a, ReasonMarker, ThresholdReason);
    } else {
      assert OccursAt("\n" + ThresholdReason, ThresholdReason, 1);
      OccursInRight(a, "\n" + ThresholdReason, ThresholdReason, 1);
    }
  }

  /** A line both rewrites leave alone. */
  predicate Settled(l: string)
  {
    RewriteLine(l, DecisionMarker, RejectDecision) == l
    && RewriteLine(l, ReasonMarker, ThresholdReason) == l
  }

  /** After the decision rewrite, the text of a line before its first
      `Reason (if Rejected):` holds no `Decision:`: a reason label that starts
      inside the written `Decision: ❌ Reject` would not fit in it. */
  lemma BeforeReasonNoDecision(l: string)
    ensures var la := RewriteLine(l, DecisionMarker, RejectDecision);
      Contains(la, ReasonMarker) ==>
      !Contains(la[..IndexOf(la, ReasonMarker).value], DecisionMarker)
  {
    PhraseFacts();
    var la := RewriteLine(l, DecisionMarker, RejectDecision);
    if Contains(la, ReasonMarker) {
      var i := IndexOf(la, ReasonMarker).value;
      if !Contains(l, DecisionMarker) {
        RewriteLineNone(l, DecisionMarker, RejectDecision);
        forall q | OccursAt(la[..i], DecisionMarker, q)
          ensures false
        {
          OccursInPrefix(la, i, DecisionMarker, q);
        }
      } else {
        var j := IndexOf(l, DecisionMarker).value;
        RewriteLineAt(l, DecisionMarker, RejectDecision, j);
        var p := l[..j];
        PrefixBeforeFirst(l, DecisionMarker, j);
        assert la == p + DecisionMarker + RejectDecision[9..];
        FirstAfterClean(p, DecisionMarker, RejectDecision[9..]);
        forall q | OccursAt(la[..i], DecisionMarker, q)
          ensures false
        {
          OccursInPrefix(la, i, DecisionMarker, q);
        }
      }
    }
  }

  /** A line after both rewrites is settled. */
  lemma LineSettled(l: string)
    ensures Settled(RewriteLine(RewriteLine(l, DecisionMarker, RejectDecision), ReasonMarker, ThresholdReason))
  {
    PhraseFacts();
    var la := RewriteLine(l, DecisionMarker, RejectDecision);
    var lb := RewriteLine(la, ReasonMarker, ThresholdReason);
    RewriteLineIdempotent(l, DecisionMarker, RejectDecision);
    RewriteLineIdempotent(la, ReasonMarker, ThresholdReason);
    if !Contains(la, ReasonMarker) {
      RewriteLineNone(la, ReasonMarker, ThresholdReason);
    } else {
      var i := IndexOf(la, ReasonMarker).value;
      RewriteLineAt(la, ReasonMarker, ThresholdReason, i);
      BeforeReasonNoDecision(l);
      NoOccurrenceAcross(la[..i], ThresholdReason, DecisionMarker);
      RewriteLineNone(lb, DecisionMarker, RejectDecision);
    }
  }

  /** The threshold reason is settled. */
  lemma ThresholdReasonSettled()
    ensures Settled(ThresholdReason)
  {
    PhraseFacts();
    RewriteLineNone(ThresholdReason, DecisionMarker, RejectDecision);
    assert OccursAt(ThresholdReason, ReasonMarker, 0);
  }

  /** Every line of the rewritten text is settled. */
  lemma OutputSettled(t: string)
    ensures forall k :: 0 <= k < |Lines(RejectBelowThreshold(t))| ==> Settled(Lines(RejectBelowThreshold(t))[k])
  {
    PhraseFacts();
    var a := RejectDecisions(t);
    var b := RejectBelowThreshold(t);
    SubLines(t, DecisionMarker, RejectDecision);
    ReasonLines(a);
    if Contains(a, ReasonMarker) {
      forall k | 0 <= k < |Lines(b)|
        ensures Settled(Lines(b)[k])
      {
        LineSettled(Lines(t)[k]);
      }
    } else {
      forall k | 0 <= k < |Lines(b)|
        ensures Settled(Lines(b)[k])
      {
        if k < |Lines(a)| {
          var la := Lines(a)[k];
          if Contains(la, ReasonMarker) {
            ContainsFromLine(Lines(a), k, ReasonMarker);
          }
          RewriteLineNone(la, ReasonMarker, ThresholdReason);
          LineSettled(Lines(t)[k]);
        } else {
          ThresholdReasonSettled();
        }
      }
    }
  }

  /** A text holding the reason label whose lines are all settled is left
      alone by the rewrite. */
  lemma SettledFixed(b: string)
    requires Contains(b, ReasonMarker)
    requires forall k :: 0 <= k < |Lines(b)| ==> Settled(Lines(b)[k])
    ensures RejectDecisions(b) == b
    ensures RejectBelowThreshold(b) == b
  {
    PhraseFacts();
    SubFixed(b, DecisionMarker, RejectDecision);
    SubFixed(b, ReasonMarker, ThresholdReason);
  }

  /** The threshold rewrite is idempotent. */
  lemma RejectIdempotent(t: string)
    ensures RejectBelowThreshold(RejectBelowThreshold(t)) == RejectBelowThreshold(t)
  {
    var b := RejectBelowThreshold(t);
    OutputSettled(t);
    PhraseFacts();
    var j :| 0 <= j <= |b| && OccursAt(b, ThresholdReason, j);
    OccursStart(b, ThresholdReason, ReasonMarker, j);
    SettledFixed(b);
  }

  /** In the rewritten text the first `Decision:`, if any, starts
      `Decision: ❌ Reject`. */
  lemma FirstDecisionRejects(t: string)
    ensures var b := RejectBelowThreshold(t);
      Contains(b, DecisionMarker) ==> OccursAt(b, RejectDecision, IndexOf(b, DecisionMarker).value)
  {
    var b := RejectBelowThreshold(t);
    PhraseFacts();
    OutputSettled(t);
    SubFixed(b, DecisionMarker, RejectDecision);
    if Contains(b, DecisionMarker) {
      FixedStartsRepl(b, DecisionMarker, RejectDecision, IndexOf(b, DecisionMarker).value);
    }
  }

  /** A line holding `Decision:` with no reason label before its first
      `Decision:`. */
  predicate DecisionFirst(l: string)
  {
    Contains(l, DecisionMarker) && !Contains(l[..IndexOf(l, DecisionMarker).value], ReasonMarker)
  }

  /** A `Decision:` line with no reason label before its first `Decision:`
      still holds `Decision: ❌ Reject` after the rewrite. */
  lemma DecisionSurvives(t: string, k: nat)
    requires k < |Lines(t)| && DecisionFirst(Lines(t)[k])
    ensures Contains(RejectBelowThreshold(t), RejectDecision)
  {
    PhraseFacts();
    var l := Lines(t)[k];
    var a := RejectDecisions(t);
    var b := RejectBelowThreshold(t);
    var i := IndexOf(l, DecisionMarker).value;
    SubLines(t, DecisionMarker, RejectDecision);
    RewriteLineAt(l, DecisionMarker, RejectDecision, i);
    var la := Lines(a)[k];
    assert la == l[..i] + RejectDecision;
    NoOccurrenceAcross(l[..i], RejectDecision, ReasonMarker);
    PrefixOccurs(RejectDecision, []);
    assert RejectDecision + [] == RejectDecision;
    OccursInRight(l[..i], RejectDecision, RejectDecision, 0);
    ReasonLines(a);
    if Contains(a, ReasonMarker) {
      RewriteLineNone(la, ReasonMarker, ThresholdReason);
    }
    assert Lines(b)[k] == la;
    ContainsFromLine(Lines(b), k, RejectDecision);
  }

  /** On any other line both rewrites together leave no `Decision:`: a
      `Decision:` there has a reason label before it, which the decision
      rewrite keeps and the reason rewrite then cuts the line at. */
  lemma LineLosesDecision(l: string)
    requires !DecisionFirst(l)
    ensures Contains(l, DecisionMarker) ==> Contains(RewriteLine(l, DecisionMarker, RejectDecision), ReasonMarker)
    ensures !Contains(RewriteLine(RewriteLine(l, DecisionMarker, RejectDecision), ReasonMarker, ThresholdReason), DecisionMarker)
  {
    PhraseFacts();
    var la := RewriteLine(l, DecisionMarker, RejectDecision);
    if Contains(l, DecisionMarker) {
      var j := IndexOf(l, DecisionMarker).value;
      RewriteLineAt(l, DecisionMarker, RejectDecision, j);
      var q :| 0 <= q <= |l[..j]| && OccursAt(l[..j], ReasonMarker, q);
      OccursInLeft(l[..j], RejectDecision, ReasonMarker, q);
    } else {
      RewriteLineNone(l, DecisionMarker, RejectDecision);
    }
    if Contains(la, ReasonMarker) {
      var i := IndexOf(la, ReasonMarker).value;
      RewriteLineAt(la, ReasonMarker, ThresholdReason, i);
      BeforeReasonNoDecision(l);
      NoOccurrenceAcross(la[..i], ThresholdReason, DecisionMarker);
    } else {
      RewriteLineNone(la, ReasonMarker, ThresholdReason);
    }
  }

  /** When no line of a reply is a `Decision:` line with no reason label
      before its first `Decision:`, the rewritten text holds no `Decision:`
      at all. */
  lemma NoDecisionLeft(t: string)
    requires forall k :: 0 <= k < |Lines(t)| ==> !DecisionFirst(Lines(t)[k])
    ensures !Contains(RejectBelowThreshold(t), DecisionMarker)
  {
    PhraseFacts();
    var a := RejectDecisions(t);
    var b := RejectBelowThreshold(t);
    SubLines(t, DecisionMarker, RejectDecision);
    ReasonLines(a);
    forall k | 0 <= k < |Lines(b)|
      ensures !Contains(Lines(b)[k], DecisionMarker)
    {
      if Contains(a, ReasonMarker) {
        LineLosesDecision(Lines(t)[k]);
      } else if k < |Lines(a)| {
        var l := Lines(t)[k];
        LineLosesDecision(l);
        if Contains(Lines(a)[k], ReasonMarker) {
          ContainsFromLine(Lines(a), k, ReasonMarker);
        }
        RewriteLineNone(l, DecisionMarker, RejectDecision);
      }
    }
    NoLineContains(Lines(b), DecisionMarker);
  }

  // ---------------------------------------------------------------------------
  // One resume
  // ---------------------------------------------------------------------------

  /** The post-processed reply: the text shown and the percentage read. */
  datatype Report = Report(resultText: string, matchPercent: nat)

  /** What `analyze_resume` returns: the error string for unknown codes, or
      the report. */
  datatype Analysis = ChoiceError(message: string) | Analysed(report: Report)

  const InvalidChoiceMessage: string := "❌ Error: Invalid hiring or level choice provided."

  /** The text used when the reply has no content:
      `Match %: 0`, `Decision: ❌ Reject`, `Reason (if Rejected): No response from model.`
      on three lines. */
  const NoResponseText: string := NoReplyMatchLine + ("\n" + (RejectDecision + ("\n" + NoReplyReasonLine)))

  /** The reply's text: stripped content, or the stand-in for no content. */
  function ReplyText(reply: Option<string>): string
  {
    match reply
    case None => NoResponseText
    case Some(content) => Strip(content)
  }

  /** Reads the percentage and applies the threshold rewrite below 72: the
      percentage reported is the one read from the reply; at 72 or more the
      reply is returned unchanged, below 72 the threshold reason is in the
      text. */
  function Score(text: string): (r: Report)
    ensures r.matchPercent == MatchPercent(text)
    ensures MatchPercent(text) >= Threshold ==> r.resultText == text
    ensures MatchPercent(text) < Threshold ==> Contains(r.resultText, ThresholdReason)
  {
    var n := MatchPercent(text);
    Report(if n < Threshold then RejectBelowThreshold(text) else text, n)
  }

  /** `analyze_resume`. The model is asked only once a prompt was chosen. */
  function AnalyzeResume(jd: string, resume: string, hiring: string, level: string,
                         model: Prompt -> Option<string>): (r: Analysis)
    ensures r.ChoiceError? <==> !(hiring == "1" || hiring == "2" || hiring == "3") || !(level == "1" || level == "2")
    ensures r.ChoiceError? ==> r.message == InvalidChoiceMessage
  {
    match SelectPrompt(jd, resume, hiring, level)
    case None => ChoiceError(InvalidChoiceMessage)
    case Some(p) => Analysed(Score(ReplyText(model(p))))
  }

  /** With unknown codes the outcome does not depend on the model at all. */
  lemma ChoiceErrorIgnoresModel(jd: string, resume: string, hiring: string, level: string,
                                m1: Prompt -> Option<string>, m2: Prompt -> Option<string>)
    requires AnalyzeResume(jd, resume, hiring, level, m1).ChoiceError?
    ensures AnalyzeResume(jd, resume, hiring, level, m1) == AnalyzeResume(jd, resume, hiring, level, m2)
  {
  }

  /** Scoring the shown text again shows the same text. */
  lemma ScoreTextIdempotent(text: string)
    ensures Score(Score(text).resultText).resultText == Score(text).resultText
  {
    if MatchPercent(text) < Threshold {
      RejectIdempotent(text);
    }
  }

  /** What the page shows for a reply without content. */
  const NoReplyShown: string := NoReplyMatchLine + ("\n" + (RejectDecision + ("\n" + ThresholdReason)))

  /** The first and last line of the stand-in text. */
  const NoReplyMatchLine: string := "Match %: 0"
  const NoReplyReasonLine: string := ReasonMarker + " No response from model."

  lemma NoReplyMatchLineIs()
    ensures NoReplyMatchLine == "Match %: " + NatToDecimal(0)
  {
    assert NatToDecimal(0) == "0";
  }

  lemma NoReplyPercent()
    ensures MatchPercent(NoResponseText) == 0
  {
    var rest := "\n" + (RejectDecision + ("\n" + NoReplyReasonLine));
    NoReplyMatchLineIs();
    assert ("Match %: " + NatToDecimal(0)) + rest == "Match %: " + (NatToDecimal(0) + rest);
    assert rest[0] == '\n';
    MatchLineRead(0, rest);
  }

  lemma NoReplyLineChars()
    ensures '\n' !in NoReplyMatchLine && 'D' !in NoReplyMatchLine && '(' !in NoReplyMatchLine
    ensures '\n' !in NoReplyReasonLine && 'D' !in NoReplyReasonLine
  {
    ReasonMarkerChars();
    assert '\n' !in " No response from model." && 'D' !in " No response from model.";
  }

  lemma NoReplyDecisions()
    ensures RejectDecisions(NoResponseText) == NoResponseText
  {
    PhraseFacts();
    NoReplyLineChars();
    MissingChar(NoReplyMatchLine, DecisionMarker, 0);
    RewriteLineNone(NoReplyMatchLine, DecisionMarker, RejectDecision);
    assert OccursAt(RejectDecision, DecisionMarker, 0);
    MissingChar(NoReplyReasonLine, DecisionMarker, 0);
    RewriteLineNone(NoReplyReasonLine, DecisionMarker, RejectDecision);
    SubThreeLines(NoReplyMatchLine, RejectDecision, NoReplyReasonLine, DecisionMarker, RejectDecision);
  }

  lemma NoReplyReason()
    ensures ReplaceReason(NoResponseText) == NoReplyShown
  {
    PhraseFacts();
    NoReplyLineChars();
    assert OccursAt(NoReplyReasonLine, ReasonMarker, 0);
    OccursInRight(NoReplyMatchLine + ("\n" + (RejectDecision + "\n")), NoReplyReasonLine, ReasonMarker, 0);
    assert NoResponseText == NoReplyMatchLine + ("\n" + (RejectDecision + "\n")) + NoReplyReasonLine;
    MissingChar(NoReplyMatchLine, ReasonMarker, 7);
    RewriteLineNone(NoReplyMatchLine, ReasonMarker, ThresholdReason);
    RewriteLineNone(RejectDecision, ReasonMarker, ThresholdReason);
    SubThreeLines(NoReplyMatchLine, RejectDecision, NoReplyReasonLine, ReasonMarker, ThresholdReason);
  }

  /** A reply without content reads as 0%, and the threshold rewrite turns
      its reason line into the threshold reason. */
  lemma NoReplyScore()
    ensures Score(NoResponseText) == Report(NoReplyShown, 0)
  {
    NoReplyPercent();
    NoReplyDecisions();
    NoReplyReason();
  }

  /** With known codes the model is asked once and its reply scored: the
      percentage is read from the stripped reply, a reply at or above the
      threshold is shown stripped but otherwise as written, one below it is
      shown with the threshold rewrite and so carries the threshold reason,
      and a reply without content shows the stand-in text, rejected, at 0%. */
  lemma ReplyReport(jd: string, resume: string, hiring: string, level: string,
                    model: Prompt -> Option<string>)
    requires HiringOf(hiring).Some? && LevelOf(level).Some?
    ensures var reply := model(Prompt(HiringOf(hiring).value, LevelOf(level).value, jd, resume));
      var r := AnalyzeResume(jd, resume, hiring, level, model);
      && r.Analysed?
      && r.report.matchPercent == MatchPercent(ReplyText(reply))
      && r.report == Score(ReplyText(reply))
      && (reply.Some? && MatchPercent(Strip(reply.value)) >= Threshold ==> r.report.resultText == Strip(reply.value))
      && (reply.Some? && MatchPercent(Strip(reply.value)) < Threshold ==>
            r.report.resultText == RejectBelowThreshold(Strip(reply.value))
            && Contains(r.report.resultText, ThresholdReason))
      && (reply.None? ==> r.report == Report(NoReplyShown, 0))
  {
    var reply := model(Prompt(HiringOf(hiring).value, LevelOf(level).value, jd, resume));
    if reply.None? {
      NoReplyScore();
    }
  }
}
