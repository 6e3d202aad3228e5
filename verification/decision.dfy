/** How the results table of the React front end reads one result row: the
    verdict shown in the Decision column (`extractDecision`), the Match %
    cell and the Details cell. */
module Decision {
  import opened Wrappers
  import opened Strings
  import opened Protocol

  /** One element of the `results` array as the front end sees it. A field
      the JSON object does not carry is `None`. */
  datatype ResultRow = ResultRow(
    filename: Option<string>,
    matchPercent: Option<int>,
    decision: Option<string>,
    resultText: Option<string>,
    error: Option<string>)

  /** JavaScript truthiness of a field that is absent or a string. */
  predicate Truthy(v: Option<string>)
  {
    v.Some? && v.value != []
  }

  datatype Verdict = Shortlist | Reject

  // ---------------------------------------------------------------------------
  // The verdict written in the reply text
  // ---------------------------------------------------------------------------

  /** What `/Decision:\s*(✅ Shortlist|❌ Reject)/` captures when its match
      starts at `i`. Both tags start with a non-space character, so the greedy
      `\s*` never gives anything back. */
  function VerdictAt(t: string, i: nat): Option<Verdict>
  {
    if !OccursAt(t, DecisionMarker, i) then None
    else
      var b := SpanEnd(t, i + |DecisionMarker|, IsJsSpace);
      if OccursAt(t, ShortlistTag, b) then Some(Shortlist)
      else if OccursAt(t, RejectTag, b) then Some(Reject)
      else None
  }

  /** The leftmost position at or after `k` where the pattern matches. */
  function VerdictIndex(t: string, k: nat): (r: Option<nat>)
    decreases |t| - k
    ensures r.Some? ==> k <= r.value && VerdictAt(t, r.value).Some?
    ensures r.Some? ==> forall j: nat :: k <= j < r.value ==> VerdictAt(t, j).None?
    ensures r.None? ==> forall j: nat :: k <= j ==> VerdictAt(t, j).None?
  {
    if k >= |t| then None
    else if VerdictAt(t, k).Some? then Some(k)
    else VerdictIndex(t, k + 1)
  }

  /** The tag `result_text.match(...)` captures, if the pattern matches. */
  function TextVerdict(t: string): Option<Verdict>
  {
    match VerdictIndex(t, 0)
    case None => None
    case Some(i) => VerdictAt(t, i)
  }

  /** The text verdict is the one at the leftmost match, and there is none
      when nothing matches. */
  lemma TextVerdictLeftmost(t: string, i: nat)
    ensures (forall j: nat :: VerdictAt(t, j).None?) ==> TextVerdict(t).None?
    ensures VerdictAt(t, i).Some? && (forall j: nat :: j < i ==> VerdictAt(t, j).None?)
      ==> TextVerdict(t) == VerdictAt(t, i)
  {
    var r := VerdictIndex(t, 0);
    if r.Some? && VerdictAt(t, i).Some? && (forall j: nat :: j < i ==> VerdictAt(t, j).None?) {
      assert !(r.value < i);
      assert !(i < r.value);
    }
  }

  /** When the first `Decision:` of a text is followed by the written-out
      rejection, the text reads as a rejection. */
  lemma TextVerdictAtFirstDecision(t: string, j: nat)
    requires OccursAt(t, RejectDecision, j)
    requires forall i :: 0 <= i < j ==> !OccursAt(t, DecisionMarker, i)
    ensures TextVerdict(t) == Some(Reject)
  {
    assert RejectDecision[..9] == DecisionMarker;
    OccursStart(t, RejectDecision, DecisionMarker, j);
    assert t[j + 9] == ' ';
    var b := SpanEnd(t, j + 9, IsJsSpace);
    assert t[j + 10..j + 18] == RejectDecision[10..];
    assert t[j + 10] == '❌';
    assert b == j + 10;
    assert OccursAt(t, RejectTag, b);
    assert t[b] != ShortlistTag[0];
    assert VerdictAt(t, j) == Some(Reject);
    TextVerdictLeftmost(t, j);
  }

  /** The tag must be there: `Decision: Reject` without the mark reads as no
      verdict at all. */
  lemma PlainRejectHasNoVerdict()
    ensures TextVerdict("Decision: Reject").None?
  {
    var t := "Decision: Reject";
    forall j: nat
      ensures VerdictAt(t, j).None?
    {
      if OccursAt(t, DecisionMarker, j) {
        assert t[j] == DecisionMarker[0];
        assert j == 0;
        var b := SpanEnd(t, 9, IsJsSpace);
        assert t[10] == 'R';
        assert b == 10;
        assert !OccursAt(t, ShortlistTag, b) by { assert t[b] != ShortlistTag[0]; }
        assert !OccursAt(t, RejectTag, b) by { assert t[b] != RejectTag[0]; }
      }
    }
    TextVerdictLeftmost(t, 0);
  }

  /** A text without `Decision:` gives no verdict. */
  lemma NoMarkerNoVerdict(t: string)
    requires !Contains(t, DecisionMarker)
    ensures TextVerdict(t).None?
  {
    TextVerdictLeftmost(t, 0);
  }

  // ---------------------------------------------------------------------------
  // The Decision column
  // ---------------------------------------------------------------------------

  /** The label the table shows for a verdict read from the reply text. */
  function VerdictLabel(v: Verdict): string
  {
    match v
    case Shortlist => "Shortlisted"
    case Reject => "Rejected"
  }

  /** The row carries a decision field the front end prefers: truthy and not
      `-`. */
  predicate Explicit(r: ResultRow)
  {
    Truthy(r.decision) && r.decision.value != "-"
  }

  lemma NoMarkInLabels()
    ensures !Contains("Error", "Shortlist") && !Contains("Error", "Reject")
    ensures !Contains("-", "Shortlist") && !Contains("-", "Reject")
  {
    MissingChar("Error", "Shortlist", 0);
    MissingChar("Error", "Reject", 0);
    MissingChar("-", "Shortlist", 0);
    MissingChar("-", "Reject", 0);
  }

  /** `extractDecision`. The column reads:
      - `Shortlisted` exactly when the preferred decision field names a
        shortlist, or, without one, the reply text's verdict is the shortlist;
      - `Rejected` exactly when the preferred field names a rejection and no
        shortlist, or, without one, the text's verdict is the rejection;
      - `Error` exactly when the preferred field says so verbatim, or when
        neither the field nor the text gives a verdict and the row carries an
        error message;
      - `-` exactly when nothing in the row gives a verdict and there is no
        error message;
      and a preferred field naming neither verdict is shown as it is. */
  function ExtractDecision(r: ResultRow): (d: string)
    ensures d == "Shortlisted" <==>
      || (Explicit(r) && Contains(r.decision.value, "Shortlist"))
      || (!Explicit(r) && Truthy(r.resultText) && TextVerdict(r.resultText.value) == Some(Shortlist))
    ensures d == "Rejected" <==>
      || (Explicit(r) && !Contains(r.decision.value, "Shortlist") && Contains(r.decision.value, "Reject"))
      || (!Explicit(r) && Truthy(r.resultText) && TextVerdict(r.resultText.value) == Some(Reject))
    ensures d == "Error" <==>
      || (Explicit(r) && r.decision.value == "Error")
      || (!Explicit(r) && !(Truthy(r.resultText) && TextVerdict(r.resultText.value).Some?) && Truthy(r.error))
    ensures d == "-" <==>
      !Explicit(r) && !(Truthy(r.resultText) && TextVerdict(r.resultText.value).Some?) && !Truthy(r.error)
    ensures Explicit(r) && !Contains(r.decision.value, "Shortlist") && !Contains(r.decision.value, "Reject")
      ==> d == r.decision.value
  {
    NoMarkInLabels();
    assert OccursAt("Shortlisted", "Shortlist", 0);
    assert OccursAt("Rejected", "Reject", 0);
    if Explicit(r) then
      var d := r.decision.value;
      if Contains(d, "Shortlist") then "Shortlisted"
      else if Contains(d, "Reject") then "Rejected"
      else d
    else if Truthy(r.resultText) && TextVerdict(r.resultText.value).Some? then
      VerdictLabel(TextVerdict(r.resultText.value).value)
    else if Truthy(r.error) then "Error"
    else "-"
  }

  /** A preferred decision field decides the column alone: the reply text and
      the error do not matter. */
  lemma ExplicitWins(r: ResultRow, text: Option<string>, error: Option<string>)
    requires Explicit(r)
    ensures ExtractDecision(r) == ExtractDecision(r.(resultText := text, error := error))
  {
  }

  // ---------------------------------------------------------------------------
  // The Match % and Details cells
  // ---------------------------------------------------------------------------

  /** JavaScript's `String(n)` for an integer: a minus sign for a negative
      number, then the decimal digits of its magnitude without leading
      zeros. */
  function IntToDecimal(n: int): (s: string)
    ensures s != []
    ensures n >= 0 ==> AllDigits(s) && DigitsValue(s) == n && (|s| > 1 ==> s[0] != '0')
    ensures n < 0 ==> s[0] == '-' && s[1..] != [] && AllDigits(s[1..]) && DigitsValue(s[1..]) == -n
    ensures n < 0 ==> (|s| > 2 ==> s[1] != '0')
  {
    if n >= 0 then NatToDecimal(n)
    else
      var ds := NatToDecimal(-n);
      assert ("-" + ds)[1..] == ds;
      "-" + ds
  }

  /** A numeral as `String(n)` writes it: digits, without a leading zero
      unless it is `0` itself. */
  predicate Canonical(ds: string)
  {
    ds != [] && AllDigits(ds) && (|ds| > 1 ==> ds[0] != '0')
  }

  /** Reading a Match % cell back: `-` is no number; otherwise a canonical
      numeral, negative only when it is not zero, followed by `%`. Anything
      else, such as `007%` or `-0%`, is not a cell the table writes, and
      reads as no number too. */
  function ReadCell(c: string): Option<int>
  {
    if c == [] || c[|c| - 1] != '%' then None
    else
      var body := c[..|c| - 1];
      if body != [] && body[0] == '-' && Canonical(body[1..]) && DigitsValue(body[1..]) != 0 then
        Some(-(DigitsValue(body[1..]) as int))
      else if Canonical(body) then Some(DigitsValue(body))
      else None
  }

  /** The Match % cell, `match_percent + '%'`: the number as `String(n)` writes
      it followed by `%`, or `-` when the row has no `match_percent`. The cell
      is `-` exactly when there is no number, and reading it back gives the
      field. */
  function MatchCell(v: Option<int>): (c: string)
    ensures c == "-" <==> v.None?
    ensures v.Some? ==> c == IntToDecimal(v.value) + "%"
    ensures ReadCell(c) == v
  {
    match v
    case None => "-"
    case Some(n) =>
      var body := IntToDecimal(n);
      assert (body + "%")[..|body|] == body;
      assert n >= 0 ==> body[0] != '-';
      body + "%"
  }

  /** Every cell that reads as a number is the one the table writes for it,
      so a number has exactly one cell. */
  lemma ReadCellInverse(c: string)
    requires ReadCell(c).Some?
    ensures MatchCell(ReadCell(c)) == c
  {
    var body := c[..|c| - 1];
    assert c == body + "%";
    if body != [] && body[0] == '-' && Canonical(body[1..]) && DigitsValue(body[1..]) != 0 {
      DecimalOfDigits(body[1..]);
      assert body == "-" + body[1..];
    } else {
      DecimalOfDigits(body);
    }
  }

  /** A match of 0% is shown as `0%`. */
  lemma ZeroCell()
    ensures MatchCell(Some(0)) == "0%"
  {
    assert NatToDecimal(0) == "0";
  }

  /** The Details cell: `result_text || error`. An absent or empty value
      renders as nothing. */
  function DetailsCell(r: ResultRow): string
  {
    if Truthy(r.resultText) then r.resultText.value
    else if r.error.Some? then r.error.value
    else []
  }
}
