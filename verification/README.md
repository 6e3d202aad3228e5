# Resume screening: result handling, modelled in Dafny

The app screens resumes against a job description. The React page
(`frontend/src/App.jsx`) collects the description, a hiring type, a level and
a set of PDF/DOCX files, posts them to the FastAPI endpoint
`/analyze-resumes/` (`backend/main.py`), and shows one table row per file.

This project models the parts of that flow that decide what the user sees:

- **`analyze_resume`** (module `Screening`):
  - The prompt is chosen from the two form codes. Unknown codes give the fixed error string.
  - The reply's leading and trailing whitespace is stripped. A reply without content is replaced by a stand-in text.
  - The match percentage is read with the first match of `Match\s*%:\s*(\d+)`.
  - Below 72 the reply is rewritten. Every `Decision:` tail becomes `Decision: ❌ Reject`. The `Reason (if Rejected):` tail is replaced, or the reason line is appended when there is none.
- **`re.sub(r"M.*", R, s)`** (module `LineSub`):
  - Modelled as Python's left-to-right scan.
  - Proved equal to a per-line rewrite that replaces each line from its first marker to its end.
- **`analyze_resumes`** (module `Batch`):
  - POSIX `os.path.splitext`, then lower-casing, routes each file.
  - Each file gets a record in upload order: the screening, the invalid-choice error, or the unsupported-type error.
- **`extractDecision` and the table cells** (module `Decision`):
  - The ordered fallback: explicit `decision` field, then the `Decision:` tag in `result_text`, then `error`, then `-`.
  - The Match % cell and the Details cell.
- **The page's state** (module `App`):
  - The form fields and the file choice, which replaces the staged files.
  - The form the submit handler sends.
  - The loading flag: at most one request is in flight, and the button is disabled while loading.
  - How the answer, or a failure, replaces the results.
- **Both sides together** (module `Pipeline`):
  - How the endpoint binds the form.
  - The JSON row of each record.
  - What the table shows after a full round.

External effects are parameters of the model:

- The language model is a function `model: Prompt -> Option<string>`. `None` is a reply without content.
- Text extraction is a function `extract: (Format, seq<Byte>) -> string`.
- The network answer is a `Response` value passed to the settle step.

Shared text helpers live in `Strings`: substring search, the whitespace classes of Python and of JavaScript regular expressions, `str.strip()`, decimal numerals and lines. The fixed phrases both sides use are in `Protocol`.

Behaviour the model follows as the code has it:

- Choosing files replaces the staged list; it never appends.
- Staged files and form fields are kept after a submit.
- Nothing is validated on the page before sending.
- A text verdict needs the mark: `Decision: Reject` without `❌` is read as no verdict (`Decision.PlainRejectHasNoVerdict`).
- The stand-in text for a reply without content scores 0%. Its own reason line is therefore always overwritten by the threshold reason (`Screening.NoReplyScore`).
- The back end never sends a `decision` field, so the page always falls back to the reply text.
- A screened reply below 72% shows `Rejected` exactly when some line holds `Decision:` with no reason label before its first `Decision:`; every other such reply shows `-` (`Pipeline.BelowThresholdRow`). On a line where the reason label comes first, the reason rewrite cuts the line at the label and takes the written rejection with it. `Reason (if Rejected): Decision: ✅ Shortlist` is one such reply (`Pipeline.ReasonFirstShowsDash`).
- FastAPI reads an empty form field as a missing one. The page starts with an empty description and checks nothing, so pressing Evaluate before typing one gets a 422 answer without `results`, and the table is emptied (`Pipeline.FreshPageClears`).

## Model

| member | source | states |
|---|---|---|
| Strings.Strip | backend/main.py:238 | the result occurs in the input with only Python whitespace before and after it, and it neither starts nor ends with whitespace |
| Strings.StripIdempotent | backend/main.py:238 | stripping a stripped text changes nothing |
| Strings.IndexOf | backend/main.py:250 | the result is the leftmost index where the marker occurs, and there is none exactly when the text does not contain the marker |
| Strings.NatToDecimal | frontend/src/App.jsx:116 | the numeral is non-empty, all digits, has no leading zero and reads back as the number |
| Strings.DecimalOfDigits | frontend/src/App.jsx:116 | a numeral without leading zeros is the numeral of its own value |
| LineSub.SubIsPerLine | backend/main.py:249 | the left-to-right `re.sub` scan equals rewriting each line from its first marker to its end, for a marker without a line feed |
| LineSub.SubLines | backend/main.py:249 | the scan keeps the number of lines and rewrites each line on its own |
| LineSub.SubMarker | backend/main.py:251 | without the marker the text is unchanged; with it the replacement appears in the result |
| LineSub.SubIdempotent | backend/main.py:249 | when the replacement starts with the marker, substituting twice equals substituting once |
| LineSub.RewriteLineAt | backend/main.py:249 | a line whose first marker is at `i` becomes its first `i` characters followed by the replacement |
| Screening.HiringOf | backend/main.py:40-163 | exactly the codes "1", "2", "3" are recognised, each as the hiring type it encodes |
| Screening.LevelOf | backend/main.py:41-194 | exactly the codes "1", "2" are recognised, each as the level it encodes |
| Screening.SelectPrompt | backend/main.py:39-226 | a prompt is chosen exactly when both codes are known; it carries the two codes' meanings, the description and the resume |
| Screening.AnalyzeResume | backend/main.py:227-228 | the result is the invalid-choice error exactly when a code is unknown, and then it is exactly the fixed message |
| Screening.ChoiceErrorIgnoresModel | backend/main.py:227-230 | with unknown codes the outcome is the same whatever the model would reply |
| Screening.ReplyReport | backend/main.py:236-257 | with known codes the report is the scored reply text: the percentage is read from the stripped reply; at 72 or more the stripped reply is shown unchanged; below 72 it is shown after the threshold rewrite and so carries the threshold reason; a reply without content shows the stand-in text rejected with the threshold reason at 0% |
| Screening.MatchIndex | backend/main.py:244 | the position found is a match of the pattern and no position before it matches; none means no position matches |
| Screening.MatchPercent | backend/main.py:243-246 | the percentage is the number captured by the leftmost match of the pattern, and 0 when nothing matches |
| Screening.MatchLineAt | backend/main.py:244 | the pattern matches a line `Match %: n` at its start and captures `n` when no digit follows |
| Screening.MatchLineRead | backend/main.py:243-246 | a line `Match %: n` not followed by a digit reads back as `n` |
| Screening.RejectBelowThreshold | backend/main.py:248-253 | the rewritten text always contains `Reason (if Rejected): Match % below 72% threshold.` |
| Screening.DecisionLines | backend/main.py:248-249 | below the threshold every line with `Decision:` keeps its text before the first `Decision:` and then reads `Decision: ❌ Reject`; all other lines are unchanged and no line is added or lost |
| Screening.ReasonLines | backend/main.py:250-253 | an existing reason line is rewritten in place on each line; without one the lines are kept and the threshold reason follows as one more line |
| Screening.RejectIdempotent | backend/main.py:248-253 | applying the threshold rewrite to its own output changes nothing |
| Screening.FirstDecisionRejects | backend/main.py:248-253 | in the rewritten text the first `Decision:`, if any, starts `Decision: ❌ Reject` |
| Screening.DecisionSurvives | backend/main.py:248-253 | a `Decision:` line with no reason label before its first `Decision:` leaves `Decision: ❌ Reject` in the output |
| Screening.LineLosesDecision | backend/main.py:248-253 | a line whose first `Decision:` has a reason label before it, or that has no `Decision:`, holds no `Decision:` after both rewrites |
| Screening.NoDecisionLeft | backend/main.py:248-253 | when no line holds `Decision:` without a reason label before its first `Decision:`, the rewritten text holds no `Decision:` at all |
| Screening.Score | backend/main.py:243-253 | the percentage is the one read from the reply; at 72 or more the text is unchanged; below 72 it carries the threshold reason |
| Screening.ScoreTextIdempotent | backend/main.py:243-253 | scoring a shown text again shows the same text |
| Screening.NoReplyScore | backend/main.py:239-253 | the stand-in reply scores 0% and is shown as its match line, the rejection and the threshold reason |
| Batch.LastIndex | backend/main.py:275 | the index found holds the character and no later index does; -1 when there is none |
| Batch.Ext | backend/main.py:275 | the extension is a suffix of the name that is empty or a dot followed by no dot and no slash; it is non-empty exactly when the name splits into a stem whose last component is not all dots and an extension, and then the stem is what precedes it |
| Batch.ExtOfNamed | backend/main.py:275 | a name made of a stem whose last component is not all dots and then an extension has that extension, `cv..pdf` included |
| Batch.ExtStartSplits | backend/main.py:275 | `splitext` splits inside the name exactly when the name splits into such a stem and an extension, and then it splits at that point |
| Batch.DoubledDotExt | backend/main.py:275 | an example: `cv..pdf` has the extension `.pdf` |
| Batch.DotNameHasNoExt | backend/main.py:275 | a last path component of leading dots and one extension, such as `.pdf` or `a/.pdf`, has no extension |
| Batch.Lower | backend/main.py:275 | the result has no upper-case ASCII letter left, and every other character is kept in place |
| Batch.LowerIdempotent | backend/main.py:275 | lower-casing an already lower-cased suffix changes nothing |
| Batch.FormatIgnoresCase | backend/main.py:275-282 | a suffix is read as PDF exactly when it is `.pdf` in any letter case, and as DOCX exactly when it is `.docx` in any letter case |
| Batch.AnalyzeFile | backend/main.py:273-296 | the record carries the file's name or `""`; an unsupported type gets the unsupported-type error whatever the codes; a supported file's outcome is `analyze_resume` of the text extracted in its format, which is a screening exactly when both codes are known and otherwise the invalid-choice error |
| Batch.MapFiles | backend/main.py:272-297 | the loop gives one record per file, in upload order |
| Batch.AnalyzeResumes | backend/main.py:265-297 | one record per uploaded file, in upload order, each the analysis of that file with the shared description and codes |
| Decision.VerdictIndex | frontend/src/App.jsx:13 | the position found is a match of the pattern and none before it matches; none means no position matches |
| Decision.TextVerdictLeftmost | frontend/src/App.jsx:13-16 | the verdict read is the one at the leftmost match, and there is none when nothing matches |
| Decision.TextVerdictAtFirstDecision | frontend/src/App.jsx:13-16 | a text whose first `Decision:` starts `Decision: ❌ Reject` reads as a rejection |
| Decision.PlainRejectHasNoVerdict | frontend/src/App.jsx:13 | `Decision: Reject` without the mark yields no verdict |
| Decision.NoMarkerNoVerdict | frontend/src/App.jsx:13-16 | a text without `Decision:` yields no verdict |
| Decision.ExtractDecision | frontend/src/App.jsx:4-21 | `Shortlisted`, `Rejected`, `Error` and `-` each exactly under its condition: a preferred decision field naming the verdict, else the reply text's verdict, else an error message, else nothing; a preferred field naming neither verdict is shown as it is |
| Decision.ExplicitWins | frontend/src/App.jsx:5-10 | a preferred decision field decides the column whatever the reply text and error are |
| Decision.IntToDecimal | frontend/src/App.jsx:116 | the text is a minus sign for a negative number and then the digits of its magnitude, without leading zeros, whose value is that magnitude |
| Decision.MatchCell | frontend/src/App.jsx:116 | the cell is `-` exactly when the row has no `match_percent`; otherwise it is the number's canonical numeral followed by `%`; reading the cell back gives the row's `match_percent` |
| Decision.ReadCellInverse | frontend/src/App.jsx:116 | every cell that reads as a number is the cell written for that number, so no other text, such as `007%` or `-0%`, stands for it |
| Decision.ZeroCell | frontend/src/App.jsx:116 | a match of 0 is shown as `0%`, not as `-` |
| App.ChooseFilesStep | frontend/src/App.jsx:31-33 | the staged files become the chosen ones; every other field is kept |
| App.ChooseFilesLastWins | frontend/src/App.jsx:31-33 | a second choice forgets the first |
| App.PressStep | frontend/src/App.jsx:36-44 | a press while loading does nothing, as the button is disabled; otherwise loading starts and the form of the current fields and files is sent |
| App.SettleStep | frontend/src/App.jsx:50-56 | loading ends; results become the answer's rows, or empty when the answer has none or the request failed; the form and the staged files are kept |
| App.Step | frontend/src/App.jsx:31-98 | a form is sent exactly on a press while idle, and it is the page's current form; loading starts only on that press and ends only on an answer; the table changes only on an answer, the files only on a file choice; the description, hiring type and level change only on their own edit or pick, and then take the value entered |
| App.SingleFlight | frontend/src/App.jsx:98 | over any sequence of events, requests sent equal answers taken in plus one exactly while loading |
| App.LoadingRun | frontend/src/App.jsx:37-56 | from a loading state, one request more than answers is outstanding until loading ends |
| App.CodesStayValid | frontend/src/App.jsx:68-80 | the codes the page holds stay among the options of the select boxes |
| App.FromInitial | frontend/src/App.jsx:24-29 | from the page's initial state, after any events the page can produce, at most one request is in flight and the codes are among the options |
| App.FailedRoundShows | frontend/src/App.jsx:98-102 | while a request is pending the button is disabled and reads `Evaluating...`; after a failed request it reads `Evaluate` and no table is drawn |
| App.RoundKeepsForm | frontend/src/App.jsx:35-57 | a press followed by its answer changes nothing but the results |
| Pipeline.LastField | backend/main.py:266-268 | a value found is that of a field of that name with no field of that name after it; none means there is no such field |
| Pipeline.FilePartsOfFiles | frontend/src/App.jsx:42-44 | after any text fields, the `files` parts the page appends bind to the staged files, one upload per file, in order |
| Pipeline.ReadFormEntries | frontend/src/App.jsx:38-44 | the endpoint binds exactly the description, codes and staged files the page sent, in order, unless no file is staged or a text field is empty, in which case the request is rejected |
| Pipeline.ToRow | backend/main.py:255-295 | the row carries the file name and never a `decision`; a screened file's row holds the report's percentage and shown text; a failed file's row holds its error message and no text |
| Pipeline.RoundRows | frontend/src/App.jsx:35-57 | after a round whose form binds, the table has one row per staged file, in order, each the row of that file's record; otherwise the table is empty; loading has ended and the form is kept |
| Pipeline.FreshPageClears | frontend/src/App.jsx:24-57 | pressing Evaluate on the initial page, whatever files are chosen, leaves the table empty, because the description is still empty |
| Pipeline.UnsupportedRowShows | backend/main.py:283-289 | a turned-away file shows `Error`, `-` for the percentage and the unsupported-type message in its details |
| Pipeline.ErrorOnlyForType | backend/main.py:279-289 | with codes the page can send, a file shows `Error` and `-` exactly when its type is unsupported |
| Pipeline.BelowThresholdShowsRejected | backend/main.py:248-253 | a screened reply below 72% with a `Decision:` line that has no reason label before its first `Decision:` shows `Rejected` |
| Pipeline.BelowThresholdRow | backend/main.py:248-253 | a screened reply below 72% shows `Rejected` exactly when it has a `Decision:` line with no reason label before its first `Decision:`, and `-` otherwise |
| Pipeline.ReasonFirstShowsDash | backend/main.py:250-251 | the reply `Reason (if Rejected): Decision: ✅ Shortlist` holds a `Decision:`, reads below 72%, is shown as the bare threshold reason, and its row shows `-` |

## Left out

- The OpenAI chat call, the prompt wording, the model parameters and the usage passthrough. The model is the parameter `model`, and each prompt is the tag `(hiring type, level, description, resume)`.
- PDF and DOCX text extraction, the temporary file and its removal. Extraction is the parameter `extract`.
- FastAPI's app setup, CORS and request validation beyond field binding. The binding itself is modelled: the last value of each text field, an empty text field read as missing, and every `files` part in order.
- `fetch`, `alert` and the JSX markup beyond the cells and button state listed above. The network round trip is the `Response` input of `App.SettleStep`.
- Exceptions inside the endpoint, such as a failing model call or extraction. The server then answers with an error page, which the page handles like a failed request (`Threw` in `App.SettleStep`).
- `mailtest.py`, an SMTP sender unrelated to screening.
- JSON values of other types in a result row: `decision`, `result_text` and `error` are strings or absent, and `match_percent` is an integer or absent. The back end sends nothing else.
- Screening.MatchAt: reads only ASCII digits for `\d`, where Python also accepts other Unicode decimal digits.
- Batch.Ext: follows `posixpath.splitext`, which splits paths only at `/`. On a Windows server `ntpath` also splits at `\`, so `x\.pdf` would have no extension there but has `.pdf` here.
- Batch.Lower: lower-cases ASCII letters only. No other character lower-cases into the letters of `.pdf` or `.docx`, so the routing is unaffected.
- Decision.IntToDecimal: writes integers as decimal numerals. JavaScript switches to exponent notation at 10^21, and loses precision above 2^53.
