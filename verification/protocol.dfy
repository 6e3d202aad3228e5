/** The fixed phrases the screening reply is written in. The back end rewrites
    them and the front end searches for them, so both sides share one
    definition. */
module Protocol {
  /** The label of the verdict line. */
  const DecisionMarker: string := "Decision:"
  /** The two verdict tags the front end recognises after the label. */
  const ShortlistTag: string := "✅ Shortlist"
  const RejectTag: string := "❌ Reject"
  /** The verdict line the threshold rewrite writes: `Decision: ❌ Reject`. */
  const RejectDecision: string := DecisionMarker + " " + RejectTag
  /** The label of the reason line. */
  const ReasonMarker: string := "Reason (if Rejected):"
  /** What the threshold rewrite writes after the reason label. */
  const ThresholdNote: string := " Match % below 72% threshold."
  /** The reason line the threshold rewrite writes:
      `Reason (if Rejected): Match % below 72% threshold.` */
  const ThresholdReason: string := ReasonMarker + ThresholdNote
}
