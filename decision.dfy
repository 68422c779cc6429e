/** The decision record the deterministic rules return. */
module Decisions {
  import opened Settings

  /** The fields of the result the rules serialize: whether the names match, the
      confidence (0 to 100) and the explanation. */
  datatype Decision = Decision(isMatch: bool, confidence: int, explanation: string)

  /** A decision whose verdict agrees with its confidence under the policy threshold. */
  predicate Consistent(d: Decision) {
    d.isMatch <==> d.confidence >= THRESHOLD
  }

  /** `create_match_result(confidence, reasoning)`: the decision for a confidence, a match
      exactly when the confidence reaches the threshold. */
  function CreateMatchResult(confidence: int, reasoning: string): (d: Decision)
    ensures d.confidence == confidence && d.explanation == reasoning
    ensures d.isMatch <==> confidence >= THRESHOLD
  {
    Decision(confidence >= THRESHOLD, confidence, reasoning)
  }
}
