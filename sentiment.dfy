/** `label_from_score`: the three-way sentiment label of a score in [-1, 1]. */
module Sentiment {

  const GoodThresh: real := 0.25
  const BadThresh: real := -0.25

  datatype Label = Good | Neutral | Bad

  /** The label column written for each label. */
  function LabelName(l: Label): string
  {
    match l
    case Good => "good"
    case Neutral => "neutral"
    case Bad => "bad"
  }

  /** Exactly one label per score: good at or above the upper threshold, bad at or below the lower one, neutral strictly between. */
  function LabelFromScore(score: real): (l: Label)
    ensures l == Good <==> score >= GoodThresh
    ensures l == Bad <==> score <= BadThresh
    ensures l == Neutral <==> BadThresh < score < GoodThresh
  {
    if score >= GoodThresh then Good
    else if score <= BadThresh then Bad
    else Neutral
  }

  /** Bad < Neutral < Good. */
  function Rank(l: Label): int
  {
    match l
    case Bad => 0
    case Neutral => 1
    case Good => 2
  }

  /** A higher score never gets a worse label. */
  lemma LabelMonotone(a: real, b: real)
    requires a <= b
    ensures Rank(LabelFromScore(a)) <= Rank(LabelFromScore(b))
  {
  }

  /** The two boundaries are inclusive, and the label names are distinct. */
  lemma LabelExamples()
    ensures LabelName(LabelFromScore(0.25)) == "good"
    ensures LabelName(LabelFromScore(-0.25)) == "bad"
    ensures LabelName(LabelFromScore(0.3)) == "good"
    ensures LabelName(LabelFromScore(0.0)) == "neutral"
    ensures LabelName(LabelFromScore(-0.5)) == "bad"
    ensures forall l1: Label, l2: Label :: LabelName(l1) == LabelName(l2) ==> l1 == l2
  {
  }
}
