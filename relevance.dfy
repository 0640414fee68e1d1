/** `paragraph_relevance`: the oracle classifies a paragraph as " Yes" or
    " No" (relevant to the question or not) and returns a probability per
    label; the paragraph's score is the " Yes" probability. */
module Relevance {

  /** The label whose probability is the score. */
  const YesLabel: string := " Yes"

  /** `choice_probs.get(" Yes", 0.0)`. */
  function ParagraphRelevance(choiceProbs: map<string, real>): real
  {
    if YesLabel in choiceProbs then choiceProbs[YesLabel] else 0.0
  }

  /** Every label's probability lies in [0, 1]. */
  predicate IsDistribution(choiceProbs: map<string, real>)
  {
    forall choice :: choice in choiceProbs ==> 0.0 <= choiceProbs[choice] <= 1.0
  }

  /** The score is a number between 0 and 1 whenever the classifier
      answers with probabilities, whether or not it mentions " Yes". */
  lemma RelevanceInUnitInterval(choiceProbs: map<string, real>)
    requires IsDistribution(choiceProbs)
    ensures 0.0 <= ParagraphRelevance(choiceProbs) <= 1.0
  {
  }
}
