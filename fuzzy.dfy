/** The fuzzy matcher of the `fuzzywuzzy` library, kept abstract. */
module Fuzzy {
  import opened Wrappers

  /** The `(best_match, similarity)` pair `process.extractOne` returns. */
  datatype Match = Match(choice: string, score: int)

  /** `process.extractOne(query, choices)` with some fixed scorer: the best
      choice and its score, or `None` when there is nothing to choose from. */
  type ExtractOne = (string, seq<string>) -> Option<Match>

  /** What the library guarantees and the model relies on: there is a best
      match exactly when the choice list is non-empty, and it is one of the
      choices. */
  ghost predicate PicksFromChoices(extractOne: ExtractOne)
  {
    forall query, choices ::
      (extractOne(query, choices).None? <==> choices == [])
      && (extractOne(query, choices).Some? ==> extractOne(query, choices).value.choice in choices)
  }
}
