/** `pred`: the résumé is normalised and the normalised text is handed to the
    trained model, which the model here takes as a parameter: TF-IDF
    vectorising, the classifier and the label decoder together are one
    function from cleaned text to a category name. */
module Predict {
  import opened Clean

  /** The category `classify` gives the cleaned résumé. */
  function Predict(classify: string -> string, resume: string): string {
    classify(CleanResume(resume))
  }

  /** Cleaning a résumé before predicting changes nothing: the classifier
      sees the same text either way. */
  lemma PredictIgnoresCleaning(classify: string -> string, resume: string)
    ensures Predict(classify, CleanResume(resume)) == Predict(classify, resume)
  {
    CleanResumeIdempotent(resume);
  }
}
