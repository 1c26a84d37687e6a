/**
 Score mapping (`getTfIdfScores`): one catalog's word counts combined with
 the corpus IDF scores into a TF-IDF score per word.
 */
module TfIdfScorer {
  import opened Wrappers

  /**
   The exception the source raises when a counted word has no IDF score:
   `idfScores.get(word)` is null and unboxing it for the product throws a
   NullPointerException.
   */
  datatype ScoringError = MissingIdfScore(word: string)

  /**
   The loop of `getTfIdfScores`. Each counted word's score is its count times
   its IDF score, and no other word gets one. The source's documentation lets
   it assume an IDF score for every counted word; when one is missing it
   fails, naming a word that has no score.
   */
  method GetTfIdfScores(wordCounts: map<string, int>, idfScores: map<string, real>)
    returns (r: Result<map<string, real>, ScoringError>)
    ensures r.Success? <==> wordCounts.Keys <= idfScores.Keys
    ensures r.Success? ==> r.value.Keys == wordCounts.Keys
    ensures r.Success? ==> forall w :: w in r.value ==> r.value[w] == wordCounts[w] as real * idfScores[w]
    ensures r.Failure? ==> r.error.word in wordCounts && r.error.word !in idfScores
  {
    var tfIdfScores := map[];
    var words := wordCounts.Keys;
    while words != {}
      invariant words <= wordCounts.Keys
      invariant forall w :: w in wordCounts.Keys - words ==> w in idfScores
      invariant tfIdfScores.Keys == wordCounts.Keys - words
      invariant forall w :: w in tfIdfScores ==> tfIdfScores[w] == wordCounts[w] as real * idfScores[w]
      decreases words
    {
      var word :| word in words;
      if word !in idfScores {
        return Failure(MissingIdfScore(word));
      }
      tfIdfScores := tfIdfScores[word := wordCounts[word] as real * idfScores[word]];
      words := words - {word};
    }
    return Success(tfIdfScores);
  }
}
