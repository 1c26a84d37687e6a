/**
 Entry deletion (`removeWord`): the caller owns a mutable word-count map and
 hands it over to have one word's entry deleted in place.
 */
module TermRemover {

  /** A caller-owned, mutable word -> count map (Java's `Map<String, Integer>`). */
  class WordCountMap {
    var counts: map<string, int>

    constructor (counts: map<string, int>)
      ensures this.counts == counts
    {
      this.counts := counts;
    }
  }

  /**
   Deletes the entry of `word`, if there is one. Every other entry keeps its
   value; removing an absent word changes nothing, so a second removal of the
   same word is a no-op.
   */
  method RemoveWord(word: string, wordCounts: WordCountMap)
    modifies wordCounts
    ensures word !in wordCounts.counts
    ensures wordCounts.counts.Keys == old(wordCounts.counts).Keys - {word}
    ensures forall w :: w in wordCounts.counts ==> wordCounts.counts[w] == old(wordCounts.counts)[w]
    ensures |wordCounts.counts| == if word in old(wordCounts.counts) then |old(wordCounts.counts)| - 1 else |old(wordCounts.counts)|
    ensures word !in old(wordCounts.counts) ==> wordCounts.counts == old(wordCounts.counts)
  {
    wordCounts.counts := wordCounts.counts - {word};
  }
}
