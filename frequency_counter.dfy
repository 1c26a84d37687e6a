/**
 Word counting: turns the token list of one catalog into a map from each
 distinct word to the number of times it occurs (`calculateWordCounts`).
 */
module FrequencyCounter {

  /** The sum of all values of a count map. */
  ghost function Total(m: map<string, int>): int
    decreases |m|
  {
    if m == map[] then 0
    else
      var k :| k in m;
      m[k] + Total(m - {k})
  }

  /** Taking any one key out of the sum leaves the sum of the rest. */
  lemma {:induction false} TotalWithout(m: map<string, int>, k: string)
    requires k in m
    ensures Total(m) == m[k] + Total(m - {k})
    decreases |m|
  {
    var j :| j in m && Total(m) == m[j] + Total(m - {j});
    if j != k {
      TotalWithout(m - {j}, k);
      TotalWithout(m - {k}, j);
      assert m - {j} - {k} == m - {k} - {j};
    }
  }

  /** Setting key `k` to `v` changes the sum by the difference of the old and new value. */
  lemma TotalAfterUpdate(m: map<string, int>, k: string, v: int)
    ensures Total(m[k := v]) == Total(m) - (if k in m then m[k] else 0) + v
  {
    TotalWithout(m[k := v], k);
    if k in m {
      TotalWithout(m, k);
      assert m[k := v] - {k} == m - {k};
    } else {
      assert m[k := v] - {k} == m;
    }
  }

  /**
   The counting loop of `calculateWordCounts`: every distinct token becomes a
   key, its value is the number of its occurrences, so the values add up to
   the number of tokens. The tokens are the catalog's word list as the
   catalog's tokenizer returns it.
   */
  method CalculateWordCounts(catalogWords: seq<string>) returns (wordCounts: map<string, int>)
    ensures forall w :: w in wordCounts <==> w in catalogWords
    ensures forall w :: w in wordCounts ==> wordCounts[w] == multiset(catalogWords)[w]
    ensures Total(wordCounts) == |catalogWords|
  {
    wordCounts := map[];
    for i := 0 to |catalogWords|
      invariant forall w :: w in wordCounts <==> w in catalogWords[..i]
      invariant forall w :: w in wordCounts ==> wordCounts[w] == multiset(catalogWords[..i])[w]
      invariant Total(wordCounts) == i
    {
      var word := catalogWords[i];
      var count := if word in wordCounts then wordCounts[word] else 0;
      TotalAfterUpdate(wordCounts, word, count + 1);
      wordCounts := wordCounts[word := count + 1];
      assert catalogWords[..i + 1] == catalogWords[..i] + [word];
    }
    assert catalogWords[..|catalogWords|] == catalogWords;
  }
}
