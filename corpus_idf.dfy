/**
 Document frequency and IDF (`calculateIdfScores`): for every word of a
 corpus of catalogs, the number of catalogs whose count map has the word as
 a key, turned into log10(N / df).
 */
module CorpusIdf {

  /** The words of all catalogs together: the union of their key sets. */
  ghost function Vocabulary(catalogs: seq<map<string, int>>): set<string>
  {
    if catalogs == [] then {}
    else Vocabulary(catalogs[..|catalogs| - 1]) + catalogs[|catalogs| - 1].Keys
  }

  /**
   The document frequency of `word`: how many catalogs contain it as a key.
   A catalog counts once however often the word occurs in it.
   */
  ghost function DocFreq(catalogs: seq<map<string, int>>, word: string): int
  {
    if catalogs == [] then 0
    else DocFreq(catalogs[..|catalogs| - 1], word) + (if word in catalogs[|catalogs| - 1] then 1 else 0)
  }

  /** A word is in the vocabulary exactly when some catalog has it as a key. */
  lemma {:induction false} VocabularyMembers(catalogs: seq<map<string, int>>, word: string)
    ensures word in Vocabulary(catalogs) <==> exists i :: 0 <= i < |catalogs| && word in catalogs[i]
  {
    if catalogs != [] {
      var prefix := catalogs[..|catalogs| - 1];
      VocabularyMembers(prefix, word);
      if word in Vocabulary(prefix) {
        var i :| 0 <= i < |prefix| && word in prefix[i];
        assert word in catalogs[i];
      }
      if exists i :: 0 <= i < |catalogs| && word in catalogs[i] {
        var i :| 0 <= i < |catalogs| && word in catalogs[i];
        if i < |prefix| {
          assert word in prefix[i];
        }
      }
    }
  }

  /** DocFreq is the number of indices of catalogs that contain the word. */
  lemma {:induction false} DocFreqCountsCatalogs(catalogs: seq<map<string, int>>, word: string)
    ensures DocFreq(catalogs, word) == |set i | 0 <= i < |catalogs| && word in catalogs[i]|
  {
    if catalogs != [] {
      var n := |catalogs| - 1;
      var prefix := catalogs[..n];
      DocFreqCountsCatalogs(prefix, word);
      var before := set i | 0 <= i < |prefix| && word in prefix[i];
      var after := set i | 0 <= i < |catalogs| && word in catalogs[i];
      if word in catalogs[n] {
        assert after == before + {n};
      } else {
        assert after == before;
      }
    }
  }

  /**
   DocFreq lies between 0 and N, and it is at least 1 exactly for the words
   of the vocabulary.
   */
  lemma {:induction false} DocFreqBounds(catalogs: seq<map<string, int>>, word: string)
    ensures 0 <= DocFreq(catalogs, word) <= |catalogs|
    ensures DocFreq(catalogs, word) >= 1 <==> word in Vocabulary(catalogs)
  {
    if catalogs != [] {
      DocFreqBounds(catalogs[..|catalogs| - 1], word);
    }
  }

  /** Every catalog of the corpus has `word` as a key. */
  ghost predicate InEveryCatalog(catalogs: seq<map<string, int>>, word: string)
  {
    forall i :: 0 <= i < |catalogs| ==> word in catalogs[i]
  }

  /** DocFreq equals N exactly for a word that every catalog contains. */
  lemma {:induction false} DocFreqInEveryCatalog(catalogs: seq<map<string, int>>, word: string)
    ensures DocFreq(catalogs, word) == |catalogs| <==> InEveryCatalog(catalogs, word)
  {
    if catalogs != [] {
      var n := |catalogs| - 1;
      var prefix := catalogs[..n];
      DocFreqInEveryCatalog(prefix, word);
      DocFreqBounds(prefix, word);
      if InEveryCatalog(catalogs, word) {
        assert InEveryCatalog(prefix, word);
      }
      if DocFreq(catalogs, word) == |catalogs| {
        forall i | 0 <= i < |catalogs|
          ensures word in catalogs[i]
        {
          if i < n {
            assert word in prefix[i];
          }
        }
      }
    }
  }

  /** For a word that every catalog contains, N / df is exactly 1. */
  lemma RatioInEveryCatalog(catalogs: seq<map<string, int>>, word: string)
    requires catalogs != [] && InEveryCatalog(catalogs, word)
    ensures DocFreq(catalogs, word) == |catalogs|
    ensures |catalogs| as real / DocFreq(catalogs, word) as real == 1.0
  {
    DocFreqInEveryCatalog(catalogs, word);
  }

  /**
   The first loop of `calculateIdfScores`: it visits the key set of each
   catalog in turn and adds one to the document frequency of every word in
   it.
   */
  method DocumentFrequencies(catalogWordCounts: seq<map<string, int>>) returns (df: map<string, int>)
    ensures df.Keys == Vocabulary(catalogWordCounts)
    ensures forall w :: w in df ==> df[w] == DocFreq(catalogWordCounts, w)
  {
    df := map[];
    for c := 0 to |catalogWordCounts|
      invariant df.Keys == Vocabulary(catalogWordCounts[..c])
      invariant forall w :: w in df ==> df[w] == DocFreq(catalogWordCounts[..c], w)
    {
      var catalog := catalogWordCounts[c];
      var words := catalog.Keys;
      while words != {}
        invariant words <= catalog.Keys
        invariant df.Keys == Vocabulary(catalogWordCounts[..c]) + (catalog.Keys - words)
        invariant forall w :: w in df ==>
          df[w] == DocFreq(catalogWordCounts[..c], w) + (if w in catalog && w !in words then 1 else 0)
        decreases words
      {
        var word :| word in words;
        DocFreqBounds(catalogWordCounts[..c], word);
        df := df[word := (if word in df then df[word] else 0) + 1];
        words := words - {word};
      }
      assert catalogWordCounts[..c + 1][..c] == catalogWordCounts[..c];
    }
    assert catalogWordCounts[..|catalogWordCounts|] == catalogWordCounts;
  }

  /**
   `calculateIdfScores`: the document frequencies, then a second loop that
   maps each word to log10(N / df), the division done on reals as the source
   does it on doubles. `log10` stands for `Math.log10`. With no catalogs
   both loops are empty and so is the result.
   */
  method CalculateIdfScores(catalogWordCounts: seq<map<string, int>>, log10: real -> real)
    returns (idfScores: map<string, real>)
    ensures idfScores.Keys == Vocabulary(catalogWordCounts)
    ensures forall w :: w in idfScores ==> 1 <= DocFreq(catalogWordCounts, w) <= |catalogWordCounts|
    ensures forall w :: w in idfScores ==>
      idfScores[w] == log10(|catalogWordCounts| as real / DocFreq(catalogWordCounts, w) as real)
    ensures forall w :: w in idfScores && InEveryCatalog(catalogWordCounts, w) ==> idfScores[w] == log10(1.0)
    ensures catalogWordCounts == [] ==> idfScores == map[]
  {
    var n := |catalogWordCounts|;
    var df := DocumentFrequencies(catalogWordCounts);
    idfScores := map[];
    var words := df.Keys;
    while words != {}
      invariant words <= df.Keys
      invariant idfScores.Keys == df.Keys - words
      invariant forall w :: w in idfScores ==> 1 <= DocFreq(catalogWordCounts, w) <= n
      invariant forall w :: w in idfScores ==> idfScores[w] == log10(n as real / DocFreq(catalogWordCounts, w) as real)
      decreases words
    {
      var word :| word in words;
      DocFreqBounds(catalogWordCounts, word);
      var idf := n as real / df[word] as real;
      idfScores := idfScores[word := log10(idf)];
      words := words - {word};
    }
    forall w | w in idfScores && InEveryCatalog(catalogWordCounts, w)
      ensures idfScores[w] == log10(1.0)
    {
      RatioInEveryCatalog(catalogWordCounts, w);
    }
  }
}
