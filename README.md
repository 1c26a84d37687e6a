# DevicePartDiscovery word statistics, modelled in Dafny

`DevicePartDiscovery` exposes the key words of part catalogs. It counts how
often each word occurs in a catalog, deletes words from such a count map,
finds the most frequent word, computes inverse document frequencies (IDF)
across a corpus of catalogs, combines counts and IDF into TF-IDF scores and
picks the ten best-scored words. This project models those six operations as
imperative Dafny methods over `map` and `seq` values, with loop invariants,
and proves what each of them promises. The caller-owned map that `removeWord`
changes in place is a class with a `map` field.

One module per component, one file each:

- `frequency_counter.dfy`, module `FrequencyCounter`: `calculateWordCounts`.
  `Total` is the sum of a map's values.
- `term_remover.dfy`, module `TermRemover`: the mutable map `WordCountMap`
  and `removeWord`.
- `most_frequent.dfy`, module `MostFrequentFinder`: `getMostFrequentWord`.
- `corpus_idf.dfy`, module `CorpusIdf`: `calculateIdfScores`. It also holds
  the reference definitions `Vocabulary` (the union of all catalogs' key
  sets) and `DocFreq` (the number of catalogs that contain a word).
- `tfidf_scorer.dfy`, module `TfIdfScorer`: `getTfIdfScores`.
- `top_k.dfy`, module `TopKSelector`: `getBestScoredWords`. Here
  `IsRanking` says what the sorted entry list is, and `IsTopRanking` says
  what a correct top-`n` word list is.
- `wrappers.dfy`, module `Wrappers`: `Option` (for Java's `null`) and
  `Result` (for an operation that throws).

How the model stands in for Java:

- A word list comes from the catalog's tokenizer; here it is a
  `seq<string>` parameter.
- `Integer` counts are `int`. `Double` scores are `real`.
- `Math.log10` is the parameter `log10: real -> real`. Nothing is assumed
  about it, so what is proved about IDF is the document-frequency count, the
  key coverage, and the argument passed to `log10`.
- HashMap iteration order is not modelled: every loop over a key set picks
  the next key with `:|`. Tie-breaking results are therefore specified only
  up to ties.
- `Collections.max` is modelled by its result: a value of the map that no
  other value exceeds. The lemma `MaxCountExists` shows such a value always
  exists.
- `List.sort` with the descending comparator is modelled by
  `SortDescending`. The method relies only on its contract: the output is a
  permutation of the input, in descending score order.
- The exceptions the source can raise are `Result.Failure` values:
  - `getTfIdfScores` throws a NullPointerException when a word has no IDF
    score.
  - `subList(0, 10)` throws an IndexOutOfBoundsException when there are
    fewer than ten entries.

Where the code and its documentation disagree, the model follows the code:

- The doc comment of `calculateIdfScores`
  (DevicePartDiscovery.java:102-104) describes df as the sum of a word's
  counts and idf as `1.0/df`. The code (lines 113-122) counts the catalogs
  that contain the word, once each, and takes `log10(N / df)`. The model
  does what the code does.
- The design says an empty corpus should fail. The code loops over nothing
  and returns an empty map. `CalculateIdfScores` does the same and says so in
  its contract.
- The design says a missing IDF score should be reported. The code's
  documentation lets callers be trusted to supply one, and the code throws if
  a score is missing. `GetTfIdfScores` has no precondition. It returns
  `Failure(MissingIdfScore(w))` exactly when some counted word `w` has no
  score.
- The design says fewer than ten entries should either truncate or fail.
  The code fails:
  - `GetBestScoredWords` models the code and returns
    `Failure(SubListOutOfRange)` exactly when the map has fewer than ten
    entries.
  - `GetBestScoredWordsUpTo` is the truncating policy. It returns
    min(k, size) words, with `k` as a parameter.

## Model

| member | source | states |
|---|---|---|
| FrequencyCounter.CalculateWordCounts | src/com/amazon/ata/maps/partsdiscovery/DevicePartDiscovery.java:16-25 | the keys are exactly the words of the list; each value is that word's number of occurrences (its multiplicity in the list); the values sum to the list length, so an empty list gives an empty map |
| FrequencyCounter.TotalAfterUpdate | src/com/amazon/ata/maps/partsdiscovery/DevicePartDiscovery.java:21 | one `put` changes the sum of the values by the new value minus the old one (or minus 0 for a new key) |
| FrequencyCounter.TotalWithout | src/com/amazon/ata/maps/partsdiscovery/DevicePartDiscovery.java:21 | the sum of a map's values is any one key's value plus the sum over the other keys |
| TermRemover.WordCountMap.constructor | src/com/amazon/ata/maps/partsdiscovery/DevicePartDiscovery.java:33 | the mutable map starts with the given entries |
| TermRemover.RemoveWord | src/com/amazon/ata/maps/partsdiscovery/DevicePartDiscovery.java:33-35 | afterwards the word is not a key, the key set is the old one minus the word, and every other key keeps its value; the size drops by one only if the word was present; if it was absent the map is unchanged, so removing twice is the same as removing once |
| MostFrequentFinder.MaxCountExists | src/com/amazon/ata/maps/partsdiscovery/DevicePartDiscovery.java:48 | a non-empty map has a value that no other value exceeds (the value `Collections.max` returns) |
| MostFrequentFinder.GetMostFrequentWord | src/com/amazon/ata/maps/partsdiscovery/DevicePartDiscovery.java:43-55 | the result is absent exactly when the map is null or empty; otherwise it is a key whose count is at least every count of the map; the fall-through `return null` cannot be reached |
| CorpusIdf.VocabularyMembers | src/com/amazon/ata/maps/partsdiscovery/DevicePartDiscovery.java:113-117 | a word is in the union of the catalogs' key sets exactly when some catalog has it as a key |
| CorpusIdf.DocFreqCountsCatalogs | src/com/amazon/ata/maps/partsdiscovery/DevicePartDiscovery.java:113-117 | a word's document frequency is the number of catalog indices whose map contains it: presence, not summed counts |
| CorpusIdf.DocFreqBounds | src/com/amazon/ata/maps/partsdiscovery/DevicePartDiscovery.java:113-117 | 0 <= df(w) <= N, and df(w) >= 1 exactly when w is a word of some catalog |
| CorpusIdf.DocFreqInEveryCatalog | src/com/amazon/ata/maps/partsdiscovery/DevicePartDiscovery.java:113-117 | df(w) = N exactly when every catalog contains w |
| CorpusIdf.RatioInEveryCatalog | src/com/amazon/ata/maps/partsdiscovery/DevicePartDiscovery.java:121 | for a word in every catalog of a non-empty corpus, N / df is exactly 1 |
| CorpusIdf.DocumentFrequencies | src/com/amazon/ata/maps/partsdiscovery/DevicePartDiscovery.java:110-117 | the DF map's keys are the union of all catalogs' key sets, and each value is the word's document frequency |
| CorpusIdf.CalculateIdfScores | src/com/amazon/ata/maps/partsdiscovery/DevicePartDiscovery.java:109-125 | the output's keys are the union of the catalogs' key sets; each word has 1 <= df <= N and the score log10(N / df); a word in every catalog gets log10(1); an empty corpus gives an empty map, not an error |
| TfIdfScorer.GetTfIdfScores | src/com/amazon/ata/maps/partsdiscovery/DevicePartDiscovery.java:66-72 | succeeds exactly when every counted word has an IDF score; then the output has exactly the keys of the count map, each with count × idf; otherwise the failure names a counted word without a score |
| TopKSelector.Insert | src/com/amazon/ata/maps/partsdiscovery/DevicePartDiscovery.java:86-87 | inserting into a descending list keeps it descending and adds exactly the one entry |
| TopKSelector.SortDescending | src/com/amazon/ata/maps/partsdiscovery/DevicePartDiscovery.java:86-87 | the sorted list is a permutation of the entries, in non-increasing score order |
| TopKSelector.EntryList | src/com/amazon/ata/maps/partsdiscovery/DevicePartDiscovery.java:83 | the entry list has one entry per key, each with the key's own score, and no entry twice |
| TopKSelector.RankedEntries | src/com/amazon/ata/maps/partsdiscovery/DevicePartDiscovery.java:83-87 | the sorted entry list holds every entry of the map exactly once, by descending score |
| TopKSelector.TopWords | src/com/amazon/ata/maps/partsdiscovery/DevicePartDiscovery.java:90-96 | the result holds the words of the first n ranked entries, in order |
| TopKSelector.LeftOutScoresLower | src/com/amazon/ata/maps/partsdiscovery/DevicePartDiscovery.java:87-90 | a word not among the first n ranked words scores no higher than any of them |
| TopKSelector.PrefixOfRankingIsTop | src/com/amazon/ata/maps/partsdiscovery/DevicePartDiscovery.java:87-96 | the words of the first n ranked entries are n distinct keys in non-increasing score order, and every word left out scores no higher than every word kept; taking the whole ranking keeps every key |
| TopKSelector.TopRankingScoreAtMost | src/com/amazon/ata/maps/partsdiscovery/DevicePartDiscovery.java:86-90 | of two top-n word lists for the same scores, the i-th word of one scores no higher than the i-th word of the other |
| TopKSelector.TopRankingScoresDetermined | src/com/amazon/ata/maps/partsdiscovery/DevicePartDiscovery.java:86-90 | any two top-n word lists for the same scores have equal scores at every position, so the result is determined up to the order of equally scored words |
| TopKSelector.GetBestScoredWords | src/com/amazon/ata/maps/partsdiscovery/DevicePartDiscovery.java:81-98 | fails exactly when there are fewer than 10 entries; otherwise returns 10 distinct keys in non-increasing score order, and no word left out scores higher than any word returned; with exactly 10 entries every key is returned |
| TopKSelector.GetBestScoredWordsUpTo | src/com/amazon/ata/maps/partsdiscovery/DevicePartDiscovery.java:89-90 | the truncating policy: min(k, size) distinct keys with the same ordering and dominance properties; when k >= size every key is returned |

## Left out

- `PartCatalog` and its tokenizer (`getCatalogWords`) are not part of this model. `CalculateWordCounts` takes the word list as a `seq<string>`.
- Floating point: `double` division, multiplication and `Math.log10` are exact `real` operations in the model, and `log10` is an uninterpreted parameter. So no rounding is modelled, and neither is the fact that log10(1) is 0.
- Integer width: counts and document frequencies are unbounded integers. Java's 32-bit `int` would wrap after 2^31 - 1 occurrences, and the model does not capture this.
- HashMap iteration order: tie-breaks in `getMostFrequentWord`, and the order of equally scored words in `getBestScoredWords`, are left open. The sort's stability is not modelled either.
- `Collections.max`, `List.sort` (TimSort) and `subList`: their internals are not modelled, only their results. `SortDescending` is an insertion sort that stands for the sort's result.
- Java `null` beyond the null-or-empty check of `getMostFrequentWord`: null maps in the other operations, null keys, and null values are not modelled.
