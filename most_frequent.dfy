/**
 Argmax (`getMostFrequentWord`): a word whose count is the largest count of
 the map, or no word at all for a null or empty map.
 */
module MostFrequentFinder {
  import opened Wrappers

  /** Every non-empty count map has a largest value (what `Collections.max` returns). */
  lemma {:induction false} MaxCountExists(m: map<string, int>)
    requires m != map[]
    ensures exists c :: c in m.Values && forall v :: v in m.Values ==> v <= c
    decreases |m|
  {
    var k :| k in m;
    var rest := m - {k};
    var best := m[k];
    if rest != map[] {
      MaxCountExists(rest);
      var c :| c in rest.Values && forall v :: v in rest.Values ==> v <= c;
      if m[k] < c {
        var w :| w in rest && rest[w] == c;
        assert m[w] == c;
        best := c;
      }
    }
    forall v | v in m.Values
      ensures v <= best
    {
      var w :| w in m && m[w] == v;
      if w != k {
        assert v in rest.Values by { assert w in rest; }
      }
    }
    assert best in m.Values;
  }

  /**
   `None` stands for both a null argument and a null result. On a non-empty
   map the result is a key whose count no other count exceeds; which of
   several such keys is returned depends on the map's iteration order and is
   not determined.
   */
  method GetMostFrequentWord(wordCounts: Option<map<string, int>>) returns (word: Option<string>)
    ensures word == None <==> (wordCounts == None || wordCounts.value == map[])
    ensures word.Some? ==> word.value in wordCounts.value
    ensures word.Some? ==> forall w :: w in wordCounts.value ==> wordCounts.value[w] <= wordCounts.value[word.value]
  {
    if wordCounts == None || wordCounts.value == map[] {
      return None;
    }
    var m := wordCounts.value;
    MaxCountExists(m);
    var maxCount :| maxCount in m.Values && forall v :: v in m.Values ==> v <= maxCount;
    assert forall w :: w in m ==> m[w] <= maxCount by {
      forall w | w in m ensures m[w] <= maxCount { assert m[w] in m.Values; }
    }
    var keys := m.Keys;
    while true
      invariant keys <= m.Keys
      invariant exists k :: k in keys && m[k] == maxCount
      decreases keys
    {
      var key :| key in keys;
      if m[key] == maxCount {
        return Some(key);
      }
      keys := keys - {key};
    }
  }
}
