/**
 Top-10 selection (`getBestScoredWords`): the entries of a TF-IDF score map
 sorted by descending score, and the words of the first ten of them.
 */
module TopKSelector {
  import opened Wrappers

  /** How many words `getBestScoredWords` keeps. */
  const BestWordsCount: nat := 10

  /** A `Map.Entry<String, Double>` of the score map. */
  datatype Entry = Entry(word: string, score: real)

  /**
   The exception `subList(0, 10)` raises (IndexOutOfBoundsException) when the
   list holds fewer than ten entries.
   */
  datatype SelectionError = SubListOutOfRange

  /** No element occurs twice. */
  ghost predicate Distinct<T>(s: seq<T>)
  {
    forall i, j :: 0 <= i < j < |s| ==> s[i] != s[j]
  }

  /** Ordered as the source's comparator orders entries: by descending score. */
  ghost predicate SortedDescending(es: seq<Entry>)
  {
    forall i, j :: 0 <= i < j < |es| ==> es[i].score >= es[j].score
  }

  /**
   `ranked` lists every entry of `scores` exactly once (each word with its
   own score and nothing else), highest score first.
   */
  ghost predicate IsRanking(ranked: seq<Entry>, scores: map<string, real>)
  {
    && |ranked| == |scores|
    && (forall e :: e in ranked <==> e.word in scores && scores[e.word] == e.score)
    && Distinct(ranked)
    && SortedDescending(ranked)
  }

  /**
   `best` is a list of `n` distinct words of `scores`, by non-increasing
   score, and no word left out scores higher than any word kept.
   */
  ghost predicate IsTopRanking(best: seq<string>, scores: map<string, real>, n: nat)
  {
    && |best| == n
    && (forall i :: 0 <= i < |best| ==> best[i] in scores)
    && Distinct(best)
    && (forall i, j :: 0 <= i < j < |best| ==> scores[best[i]] >= scores[best[j]])
    && (forall w, i :: w in scores && w !in best && 0 <= i < |best| ==> scores[w] <= scores[best[i]])
  }

  /** A sequence without repeated elements holds each value at most once. */
  lemma {:induction false} DistinctCountsAtMostOne<T>(s: seq<T>)
    requires Distinct(s)
    ensures forall x :: multiset(s)[x] <= 1
  {
    if s != [] {
      var tail := s[1..];
      assert Distinct(tail) by {
        forall i, j | 0 <= i < j < |tail| ensures tail[i] != tail[j] {
          assert tail[i] == s[i + 1] && tail[j] == s[j + 1];
        }
      }
      DistinctCountsAtMostOne(tail);
      assert s == [s[0]] + tail;
      forall k | 0 <= k < |tail| ensures tail[k] != s[0] {
        assert tail[k] == s[k + 1];
      }
      assert s[0] !in tail;
    }
  }

  /** Appending a new element creates no repeat. */
  lemma AppendKeepsDistinct<T>(s: seq<T>, x: T)
    requires Distinct(s) && x !in s
    ensures Distinct(s + [x])
  {
    var r := s + [x];
    forall i, j | 0 <= i < j < |r|
      ensures r[i] != r[j]
    {
      assert r[i] == s[i];
    }
  }

  /** Reordering a sequence without repeated elements creates none. */
  lemma PermutationKeepsDistinct<T>(a: seq<T>, b: seq<T>)
    requires multiset(a) == multiset(b) && Distinct(a)
    ensures Distinct(b)
  {
    DistinctCountsAtMostOne(a);
    forall i, j | 0 <= i < j < |b|
      ensures b[i] != b[j]
    {
      assert b == b[..j] + [b[j]] + b[j + 1..];
      assert multiset(b) == multiset(b[..j]) + multiset{b[j]} + multiset(b[j + 1..]);
      assert b[i] in b[..j];
      assert multiset(b)[b[i]] >= 1 + (if b[i] == b[j] then 1 else 0);
    }
  }

  /** The elements of a sequence without repeats are as many as its length. */
  lemma {:induction false} DistinctElementCount<T>(s: seq<T>)
    requires Distinct(s)
    ensures |set x | x in s| == |s|
  {
    if s != [] {
      var init := s[..|s| - 1];
      assert Distinct(init) by {
        forall i, j | 0 <= i < j < |init| ensures init[i] != init[j] {
          assert init[i] == s[i] && init[j] == s[j];
        }
      }
      DistinctElementCount(init);
      forall k | 0 <= k < |init| ensures init[k] != s[|s| - 1] {
        assert init[k] == s[k];
      }
      assert (set x | x in s) == (set x | x in init) + {s[|s| - 1]} by {
        assert s == init + [s[|s| - 1]];
      }
    }
  }

  /** A sequence has at most as many distinct elements as its length. */
  lemma {:induction false} ElementCountAtMostLength<T>(s: seq<T>)
    ensures |set x | x in s| <= |s|
  {
    if s != [] {
      var init := s[..|s| - 1];
      ElementCountAtMostLength(init);
      assert (set x | x in s) == (set x | x in init) + {s[|s| - 1]} by {
        assert s == init + [s[|s| - 1]];
      }
    }
  }

  /** A subset has no more elements than its superset. */
  lemma {:induction false} SubsetCount<T>(a: set<T>, b: set<T>)
    ensures a <= b ==> |a| <= |b|
    decreases |a|
  {
    if a != {} && a <= b {
      var x :| x in a;
      SubsetCount(a - {x}, b - {x});
    }
  }

  /**
   Of the first `i + 1` elements of a sequence without repeats, at least one
   is not among the first `i` elements of any other sequence.
   */
  lemma {:induction false} SomeElementOutsidePrefix<T>(a: seq<T>, b: seq<T>, i: nat)
    requires Distinct(a) && i < |a| && i <= |b|
    ensures exists j :: 0 <= j <= i && a[j] !in b[..i]
  {
    var headA, headB := a[..i + 1], b[..i];
    assert Distinct(headA) by {
      forall p, q | 0 <= p < q < |headA| ensures headA[p] != headA[q] {
        assert headA[p] == a[p] && headA[q] == a[q];
      }
    }
    DistinctElementCount(headA);
    ElementCountAtMostLength(headB);
    SubsetCount(set x | x in headA, set x | x in headB);
    var x :| x in headA && x !in headB;
    var j :| 0 <= j < |headA| && headA[j] == x;
    assert a[j] == x;
  }

  /**
   In two top-`n` rankings of the same scores, the `i`-th word of the first
   scores no higher than the `i`-th word of the second: one of the first
   `i + 1` words of `a` is not among the first `i` words of `b`, and that
   word scores at least as high as `a[i]` and at most as high as `b[i]`.
   */
  lemma TopRankingScoreAtMost(a: seq<string>, b: seq<string>, scores: map<string, real>, n: nat, i: nat)
    requires IsTopRanking(a, scores, n) && IsTopRanking(b, scores, n) && i < n
    ensures scores[a[i]] <= scores[b[i]]
  {
    SomeElementOutsidePrefix(a, b, i);
    var j :| 0 <= j <= i && a[j] !in b[..i];
    var x := a[j];
    assert scores[a[i]] <= scores[x];
    if x in b {
      var p :| 0 <= p < |b| && b[p] == x;
      assert p >= i by {
        assert forall q :: 0 <= q < i ==> b[..i][q] == b[q];
      }
    }
  }

  /**
   The selection is determined up to ties: any two top-`n` rankings of the
   same scores have the same score at every position, so they differ only
   in the order of equally scored words.
   */
  lemma TopRankingScoresDetermined(a: seq<string>, b: seq<string>, scores: map<string, real>, n: nat)
    requires IsTopRanking(a, scores, n) && IsTopRanking(b, scores, n)
    ensures forall i :: 0 <= i < n ==> scores[a[i]] == scores[b[i]]
  {
    forall i | 0 <= i < n
      ensures scores[a[i]] == scores[b[i]]
    {
      TopRankingScoreAtMost(a, b, scores, n, i);
      TopRankingScoreAtMost(b, a, scores, n, i);
    }
  }

  /** An entry scoring at least as high as every entry of a descending sequence may lead it. */
  lemma PrependKeepsSorted(head: Entry, es: seq<Entry>)
    requires SortedDescending(es)
    requires forall j :: 0 <= j < |es| ==> es[j].score <= head.score
    ensures SortedDescending([head] + es)
  {
    var r := [head] + es;
    forall i, j | 0 <= i < j < |r|
      ensures r[i].score >= r[j].score
    {
      assert r[j] == es[j - 1];
      if i > 0 {
        assert r[i] == es[i - 1];
      }
    }
  }

  /** Puts `e` into a descending sequence at the first place that keeps it descending. */
  function Insert(e: Entry, es: seq<Entry>): (r: seq<Entry>)
    requires SortedDescending(es)
    ensures multiset(r) == multiset(es) + multiset{e}
    ensures SortedDescending(r)
  {
    if es == [] || e.score >= es[0].score then
      PrependKeepsSorted(e, es);
      [e] + es
    else
      var rest := Insert(e, es[1..]);
      assert es == [es[0]] + es[1..];
      forall j | 0 <= j < |rest|
        ensures rest[j].score <= es[0].score
      {
        assert rest[j] in multiset(rest);
        assert rest[j] == e || rest[j] in es[1..];
      }
      PrependKeepsSorted(es[0], rest);
      [es[0]] + rest
  }

  /**
   The result `List.sort` produces with the descending comparator: a
   permutation of the entries in descending score order. Only these two
   facts are used; among equal scores the order is left open.
   */
  function SortDescending(es: seq<Entry>): (r: seq<Entry>)
    ensures multiset(r) == multiset(es)
    ensures SortedDescending(r)
  {
    if es == [] then []
    else
      assert es == [es[0]] + es[1..];
      Insert(es[0], SortDescending(es[1..]))
  }

  /**
   Line 83 of `getBestScoredWords`: the map's entries copied into a list, in
   the map's iteration order.
   */
  method EntryList(tfIdfScores: map<string, real>) returns (entries: seq<Entry>)
    ensures |entries| == |tfIdfScores|
    ensures forall e :: e in entries <==> e.word in tfIdfScores && tfIdfScores[e.word] == e.score
    ensures Distinct(entries)
  {
    entries := [];
    var words := tfIdfScores.Keys;
    assert |words| == |tfIdfScores|;
    while words != {}
      invariant words <= tfIdfScores.Keys
      invariant |entries| + |words| == |tfIdfScores|
      invariant forall e :: e in entries <==> e.word in tfIdfScores && e.word !in words && tfIdfScores[e.word] == e.score
      invariant Distinct(entries)
      decreases words
    {
      var word :| word in words;
      var entry := Entry(word, tfIdfScores[word]);
      assert entry !in entries;
      AppendKeepsDistinct(entries, entry);
      entries := entries + [entry];
      words := words - {word};
    }
  }

  /**
   Lines 83-87 of `getBestScoredWords`: the entry list sorted by descending
   score is a ranking of the map.
   */
  method RankedEntries(tfIdfScores: map<string, real>) returns (ranked: seq<Entry>)
    ensures IsRanking(ranked, tfIdfScores)
  {
    var entries := EntryList(tfIdfScores);
    ranked := SortDescending(entries);
    PermutationKeepsDistinct(entries, ranked);
    forall e ensures e in ranked <==> e in entries {
      assert e in ranked <==> e in multiset(ranked);
    }
  }

  /**
   Lines 90-96: the words of the first `n` ranked entries, in their order.
   */
  method TopWords(ranked: seq<Entry>, n: nat) returns (best: seq<string>)
    requires n <= |ranked|
    ensures |best| == n
    ensures forall j :: 0 <= j < n ==> best[j] == ranked[j].word
  {
    var top := ranked[..n];
    best := [];
    for i := 0 to |top|
      invariant |best| == i
      invariant forall j :: 0 <= j < i ==> best[j] == top[j].word
    {
      best := best + [top[i].word];
    }
  }

  /**
   The words of the first `n` entries of a ranking are a top-`n` ranking of
   its scores; taking the whole ranking keeps every word.
   */
  lemma PrefixOfRankingIsTop(ranked: seq<Entry>, scores: map<string, real>, best: seq<string>, n: nat)
    requires IsRanking(ranked, scores) && n <= |ranked|
    requires |best| == n && forall j :: 0 <= j < n ==> best[j] == ranked[j].word
    ensures IsTopRanking(best, scores, n)
    ensures n == |scores| ==> forall w :: w in scores ==> w in best
  {
    forall i | 0 <= i < n
      ensures best[i] in scores && scores[best[i]] == ranked[i].score
    {
      assert ranked[i] in ranked;
    }
    forall i, j | 0 <= i < j < n
      ensures best[i] != best[j]
    {
      assert ranked[i] != ranked[j];
    }
    forall w, i | w in scores && w !in best && 0 <= i < n
      ensures scores[w] <= scores[best[i]]
    {
      LeftOutScoresLower(ranked, scores, best, n, w);
    }
    if n == |scores| {
      forall w | w in scores
        ensures w in best
      {
        assert Entry(w, scores[w]) in ranked;
        var k :| 0 <= k < |ranked| && ranked[k] == Entry(w, scores[w]);
        assert best[k] == w;
      }
    }
  }

  /** A word left out of the first `n` ranked entries sits further down the ranking. */
  lemma LeftOutScoresLower(ranked: seq<Entry>, scores: map<string, real>, best: seq<string>, n: nat, w: string)
    requires IsRanking(ranked, scores) && n <= |ranked|
    requires |best| == n && forall j :: 0 <= j < n ==> best[j] == ranked[j].word
    requires w in scores && w !in best
    ensures forall i :: 0 <= i < n ==> scores[w] <= ranked[i].score
  {
    assert Entry(w, scores[w]) in ranked;
    var k :| 0 <= k < |ranked| && ranked[k] == Entry(w, scores[w]);
    assert forall j :: 0 <= j < n ==> ranked[j].word != w;
    assert k >= n;
  }

  /**
   `getBestScoredWords` as written: it ranks the entries and keeps the first
   ten, and it throws when there are fewer than ten. With exactly ten
   entries every word is returned.
   */
  method GetBestScoredWords(tfIdfScores: map<string, real>) returns (r: Result<seq<string>, SelectionError>)
    ensures r.Failure? <==> |tfIdfScores| < BestWordsCount
    ensures r.Success? ==> IsTopRanking(r.value, tfIdfScores, BestWordsCount)
    ensures r.Success? && |tfIdfScores| == BestWordsCount ==> forall w :: w in tfIdfScores ==> w in r.value
  {
    var ranked := RankedEntries(tfIdfScores);
    if |ranked| < BestWordsCount {
      return Failure(SubListOutOfRange);
    }
    var best := TopWords(ranked, BestWordsCount);
    PrefixOfRankingIsTop(ranked, tfIdfScores, best, BestWordsCount);
    return Success(best);
  }

  /**
   The selection with the bound made safe: the `k` best words, or all of
   them, ranked, when the map has fewer than `k` entries.
   */
  method GetBestScoredWordsUpTo(tfIdfScores: map<string, real>, k: nat) returns (best: seq<string>)
    ensures IsTopRanking(best, tfIdfScores, if k < |tfIdfScores| then k else |tfIdfScores|)
    ensures |tfIdfScores| <= k ==> forall w :: w in tfIdfScores ==> w in best
  {
    var ranked := RankedEntries(tfIdfScores);
    var n := if k < |ranked| then k else |ranked|;
    best := TopWords(ranked, n);
    PrefixOfRankingIsTop(ranked, tfIdfScores, best, n);
  }
}
