/**
 * The selection step of semantic search (`semantic_search`): given one
 * similarity score per corpus row, keep the rows scoring at least the
 * threshold, sort them by score, highest first and stably, and keep the
 * first `top_k`.  The scores themselves come from an embedding model and are
 * an input here.
 */
module Semantic {
  import opened Wrappers
  import opened Corpus

  /** A semantic hit: the tuple `(score, phrase_full, topics)`. */
  datatype Hit = Hit(score: real, phraseFull: string, topics: seq<string>)

  /** `df.iloc[idx]` raised `IndexError`: a score was kept for a position past the last row. */
  datatype SearchError = RowIndexOutOfRange

  /** The hit of corpus row `idx` with its score. */
  function HitAt(rows: seq<Row>, scores: seq<real>, idx: nat): (h: Hit)
    requires idx < |rows| && idx < |scores|
  {
    Hit(scores[idx], rows[idx].phraseFull, rows[idx].topics)
  }

  /**
   * The positions, from `from` on, whose score passes `score >= threshold`,
   * in increasing order (the filter of the comprehension over `enumerate(sims)`).
   */
  function KeptIndices(scores: seq<real>, threshold: real, from: nat): (kept: seq<nat>)
    ensures forall k :: 0 <= k < |kept| ==> from <= kept[k] < |scores| && scores[kept[k]] >= threshold
    ensures forall k, m :: 0 <= k < m < |kept| ==> kept[k] < kept[m]
    decreases |scores| - from
  {
    if from >= |scores| then []
    else if scores[from] >= threshold then [from] + KeptIndices(scores, threshold, from + 1)
    else KeptIndices(scores, threshold, from + 1)
  }

  /** No position that passes the threshold is skipped. */
  lemma {:induction false} KeptIndicesComplete(scores: seq<real>, threshold: real, from: nat)
    ensures forall i :: from <= i < |scores| && scores[i] >= threshold ==> i in KeptIndices(scores, threshold, from)
    decreases |scores| - from
  {
    if from < |scores| {
      KeptIndicesComplete(scores, threshold, from + 1);
    }
  }

  /** The list comprehension `results`: the hits of the kept positions, in corpus order. */
  function Candidates(rows: seq<Row>, scores: seq<real>, threshold: real): (r: Result<seq<Hit>, SearchError>) {
    var kept := KeptIndices(scores, threshold, 0);
    if forall k :: 0 <= k < |kept| ==> kept[k] < |rows| then
      Ok(seq(|kept|, k requires 0 <= k < |kept| => HitAt(rows, scores, kept[k])))
    else
      Err(RowIndexOutOfRange)
  }

  /** The comprehension fails exactly when a score past the last row passes the threshold. */
  lemma CandidatesFail(rows: seq<Row>, scores: seq<real>, threshold: real)
    ensures Candidates(rows, scores, threshold).Err? <==>
      exists i :: |rows| <= i < |scores| && scores[i] >= threshold
  {
    var kept := KeptIndices(scores, threshold, 0);
    KeptIndicesComplete(scores, threshold, 0);
    if exists i :: |rows| <= i < |scores| && scores[i] >= threshold {
      var i :| |rows| <= i < |scores| && scores[i] >= threshold;
      assert i in kept;
    }
  }

  /**
   * The candidates are exactly the hits of the rows scoring at least the
   * threshold: each is some row's hit with that row's own score, and every
   * passing row's hit is there.
   */
  lemma CandidatesMembers(rows: seq<Row>, scores: seq<real>, threshold: real)
    requires Candidates(rows, scores, threshold).Ok?
    ensures forall h :: h in Candidates(rows, scores, threshold).value <==>
      exists i :: 0 <= i < |rows| && i < |scores| && scores[i] >= threshold && h == HitAt(rows, scores, i)
  {
    var kept := KeptIndices(scores, threshold, 0);
    var cands := Candidates(rows, scores, threshold).value;
    KeptIndicesComplete(scores, threshold, 0);
    forall h | exists i :: 0 <= i < |rows| && i < |scores| && scores[i] >= threshold && h == HitAt(rows, scores, i)
      ensures h in cands
    {
      var i :| 0 <= i < |rows| && i < |scores| && scores[i] >= threshold && h == HitAt(rows, scores, i);
      var k :| 0 <= k < |kept| && kept[k] == i;
      assert cands[k] == h;
    }
  }

  /** Scores never increase along the list. */
  ghost predicate Descending(hits: seq<Hit>) {
    forall i, j :: 0 <= i < j < |hits| ==> hits[i].score >= hits[j].score
  }

  /** Inserts `h` after every element scoring at least as much, so that earlier equal scores stay first. */
  function InsertByScore(sorted: seq<Hit>, h: Hit): (r: seq<Hit>) {
    if sorted == [] then [h]
    else if sorted[0].score >= h.score then [sorted[0]] + InsertByScore(sorted[1..], h)
    else [h] + sorted
  }

  /** `sorted(results, key=lambda x: x[0], reverse=True)`: a stable sort by score, highest first. */
  function SortByScore(hits: seq<Hit>): (sorted: seq<Hit>) {
    if hits == [] then []
    else InsertByScore(SortByScore(hits[..|hits| - 1]), hits[|hits| - 1])
  }

  lemma {:induction false} InsertByScoreMultiset(sorted: seq<Hit>, h: Hit)
    ensures multiset(InsertByScore(sorted, h)) == multiset(sorted) + multiset{h}
  {
    if sorted != [] && sorted[0].score >= h.score {
      InsertByScoreMultiset(sorted[1..], h);
      assert sorted == [sorted[0]] + sorted[1..];
    }
  }

  /** Sorting is a permutation: the same hits, each as often. */
  lemma {:induction false} SortByScoreMultiset(hits: seq<Hit>)
    ensures multiset(SortByScore(hits)) == multiset(hits)
  {
    if hits != [] {
      var n := |hits| - 1;
      var init, last := hits[..n], hits[n];
      var sortedInit := SortByScore(init);
      SortByScoreMultiset(init);
      InsertByScoreMultiset(sortedInit, last);
      SnocMultiset(hits, init, last, sortedInit, InsertByScore(sortedInit, last));
    }
  }

  lemma SnocMultiset<T>(whole: seq<T>, init: seq<T>, last: T, rearranged: seq<T>, r: seq<T>)
    requires whole == init + [last]
    requires multiset(rearranged) == multiset(init)
    requires multiset(r) == multiset(rearranged) + multiset{last}
    ensures multiset(r) == multiset(whole)
  {
  }

  /** The hits after the first score no higher than the first. */
  lemma DescendingHead(sorted: seq<Hit>)
    requires Descending(sorted) && sorted != []
    ensures Descending(sorted[1..])
    ensures forall k :: 0 <= k < |sorted| ==> sorted[k].score <= sorted[0].score
  {
    forall i, j | 0 <= i < j < |sorted[1..]| ensures sorted[1..][i].score >= sorted[1..][j].score {
      assert sorted[1..][i] == sorted[i + 1] && sorted[1..][j] == sorted[j + 1];
    }
  }

  lemma DescendingCons(x: Hit, hits: seq<Hit>)
    requires Descending(hits)
    requires forall k :: 0 <= k < |hits| ==> hits[k].score <= x.score
    ensures Descending([x] + hits)
  {
    forall i, j | 0 <= i < j < |[x] + hits| ensures ([x] + hits)[i].score >= ([x] + hits)[j].score {
      assert ([x] + hits)[j] == hits[j - 1];
      if i > 0 {
        assert ([x] + hits)[i] == hits[i - 1];
      }
    }
  }

  /** Inserting adds `h` and nothing else. */
  lemma {:induction false} InsertByScoreMembers(sorted: seq<Hit>, h: Hit)
    ensures forall k :: 0 <= k < |InsertByScore(sorted, h)| ==>
      InsertByScore(sorted, h)[k] == h || InsertByScore(sorted, h)[k] in sorted
  {
    InsertByScoreMultiset(sorted, h);
    forall k | 0 <= k < |InsertByScore(sorted, h)|
      ensures InsertByScore(sorted, h)[k] == h || InsertByScore(sorted, h)[k] in sorted
    {
      assert InsertByScore(sorted, h)[k] in multiset(sorted) + multiset{h};
    }
  }

  lemma {:induction false} InsertByScoreDescending(sorted: seq<Hit>, h: Hit)
    requires Descending(sorted)
    ensures Descending(InsertByScore(sorted, h))
  {
    if sorted != [] {
      DescendingHead(sorted);
      if sorted[0].score >= h.score {
        var rest := InsertByScore(sorted[1..], h);
        InsertByScoreDescending(sorted[1..], h);
        InsertByScoreMembers(sorted[1..], h);
        forall k | 0 <= k < |rest| ensures rest[k].score <= sorted[0].score {
          if rest[k] != h {
            var t :| 0 <= t < |sorted[1..]| && sorted[1..][t] == rest[k];
            assert sorted[t + 1] == rest[k];
          }
        }
        DescendingCons(sorted[0], rest);
      } else {
        DescendingCons(h, sorted);
      }
    }
  }

  /** The sorted list is in descending score order. */
  lemma {:induction false} SortByScoreDescending(hits: seq<Hit>)
    ensures Descending(SortByScore(hits))
  {
    if hits != [] {
      var n := |hits| - 1;
      SortByScoreDescending(hits[..n]);
      InsertByScoreDescending(SortByScore(hits[..n]), hits[n]);
    }
  }

  /** The hits scoring exactly `v`, in order. */
  function WithScore(hits: seq<Hit>, v: real): (r: seq<Hit>) {
    if hits == [] then []
    else (if hits[0].score == v then [hits[0]] else []) + WithScore(hits[1..], v)
  }

  lemma WithScoreCons(x: Hit, hits: seq<Hit>, v: real)
    ensures WithScore([x] + hits, v) == (if x.score == v then [x] else []) + WithScore(hits, v)
  {
    assert ([x] + hits)[1..] == hits;
  }

  lemma {:induction false} WithScoreAppend(a: seq<Hit>, b: seq<Hit>, v: real)
    ensures WithScore(a + b, v) == WithScore(a, v) + WithScore(b, v)
  {
    if a == [] {
      assert a + b == b;
    } else {
      var x, tail := a[0], a[1..];
      assert a == [x] + tail;
      assert a + b == [x] + (tail + b);
      WithScoreCons(x, tail, v);
      WithScoreCons(x, tail + b, v);
      WithScoreAppend(tail, b, v);
    }
  }

  lemma {:induction false} WithScoreBelow(hits: seq<Hit>, v: real)
    requires forall k :: 0 <= k < |hits| ==> hits[k].score < v
    ensures WithScore(hits, v) == []
  {
    if hits != [] {
      WithScoreBelow(hits[1..], v);
    }
  }

  /** Inserting `h` puts it after every already-placed hit of the same score. */
  lemma {:induction false} InsertByScoreStable(sorted: seq<Hit>, h: Hit, v: real)
    requires Descending(sorted)
    ensures WithScore(InsertByScore(sorted, h), v) == WithScore(sorted, v) + (if h.score == v then [h] else [])
  {
    if sorted != [] {
      var x, tail := sorted[0], sorted[1..];
      DescendingHead(sorted);
      assert sorted == [x] + tail;
      WithScoreCons(x, tail, v);
      if x.score >= h.score {
        var rest := InsertByScore(tail, h);
        assert InsertByScore(sorted, h) == [x] + rest;
        InsertByScoreStable(tail, h, v);
        WithScoreCons(x, rest, v);
      } else {
        assert InsertByScore(sorted, h) == [h] + sorted;
        WithScoreCons(h, sorted, v);
        if h.score == v {
          WithScoreBelow(sorted, v);
        }
      }
    }
  }

  /** The sort is stable: the hits of any one score keep their input order. */
  lemma {:induction false} SortByScoreStable(hits: seq<Hit>, v: real)
    ensures WithScore(SortByScore(hits), v) == WithScore(hits, v)
  {
    if hits != [] {
      var n := |hits| - 1;
      var init, last := hits[..n], hits[n];
      var sortedInit := SortByScore(init);
      assert SortByScore(hits) == InsertByScore(sortedInit, last);
      SortByScoreStable(init, v);
      SortByScoreDescending(init);
      InsertByScoreStable(sortedInit, last, v);
      assert hits == init + [last];
      WithScoreAppend(init, [last], v);
      WithScoreCons(last, [], v);
      assert [last] + [] == [last];
    }
  }


  /** The length Python's slice `[:top_k]` keeps of a list of `n` elements; a negative `top_k` counts from the end. */
  function SliceEnd(n: nat, topK: int): (m: nat)
    ensures m <= n
    ensures 0 <= topK ==> m <= topK && (m == topK || m == n)
    ensures topK < 0 ==> m == if n + topK < 0 then 0 else n + topK
  {
    if topK >= 0 then (if topK <= n then topK else n)
    else if n + topK < 0 then 0
    else n + topK
  }

  /** `sorted(results, key=lambda x: x[0], reverse=True)[:top_k]`, or the `IndexError` of the comprehension. */
  function SemanticSelect(rows: seq<Row>, scores: seq<real>, threshold: real, topK: int): (r: Result<seq<Hit>, SearchError>) {
    match Candidates(rows, scores, threshold)
    case Err(e) => Err(e)
    case Ok(cands) =>
      var sorted := SortByScore(cands);
      Ok(sorted[..SliceEnd(|sorted|, topK)])
  }

  /** The selection fails exactly when the comprehension does. */
  lemma SemanticSelectFails(rows: seq<Row>, scores: seq<real>, threshold: real, topK: int)
    ensures SemanticSelect(rows, scores, threshold, topK).Err? <==>
      exists i :: |rows| <= i < |scores| && scores[i] >= threshold
  {
    CandidatesFail(rows, scores, threshold);
  }

  /** A prefix of the sorted candidates is descending and holds only candidates. */
  lemma SortedPrefix(cands: seq<Hit>, m: nat)
    requires m <= |SortByScore(cands)|
    ensures Descending(SortByScore(cands)[..m])
    ensures forall k :: 0 <= k < m ==> SortByScore(cands)[k] in cands
  {
    var sorted := SortByScore(cands);
    SortByScoreDescending(cands);
    SortByScoreMultiset(cands);
    forall k | 0 <= k < m ensures sorted[k] in cands {
      assert sorted[k] in multiset(cands);
    }
  }

  /**
   * Every returned hit is the hit of a row scoring at least the threshold,
   * the scores never increase, and exactly as many hits are returned as
   * `[:top_k]` keeps of the candidates (so at most `top_k`).
   */
  lemma SemanticSelectBounds(rows: seq<Row>, scores: seq<real>, threshold: real, topK: int)
    requires SemanticSelect(rows, scores, threshold, topK).Ok?
    ensures var r := SemanticSelect(rows, scores, threshold, topK).value;
      && Descending(r)
      && |r| == SliceEnd(|Candidates(rows, scores, threshold).value|, topK)
      && (0 <= topK ==> |r| <= topK)
      && (forall k :: 0 <= k < |r| ==> r[k].score >= threshold)
      && (forall k :: 0 <= k < |r| ==>
            exists i :: 0 <= i < |rows| && i < |scores| && scores[i] >= threshold && r[k] == HitAt(rows, scores, i))
  {
    var cands := Candidates(rows, scores, threshold).value;
    var sorted := SortByScore(cands);
    var m := SliceEnd(|sorted|, topK);
    SortedPrefix(cands, m);
    SortByScoreMultiset(cands);
    assert |sorted| == |multiset(sorted)| == |multiset(cands)| == |cands|;
    CandidatesMembers(rows, scores, threshold);
  }

  /**
   * Equal scores keep corpus order: the returned hits of any one score are a
   * prefix of that score's candidates, which are in corpus order.
   */
  lemma SemanticSelectStable(rows: seq<Row>, scores: seq<real>, threshold: real, topK: int, v: real)
    requires SemanticSelect(rows, scores, threshold, topK).Ok?
    ensures WithScore(SemanticSelect(rows, scores, threshold, topK).value, v) <= WithScore(Candidates(rows, scores, threshold).value, v)
  {
    var cands := Candidates(rows, scores, threshold).value;
    var sorted := SortByScore(cands);
    var m := SliceEnd(|sorted|, topK);
    SortByScoreStable(cands, v);
    assert sorted == sorted[..m] + sorted[m..];
    WithScoreAppend(sorted[..m], sorted[m..], v);
  }

  /** In a descending list, nothing after position `m` scores higher than anything before it. */
  lemma PrefixScoresAtLeastSuffix(sorted: seq<Hit>, m: nat)
    requires Descending(sorted) && m <= |sorted|
    ensures forall x: Hit, y: Hit :: x in multiset(sorted[m..]) && y in sorted[..m] ==> x.score <= y.score
  {
    forall x: Hit, y: Hit | x in multiset(sorted[m..]) && y in sorted[..m] ensures x.score <= y.score {
      var j :| 0 <= j < |sorted[m..]| && sorted[m..][j] == x;
      var i :| 0 <= i < m && sorted[..m][i] == y;
      assert sorted[m + j] == x && sorted[i] == y;
    }
  }

  /**
   * Truncation keeps the best: the result is drawn from the candidates, and
   * every candidate left out scores no higher than any hit returned.
   */
  lemma SemanticSelectKeepsBest(rows: seq<Row>, scores: seq<real>, threshold: real, topK: int)
    requires SemanticSelect(rows, scores, threshold, topK).Ok?
    ensures var r := SemanticSelect(rows, scores, threshold, topK).value;
      var cands := Candidates(rows, scores, threshold).value;
      && multiset(r) <= multiset(cands)
      && (forall x: Hit, y: Hit :: x in multiset(cands) - multiset(r) && y in r ==> x.score <= y.score)
  {
    var cands := Candidates(rows, scores, threshold).value;
    var sorted := SortByScore(cands);
    var m := SliceEnd(|sorted|, topK);
    var r := sorted[..m];
    SortByScoreMultiset(cands);
    SortByScoreDescending(cands);
    assert sorted == r + sorted[m..];
    assert multiset(cands) - multiset(r) == multiset(sorted[m..]);
    PrefixScoresAtLeastSuffix(sorted, m);
  }

  /** When `top_k` does not truncate, every passing row's hit is returned. */
  lemma SemanticSelectUntruncated(rows: seq<Row>, scores: seq<real>, threshold: real, topK: int)
    requires Candidates(rows, scores, threshold).Ok?
    requires topK >= |Candidates(rows, scores, threshold).value|
    ensures SemanticSelect(rows, scores, threshold, topK).Ok?
    ensures multiset(SemanticSelect(rows, scores, threshold, topK).value) == multiset(Candidates(rows, scores, threshold).value)
  {
    var cands := Candidates(rows, scores, threshold).value;
    SortByScoreMultiset(cands);
    var sorted := SortByScore(cands);
    assert |sorted| == |cands|;
    assert sorted[..|sorted|] == sorted;
  }
}
