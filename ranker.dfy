/**
 * The ranker: pair every word with its score, sort the pairs by score from highest
 * to lowest, and show the first five (fewer when the lexicon is smaller).
 *
 * The source sorts with the standard library's `sort_by`, which is a stable sort:
 * entries with equal scores keep their lexicon order. It is modelled here as the
 * insertion sort that has that behaviour.
 */
module Ranker {

  /** How many ranked entries the source shows. */
  const ShownCount: nat := 5

  /** A word of the lexicon with its score. */
  datatype Entry = Entry(word: string, score: nat)

  /** Words paired with scores, position by position, up to the shorter of the two. */
  function Zip(words: seq<string>, scores: seq<nat>): (r: seq<Entry>)
    ensures |r| == if |words| <= |scores| then |words| else |scores|
    ensures forall i :: 0 <= i < |r| ==> r[i] == Entry(words[i], scores[i])
  {
    if words == [] || scores == [] then []
    else [Entry(words[0], scores[0])] + Zip(words[1..], scores[1..])
  }

  /** Scores never increase along the sequence. */
  predicate NonIncreasing(es: seq<Entry>)
  {
    forall i, j :: 0 <= i < j < |es| ==> es[i].score >= es[j].score
  }

  /** The entries with score v, in their order. */
  function WithScore(es: seq<Entry>, v: nat): seq<Entry>
  {
    if es == [] then []
    else (if es[0].score == v then [es[0]] else []) + WithScore(es[1..], v)
  }

  /** Put e in front of the first entry of sorted whose score is not above e's. */
  function Insert(e: Entry, sorted: seq<Entry>): (r: seq<Entry>)
    ensures |r| == |sorted| + 1
  {
    if sorted == [] || sorted[0].score <= e.score then [e] + sorted
    else [sorted[0]] + Insert(e, sorted[1..])
  }

  /** Sort by score, highest first, keeping the input order among equal scores. */
  function SortByScore(es: seq<Entry>): (r: seq<Entry>)
    ensures NonIncreasing(r)
    ensures multiset(r) == multiset(es)
    ensures |r| == |es|
  {
    if es == [] then []
    else
      var rest := SortByScore(es[1..]);
      InsertSorted(es[0], rest);
      InsertAdds(es[0], rest);
      assert es == [es[0]] + es[1..];
      Insert(es[0], rest)
  }

  /** The ranked list: the lexicon's words with their scores, sorted. */
  function Rank(words: seq<string>, scores: seq<nat>): (r: seq<Entry>)
    ensures |r| == if |words| <= |scores| then |words| else |scores|
    ensures NonIncreasing(r)
    ensures multiset(r) == multiset(Zip(words, scores))
  {
    SortByScore(Zip(words, scores))
  }

  /** The entries shown: the first five, or all of them when there are fewer; n is the lexicon size. */
  function Top(ranked: seq<Entry>, n: nat): (r: seq<Entry>)
    requires |ranked| == n
    ensures |r| == if n >= ShownCount then ShownCount else n
    ensures r <= ranked
  {
    ranked[..if n >= ShownCount then ShownCount else n]
  }

  // ---------------------------------------------------------------------------
  // Lemmas

  /** Inserting adds exactly one copy of e. */
  lemma {:induction false} InsertAdds(e: Entry, sorted: seq<Entry>)
    ensures multiset(Insert(e, sorted)) == multiset(sorted) + multiset{e}
  {
    if sorted != [] && sorted[0].score > e.score {
      InsertAdds(e, sorted[1..]);
      assert sorted == [sorted[0]] + sorted[1..];
    }
  }

  /** Inserting into a sorted sequence keeps it sorted. */
  lemma {:induction false} InsertSorted(e: Entry, sorted: seq<Entry>)
    requires NonIncreasing(sorted)
    ensures NonIncreasing(Insert(e, sorted))
  {
    if sorted != [] && sorted[0].score > e.score {
      var head, tail := sorted[0], sorted[1..];
      var rest := Insert(e, tail);
      InsertSorted(e, tail);
      InsertAdds(e, tail);
      forall j | 0 <= j < |rest|
        ensures rest[j].score <= head.score
      {
        assert rest[j] in multiset(rest);
        if rest[j] != e {
          assert rest[j] in tail;
        }
      }
      assert Insert(e, sorted) == [head] + rest;
    }
  }

  /** Inserting e places it after every entry with a higher score and before every other entry of that score. */
  lemma {:induction false} InsertWithScore(e: Entry, sorted: seq<Entry>, v: nat)
    ensures WithScore(Insert(e, sorted), v) == (if e.score == v then [e] else []) + WithScore(sorted, v)
  {
    if sorted == [] || sorted[0].score <= e.score {
      assert Insert(e, sorted) == [e] + sorted;
      assert ([e] + sorted)[1..] == sorted;
    } else {
      var rest := Insert(e, sorted[1..]);
      InsertWithScore(e, sorted[1..], v);
      assert Insert(e, sorted) == [sorted[0]] + rest;
      assert ([sorted[0]] + rest)[1..] == rest;
      if e.score == v {
        assert sorted[0].score != v;
      }
    }
  }

  /** The sort is stable: among entries of any one score, the order is the input's. */
  lemma {:induction false} SortIsStable(es: seq<Entry>, v: nat)
    ensures WithScore(SortByScore(es), v) == WithScore(es, v)
  {
    if es != [] {
      SortIsStable(es[1..], v);
      InsertWithScore(es[0], SortByScore(es[1..]), v);
    }
  }

  /** The ranked list is a permutation of the zipped pairs, sorted, and stable on ties. */
  lemma RankIsStableSort(words: seq<string>, scores: seq<nat>, v: nat)
    requires |words| == |scores|
    ensures |Rank(words, scores)| == |words|
    ensures multiset(Rank(words, scores)) == multiset(Zip(words, scores))
    ensures NonIncreasing(Rank(words, scores))
    ensures WithScore(Rank(words, scores), v) == WithScore(Zip(words, scores), v)
  {
    SortIsStable(Zip(words, scores), v);
  }

  /** No shown entry scores below an entry that is not shown, and the slice never leaves the list. */
  lemma TopIsBest(words: seq<string>, scores: seq<nat>)
    requires |words| == |scores|
    ensures |Rank(words, scores)| == |words|
    ensures |Top(Rank(words, scores), |words|)| == if |words| >= ShownCount then ShownCount else |words|
    ensures forall i, j :: 0 <= i < |Top(Rank(words, scores), |words|)| <= j < |words| ==>
      Top(Rank(words, scores), |words|)[i].score >= Rank(words, scores)[j].score
  {
  }

  /** Two candidates: both are shown, not five. */
  lemma TopOfTwo(words: seq<string>, scores: seq<nat>)
    requires |words| == |scores| == 2
    ensures |Top(Rank(words, scores), |words|)| == 2
  {
  }
}
