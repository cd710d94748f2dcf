/**
 Picking the best section for a question. The similarity of the question to
 every section is computed outside this model (a term-weighted vector space
 and cosine similarity) and arrives as one score per section, in section
 order. The section chosen is the one at the first index of maximal score,
 which is what a left-to-right argmax returns.
 */
module Retrieval {

  /** `k` holds a maximal score and no earlier index holds one as large. */
  predicate IsFirstMax(scores: seq<real>, k: int) {
    && 0 <= k < |scores|
    && (forall j :: 0 <= j < |scores| ==> scores[j] <= scores[k])
    && (forall j :: 0 <= j < k ==> scores[j] < scores[k])
  }

  /** The argmax scan: the index of the first maximal score. */
  function ArgMax(scores: seq<real>): (k: nat)
    requires |scores| > 0
    ensures IsFirstMax(scores, k)
    decreases |scores|
  {
    if |scores| == 1 then 0
    else
      var k := ArgMax(scores[..|scores| - 1]);
      if scores[|scores| - 1] > scores[k] then |scores| - 1 else k
  }

  /** At most one index is the first maximum. */
  lemma FirstMaxUnique(scores: seq<real>, i: int, j: int)
    requires IsFirstMax(scores, i) && IsFirstMax(scores, j)
    ensures i == j
  {
    assert scores[j] <= scores[i] && scores[i] <= scores[j];
  }

  /** Among equally best sections the earliest wins; so with all scores equal, the first section is chosen. */
  lemma TieGoesToEarliest(scores: seq<real>, i: int)
    requires 0 <= i < |scores|
    requires forall j :: 0 <= j < |scores| ==> scores[j] <= scores[i]
    ensures ArgMax(scores) <= i
    ensures scores[ArgMax(scores)] == scores[i]
  {
  }

  /** `find_best_section`: the section at the first maximal score. */
  function BestSection(sections: seq<string>, scores: seq<real>): (r: string)
    requires |sections| == |scores| > 0
    ensures forall k :: IsFirstMax(scores, k) ==> r == sections[k]
  {
    var k := ArgMax(scores);
    assert forall k' :: IsFirstMax(scores, k') ==> k' == k by {
      forall k' | IsFirstMax(scores, k')
        ensures k' == k
      {
        FirstMaxUnique(scores, k, k');
      }
    }
    sections[k]
  }
}
