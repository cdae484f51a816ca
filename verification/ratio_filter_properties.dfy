/**
 Properties of the ratio test and of the ratio filter: the test in integer
 form and at its boundary, the exact characterisation of the filter's output
 as the ordered selection of the passing pairs' nearest matches, and the
 consequences a caller relies on.
 */
module RatioFilterProperties {
  import opened ImageMatching

  /** On Hamming distances the test with threshold 4/5 is the integer
      comparison 5 * nearest < 4 * second. */
  lemma RatioTestAsIntegers(p: CandidatePair)
    ensures PassesRatioTest(p) <==> 5 * p.nearest.distance < 4 * p.second.distance
  {
  }

  /** The comparison is strict: a pair sitting exactly on the threshold, such
      as distances 4 and 5, is rejected. */
  lemma ThresholdIsExclusive(p: CandidatePair)
    requires 5 * p.nearest.distance == 4 * p.second.distance
    ensures !PassesRatioTest(p)
  {
    RatioTestAsIntegers(p);
  }

  /** A pair whose second-nearest distance is zero never passes, even when
      its nearest distance is zero too. */
  lemma ZeroSecondNeverPasses(p: CandidatePair)
    requires p.second.distance == 0
    ensures !PassesRatioTest(p)
  {
  }

  /** A passing pair's nearest match is strictly closer than its runner-up,
      so the match that is kept is never the pair's second entry. */
  lemma KeptStrictlyCloser(p: CandidatePair)
    requires PassesRatioTest(p)
    ensures p.nearest.distance < p.second.distance
    ensures p.nearest != p.second
  {
  }

  /** A small run: rows at the threshold (4 against 5) and with a zero
      runner-up are dropped, the clearly closer row 1 is kept. */
  lemma ExampleRun()
    ensures RatioFilter([
      CandidatePair(Match(0, 7, 4), Match(0, 2, 5)),
      CandidatePair(Match(1, 3, 3), Match(1, 9, 5)),
      CandidatePair(Match(2, 4, 0), Match(2, 5, 0))
    ]) == [Match(1, 3, 3)]
  {
  }

  /** Inserting a pair whose second-nearest distance is zero anywhere in the
      input leaves the output unchanged. */
  lemma ZeroSecondContributesNothing(a: seq<CandidatePair>, p: CandidatePair, b: seq<CandidatePair>)
    requires p.second.distance == 0
    ensures RatioFilter(a + [p] + b) == RatioFilter(a + b)
  {
    ZeroSecondNeverPasses(p);
    calc {
      RatioFilter(a + [p] + b);
      { RatioFilterAppend(a + [p], b); }
      RatioFilter(a + [p]) + RatioFilter(b);
      { RatioFilterAppend(a, [p]); RatioFilterSingle(p); }
      RatioFilter(a) + RatioFilter(b);
      { RatioFilterAppend(a, b); }
      RatioFilter(a + b);
    }
  }

  /** `r` lists, in input order, the nearest matches of exactly those pairs
      that pass the ratio test; `idx` gives the position of each entry of
      `r` in the input. */
  ghost predicate IsOrderedSelection(r: seq<Match>, pairs: seq<CandidatePair>, idx: seq<nat>) {
    && |idx| == |r|
    && (forall k :: 0 <= k < |idx| ==> idx[k] < |pairs| && r[k] == pairs[idx[k]].nearest)
    && (forall k, l :: 0 <= k < l < |idx| ==> idx[k] < idx[l])
    && (forall i :: 0 <= i < |pairs| ==> (PassesRatioTest(pairs[i]) <==> i in idx))
  }

  /** Positions of the passing pairs, in increasing order. */
  function PassingPositions(pairs: seq<CandidatePair>): (idx: seq<nat>)
    ensures forall k :: 0 <= k < |idx| ==> idx[k] < |pairs|
  {
    if |pairs| == 0 then []
    else
      PassingPositions(pairs[..|pairs| - 1])
        + (if PassesRatioTest(pairs[|pairs| - 1]) then [|pairs| - 1] else [])
  }

  /** The filter's output is the ordered selection of the passing pairs'
      nearest matches, at the positions `PassingPositions` lists. */
  lemma {:induction false} RatioFilterIsOrderedSelection(pairs: seq<CandidatePair>)
    ensures IsOrderedSelection(RatioFilter(pairs), pairs, PassingPositions(pairs))
    decreases |pairs|
  {
    if |pairs| > 0 {
      var n := |pairs| - 1;
      var front := pairs[..n];
      assert pairs == front + [pairs[n]];
      RatioFilterIsOrderedSelection(front);
      RatioFilterAppend(front, [pairs[n]]);
      RatioFilterSingle(pairs[n]);
      ExtendSelection(RatioFilter(front), front, PassingPositions(front), pairs[n]);
    }
  }

  /** An ordered selection extends by one pair at the end: a passing pair
      appends its nearest match at the new last position. */
  lemma ExtendSelection(r: seq<Match>, pairs: seq<CandidatePair>, idx: seq<nat>, p: CandidatePair)
    requires IsOrderedSelection(r, pairs, idx)
    ensures IsOrderedSelection(
      r + (if PassesRatioTest(p) then [p.nearest] else []),
      pairs + [p],
      idx + (if PassesRatioTest(p) then [|pairs|] else []))
  {
  }

  /** Every entry of `r` is the nearest match of some passing pair. */
  ghost predicate KeepsOnlyPassing(r: seq<Match>, pairs: seq<CandidatePair>) {
    forall m :: m in r ==>
      exists i :: 0 <= i < |pairs| && PassesRatioTest(pairs[i]) && m == pairs[i].nearest
  }

  /** The nearest match of every passing pair occurs in `r`. */
  ghost predicate KeepsEveryPassing(r: seq<Match>, pairs: seq<CandidatePair>) {
    forall i :: 0 <= i < |pairs| && PassesRatioTest(pairs[i]) ==> pairs[i].nearest in r
  }

  /** Soundness and completeness: every kept match is the nearest of some
      passing pair, and the nearest of every passing pair is kept. */
  // Not recursive: automatic induction is switched off so that the proof
  // below, from the ordered-selection characterisation, is the one used.
  lemma {:induction false} RatioFilterSoundAndComplete(pairs: seq<CandidatePair>)
    ensures KeepsOnlyPassing(RatioFilter(pairs), pairs)
    ensures KeepsEveryPassing(RatioFilter(pairs), pairs)
  {
    var r := RatioFilter(pairs);
    var idx := PassingPositions(pairs);
    RatioFilterIsOrderedSelection(pairs);
    forall m | m in r
      ensures exists i :: 0 <= i < |pairs| && PassesRatioTest(pairs[i]) && m == pairs[i].nearest
    {
      var k :| 0 <= k < |r| && r[k] == m;
      var i := idx[k];
      assert i in idx && i < |pairs|;
      assert PassesRatioTest(pairs[i]) && m == pairs[i].nearest;
    }
    forall i | 0 <= i < |pairs| && PassesRatioTest(pairs[i])
      ensures pairs[i].nearest in r
    {
      var k :| 0 <= k < |idx| && idx[k] == i;
      assert r[k] == pairs[i].nearest;
    }
  }

  /** The matcher answers target descriptor i in row i, so both entries of
      row i carry query index i. Under that row shape no second-nearest
      entry ever appears in the output: a kept match with the same query
      index as row i's runner-up can only be row i's own nearest match,
      which is strictly closer and so differs from it. */
  // Not recursive: automatic induction is switched off so that the proof
  // below, from soundness and the per-pair fact, is the one used.
  lemma {:induction false} SecondNeverKept(pairs: seq<CandidatePair>)
    requires forall i :: 0 <= i < |pairs| ==>
      pairs[i].nearest.queryIdx == i && pairs[i].second.queryIdx == i
    ensures forall i :: 0 <= i < |pairs| ==> pairs[i].second !in RatioFilter(pairs)
  {
    RatioFilterSoundAndComplete(pairs);
    forall i | 0 <= i < |pairs|
      ensures pairs[i].second !in RatioFilter(pairs)
    {
      forall j | 0 <= j < |pairs| && PassesRatioTest(pairs[j])
        ensures pairs[j].nearest != pairs[i].second
      {
        if j == i {
          KeptStrictlyCloser(pairs[j]);
        }
      }
    }
  }

  /** Conversely, any ordered selection of the passing pairs' nearest
      matches is the filter's output: the selection determines it. */
  lemma {:induction false} OrderedSelectionIsRatioFilter(r: seq<Match>, pairs: seq<CandidatePair>, idx: seq<nat>)
    requires IsOrderedSelection(r, pairs, idx)
    ensures r == RatioFilter(pairs)
    decreases |pairs|
  {
    if |pairs| == 0 {
      SelectionFitsInput(r, pairs, idx);
    } else {
      var r', idx' := ShrinkSelection(r, pairs, idx);
      OrderedSelectionIsRatioFilter(r', pairs[1..], idx');
    }
  }

  /** An ordered selection never names more positions than there are pairs. */
  lemma SelectionFitsInput(r: seq<Match>, pairs: seq<CandidatePair>, idx: seq<nat>)
    requires IsOrderedSelection(r, pairs, idx)
    ensures |idx| <= |pairs|
  {
    if |idx| > 0 {
      PositionsAtLeastRank(idx);
      assert |idx| - 1 <= idx[|idx| - 1];
    }
  }

  /** In a strictly increasing sequence of positions the k-th entry is at least k. */
  lemma {:induction false} PositionsAtLeastRank(idx: seq<nat>)
    requires forall k, l :: 0 <= k < l < |idx| ==> idx[k] < idx[l]
    ensures forall k :: 0 <= k < |idx| ==> k <= idx[k]
    decreases |idx|
  {
    if |idx| > 0 {
      var front := idx[..|idx| - 1];
      PositionsAtLeastRank(front);
      assert forall k :: 0 <= k < |front| ==> front[k] == idx[k];
      if |idx| > 1 {
        assert idx[|idx| - 2] < idx[|idx| - 1];
      }
    }
  }

  /** An ordered selection of a non-empty input splits into the first
      pair's contribution and an ordered selection of the remaining pairs. */
  lemma ShrinkSelection(r: seq<Match>, pairs: seq<CandidatePair>, idx: seq<nat>)
    returns (r': seq<Match>, idx': seq<nat>)
    requires |pairs| > 0
    requires IsOrderedSelection(r, pairs, idx)
    ensures r == (if PassesRatioTest(pairs[0]) then [pairs[0].nearest] else []) + r'
    ensures IsOrderedSelection(r', pairs[1..], idx')
  {
    if PassesRatioTest(pairs[0]) {
      DropFirstPosition(r, pairs, idx);
      r' := r[1..];
      idx' := ShiftDown(idx[1..]);
      assert r == [pairs[0].nearest] + r';
      ShiftSelection(r', pairs, idx[1..]);
    } else {
      assert forall k :: 0 <= k < |idx| ==> idx[k] != 0;
      r' := r;
      idx' := ShiftDown(idx);
      ShiftSelection(r', pairs, idx);
    }
  }

  /** When the first pair passes, its position comes first in the
      selection, and the remaining positions select the remaining matches. */
  lemma DropFirstPosition(r: seq<Match>, pairs: seq<CandidatePair>, idx: seq<nat>)
    requires |pairs| > 0 && PassesRatioTest(pairs[0])
    requires IsOrderedSelection(r, pairs, idx)
    ensures |idx| > 0 && idx[0] == 0
    ensures forall j :: 0 <= j < |idx| - 1 ==> 0 < idx[1..][j] < |pairs| && r[1..][j] == pairs[idx[1..][j]].nearest
    ensures forall i :: 0 < i < |pairs| ==> (PassesRatioTest(pairs[i]) <==> i in idx[1..])
  {
  }

  /** Every position lowered by one. */
  function ShiftDown(idx: seq<nat>): (idx': seq<nat>)
    requires forall k :: 0 <= k < |idx| ==> idx[k] > 0
  {
    seq(|idx|, k requires 0 <= k < |idx| => idx[k] - 1)
  }

  /** Positions that avoid the first pair, lowered by one, select the same
      matches from the remaining pairs; the passing pairs among those are
      exactly the lowered positions when the first pair's own position, if
      any, has already been removed. */
  lemma ShiftSelection(r: seq<Match>, pairs: seq<CandidatePair>, idx: seq<nat>)
    requires |pairs| > 0
    requires |idx| == |r|
    requires forall k :: 0 <= k < |idx| ==> 0 < idx[k] < |pairs| && r[k] == pairs[idx[k]].nearest
    requires forall k, l :: 0 <= k < l < |idx| ==> idx[k] < idx[l]
    requires forall i :: 0 < i < |pairs| ==> (PassesRatioTest(pairs[i]) <==> i in idx)
    ensures IsOrderedSelection(r, pairs[1..], ShiftDown(idx))
  {
  }
}
