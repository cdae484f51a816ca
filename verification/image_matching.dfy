/**
 The 2-nearest-neighbour ratio test of the step-3 image matcher.

 The brute-force Hamming matcher is asked, for every descriptor of the target
 image, for its two nearest descriptors of the model image. Each answer row is
 a list of match records; the ratio test unpacks every row into
 (nearest, second nearest) and keeps the nearest match only when it is
 clearly closer than the runner-up.
 */
module ImageMatching {

  /** One candidate correspondence as reported by the descriptor matcher.
      The target descriptors are the queries and the model descriptors the
      training set, so `queryIdx` indexes a target keypoint and `trainIdx` a
      model keypoint. Distances are Hamming distances, hence natural numbers. */
  datatype Match = Match(queryIdx: nat, trainIdx: nat, distance: nat)

  /** One matcher row after unpacking: the nearest and second-nearest model
      descriptor for a single target descriptor. */
  datatype CandidatePair = CandidatePair(nearest: Match, second: Match)

  /** Outcome of running the filter over raw matcher rows: either the kept
      matches, or the unpacking failure raised at the first row that does not
      hold exactly two matches (`got` is that row's length). */
  datatype FilterResult =
    | Filtered(matches: seq<Match>)
    | UnpackFailed(row: nat, got: nat)

  /** The ratio threshold of the test, exactly 4/5. */
  const MatchRatioThreshold: real := 0.8

  /** The ratio test on one pair: the nearest distance must be strictly
      below the threshold times the second-nearest distance. */
  predicate PassesRatioTest(p: CandidatePair) {
    (p.nearest.distance as real) < MatchRatioThreshold * (p.second.distance as real)
  }

  /** The ratio filter on already unpacked pairs: the nearest match of every
      pair that passes the test, in input order. */
  function RatioFilter(pairs: seq<CandidatePair>): (r: seq<Match>)
    ensures |r| <= |pairs|
  {
    if |pairs| == 0 then []
    else (if PassesRatioTest(pairs[0]) then [pairs[0].nearest] else []) + RatioFilter(pairs[1..])
  }

  /** A matcher row can be unpacked into a pair exactly when it holds two matches. */
  predicate WellShaped(rows: seq<seq<Match>>) {
    forall j :: 0 <= j < |rows| ==> |rows[j]| == 2
  }

  /** The unpacking of well-shaped rows into (nearest, second nearest) pairs. */
  function ToPairs(rows: seq<seq<Match>>): (pairs: seq<CandidatePair>)
    requires WellShaped(rows)
  {
    seq(|rows|, j requires 0 <= j < |rows| => CandidatePair(rows[j][0], rows[j][1]))
  }

  /** A single pair contributes its nearest match exactly when it passes. */
  lemma RatioFilterSingle(p: CandidatePair)
    ensures RatioFilter([p]) == if PassesRatioTest(p) then [p.nearest] else []
  {
  }

  /** Filtering distributes over concatenation of the input. */
  lemma {:induction false} RatioFilterAppend(a: seq<CandidatePair>, b: seq<CandidatePair>)
    ensures RatioFilter(a + b) == RatioFilter(a) + RatioFilter(b)
    decreases |a|
  {
    if |a| == 0 {
      assert a + b == b;
    } else {
      var head := if PassesRatioTest(a[0]) then [a[0].nearest] else [];
      assert (a + b)[0] == a[0];
      assert (a + b)[1..] == a[1..] + b;
      calc {
        RatioFilter(a + b);
        head + RatioFilter(a[1..] + b);
        { RatioFilterAppend(a[1..], b); }
        head + (RatioFilter(a[1..]) + RatioFilter(b));
        (head + RatioFilter(a[1..])) + RatioFilter(b);
        RatioFilter(a) + RatioFilter(b);
      }
    }
  }

  /** The ratio filter over raw matcher rows, as a single pass that unpacks
      each row, tests it and appends the nearest match when it passes. A row
      that does not hold exactly two matches aborts the whole call. */
  method DoRatioFiltering(rows: seq<seq<Match>>) returns (result: FilterResult)
    ensures result.Filtered? <==> WellShaped(rows)
    ensures result.Filtered? ==> result.matches == RatioFilter(ToPairs(rows))
    ensures result.UnpackFailed? ==>
      && result.row < |rows|
      && result.got == |rows[result.row]|
      && result.got != 2
      && WellShaped(rows[..result.row])
  {
    var goodMatches: seq<Match> := [];
    var i := 0;
    while i < |rows|
      invariant 0 <= i <= |rows|
      invariant WellShaped(rows[..i])
      invariant goodMatches == RatioFilter(ToPairs(rows[..i]))
    {
      if |rows[i]| != 2 {
        return UnpackFailed(i, |rows[i]|);
      }
      var pair := CandidatePair(rows[i][0], rows[i][1]);
      assert ToPairs(rows[..i + 1]) == ToPairs(rows[..i]) + [pair];
      RatioFilterAppend(ToPairs(rows[..i]), [pair]);
      RatioFilterSingle(pair);
      if PassesRatioTest(pair) {
        goodMatches := goodMatches + [pair.nearest];
      }
      i := i + 1;
    }
    assert rows[..i] == rows;
    return Filtered(goodMatches);
  }
}
