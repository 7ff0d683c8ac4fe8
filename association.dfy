/** Matching detections to trackers: the IOU matrix, the external assignment
    solver's pairing (given here as an input) and its split into matches,
    unmatched detections and unmatched trackers. */
module Association {
  import opened Geometry

  /** A (detection index, tracker index) pair, one row of `matched_indices`. */
  type Pair = (int, int)

  predicate AllPositive(boxes: seq<Box>)
  {
    forall i :: 0 <= i < |boxes| ==> PositiveArea(boxes[i])
  }

  /** Every pair indexes an existing detection and an existing tracker. */
  predicate InRange(pairs: seq<Pair>, nd: int, nt: int)
  {
    forall k :: 0 <= k < |pairs| ==> 0 <= pairs[k].0 < nd && 0 <= pairs[k].1 < nt
  }

  /** What the assignment solver guarantees: in-range indices, no detection
      and no tracker used twice. */
  predicate ValidPairing(pairs: seq<Pair>, nd: int, nt: int)
  {
    && InRange(pairs, nd, nt)
    && (forall i, j :: 0 <= i < j < |pairs| ==> pairs[i].0 != pairs[j].0 && pairs[i].1 != pairs[j].1)
  }

  /** `matched_indices[:, 0]`. */
  function Rows(ps: seq<Pair>): seq<int>
  {
    if |ps| == 0 then [] else Rows(ps[..|ps| - 1]) + [ps[|ps| - 1].0]
  }

  /** `matched_indices[:, 1]`. */
  function Cols(ps: seq<Pair>): seq<int>
  {
    if |ps| == 0 then [] else Cols(ps[..|ps| - 1]) + [ps[|ps| - 1].1]
  }

  /** `np.arange(n)`. */
  function Range(n: nat): (r: seq<int>)
    ensures |r| == n && forall i :: 0 <= i < n ==> r[i] == i
  {
    seq(n, i => i)
  }

  /** The indices 0 .. n-1 that do not occur in xs, in ascending order. */
  function Missing(xs: seq<int>, n: nat): seq<int>
  {
    if n == 0 then [] else Missing(xs, n - 1) + (if n - 1 in xs then [] else [n - 1])
  }

  /** `iou_matrix`: entry [d][t] is the IOU of detection d and tracker t. */
  function IouMatrix(dets: seq<Box>, trks: seq<Box>): (m: seq<seq<real>>)
    requires AllPositive(dets) && AllPositive(trks)
    ensures |m| == |dets| && forall d :: 0 <= d < |dets| ==> |m[d]| == |trks|
    ensures forall d, t :: 0 <= d < |dets| && 0 <= t < |trks| ==> m[d][t] == Iou(dets[d], trks[t])
  {
    seq(|dets|, d requires 0 <= d < |dets| => seq(|trks|, t requires 0 <= t < |trks| => Iou(dets[d], trks[t])))
  }

  /** Every pair indexes an entry of the score matrix. */
  predicate InMatrix(ps: seq<Pair>, scores: seq<seq<real>>)
  {
    forall k :: 0 <= k < |ps| ==> 0 <= ps[k].0 < |scores| && 0 <= ps[k].1 < |scores[ps[k].0]|
  }

  /** A solver pair survives the `iou_matrix[m[0], m[1]] < iou_threshold`
      filter. */
  predicate Accepted(scores: seq<seq<real>>, p: Pair, threshold: real)
    requires 0 <= p.0 < |scores| && 0 <= p.1 < |scores[p.0]|
  {
    scores[p.0][p.1] >= threshold
  }

  /** The accepted solver pairs, in solver order. */
  function Kept(scores: seq<seq<real>>, ps: seq<Pair>, threshold: real): seq<Pair>
    requires InMatrix(ps, scores)
  {
    if |ps| == 0 then []
    else
      Kept(scores, ps[..|ps| - 1], threshold)
      + (if Accepted(scores, ps[|ps| - 1], threshold) then [ps[|ps| - 1]] else [])
  }

  /** The rejected solver pairs, in solver order. */
  function Dropped(scores: seq<seq<real>>, ps: seq<Pair>, threshold: real): seq<Pair>
    requires InMatrix(ps, scores)
  {
    if |ps| == 0 then []
    else
      Dropped(scores, ps[..|ps| - 1], threshold)
      + (if Accepted(scores, ps[|ps| - 1], threshold) then [] else [ps[|ps| - 1]])
  }

  /** The three lists `associate_detections_to_trackers` returns. */
  datatype Assignment = Assignment(matches: seq<Pair>, unmatchedDets: seq<int>, unmatchedTrks: seq<int>)

  /** Reference definition of the association step. With no trackers or no
      detections the source returns every detection as unmatched and an EMPTY
      unmatched-tracker list; otherwise detections (trackers) unused by the
      solver come first, in index order, followed by the two sides of every
      rejected pair, in solver order. */
  function Associate(dets: seq<Box>, trks: seq<Box>, pairs: seq<Pair>, threshold: real): Assignment
    requires AllPositive(dets) && AllPositive(trks)
    requires |dets| > 0 && |trks| > 0 ==> ValidPairing(pairs, |dets|, |trks|)
  {
    if |trks| == 0 || |dets| == 0 then Assignment([], Range(|dets|), [])
    else
      var scores := IouMatrix(dets, trks);
      var dropped := Dropped(scores, pairs, threshold);
      Assignment(Kept(scores, pairs, threshold),
                 Missing(Rows(pairs), |dets|) + Rows(dropped),
                 Missing(Cols(pairs), |trks|) + Cols(dropped))
  }

  /** Every detection index 0 .. nd-1 occurs exactly once among the matched
      detections and the unmatched ones, and nothing else occurs; the same for
      the trackers. */
  predicate Partitions(a: Assignment, nd: nat, nt: nat)
  {
    && (forall d :: 0 <= d < nd ==> multiset(Rows(a.matches) + a.unmatchedDets)[d] == 1)
    && (forall x :: x in Rows(a.matches) + a.unmatchedDets ==> 0 <= x < nd)
    && (forall t :: 0 <= t < nt ==> multiset(Cols(a.matches) + a.unmatchedTrks)[t] == 1)
    && (forall x :: x in Cols(a.matches) + a.unmatchedTrks ==> 0 <= x < nt)
  }

  /** The matches are exactly the solver pairs whose IOU reaches the threshold. */
  predicate RespectsThreshold(a: Assignment, dets: seq<Box>, trks: seq<Box>, pairs: seq<Pair>, threshold: real)
    requires AllPositive(dets) && AllPositive(trks) && InRange(pairs, |dets|, |trks|)
  {
    && (forall m :: m in a.matches ==> m in pairs)
    && (forall k :: 0 <= k < |pairs| ==> (pairs[k] in a.matches <==> Iou(dets[pairs[k].0], trks[pairs[k].1]) >= threshold))
  }

  lemma {:induction false} RowsColsSpec(ps: seq<Pair>)
    ensures |Rows(ps)| == |ps| && |Cols(ps)| == |ps|
    ensures forall k :: 0 <= k < |ps| ==> Rows(ps)[k] == ps[k].0 && Cols(ps)[k] == ps[k].1
  {
    if |ps| > 0 {
      RowsColsSpec(ps[..|ps| - 1]);
    }
  }

  /** The missing indices are below n, absent from xs and ascending, and
      every index below n absent from xs is among them. */
  lemma {:induction false} MissingMembers(xs: seq<int>, n: nat)
    ensures forall i :: 0 <= i < |Missing(xs, n)| ==> 0 <= Missing(xs, n)[i] < n && Missing(xs, n)[i] !in xs
    ensures forall i, j :: 0 <= i < j < |Missing(xs, n)| ==> Missing(xs, n)[i] < Missing(xs, n)[j]
    ensures forall d :: 0 <= d < n && d !in xs ==> d in Missing(xs, n)
  {
    if n > 0 {
      MissingMembers(xs, n - 1);
      var m := Missing(xs, n - 1);
      if n - 1 !in xs {
        assert Missing(xs, n) == m + [n - 1];
      } else {
        assert Missing(xs, n) == m;
      }
    }
  }

  /** Hence each index below n absent from xs is missing exactly once, and
      nothing else is missing. */
  lemma MissingSpec(xs: seq<int>, n: nat)
    ensures forall d :: multiset(Missing(xs, n))[d] == if 0 <= d < n && d !in xs then 1 else 0
  {
    MissingMembers(xs, n);
    DistinctCount(Missing(xs, n));
  }

  /** In a sequence without repetitions every value occurs at most once. */
  lemma {:induction false} DistinctCount(xs: seq<int>)
    requires forall i, j :: 0 <= i < j < |xs| ==> xs[i] != xs[j]
    ensures forall d :: multiset(xs)[d] == if d in xs then 1 else 0
  {
    if |xs| > 0 {
      var init := xs[..|xs| - 1];
      assert xs == init + [xs[|xs| - 1]];
      DistinctCount(init);
      assert xs[|xs| - 1] !in init;
    }
  }

  /** Appending one pair appends its row and its column. */
  lemma RowsColsAppend(ps: seq<Pair>, p: Pair)
    ensures Rows(ps + [p]) == Rows(ps) + [p.0] && Cols(ps + [p]) == Cols(ps) + [p.1]
  {
    assert (ps + [p])[..|ps|] == ps;
  }

  /** Kept and Dropped split the solver pairs: by the step on the last pair,
      each goes either to Kept or to Dropped. */
  lemma KeptDroppedStep(scores: seq<seq<real>>, ps: seq<Pair>, threshold: real)
    requires InMatrix(ps, scores) && |ps| > 0
    ensures var init, last := ps[..|ps| - 1], ps[|ps| - 1];
            if Accepted(scores, last, threshold) then
              Kept(scores, ps, threshold) == Kept(scores, init, threshold) + [last]
              && Dropped(scores, ps, threshold) == Dropped(scores, init, threshold)
            else
              Kept(scores, ps, threshold) == Kept(scores, init, threshold)
              && Dropped(scores, ps, threshold) == Dropped(scores, init, threshold) + [last]
  {
  }

  /** Kept and Dropped together hold each pair's detection index exactly as
      often as the solver pairs do. */
  lemma {:induction false} KeptDroppedRows(scores: seq<seq<real>>, ps: seq<Pair>, threshold: real)
    requires InMatrix(ps, scores)
    ensures multiset(Rows(Kept(scores, ps, threshold))) + multiset(Rows(Dropped(scores, ps, threshold)))
            == multiset(Rows(ps))
  {
    if |ps| > 0 {
      var init, last := ps[..|ps| - 1], ps[|ps| - 1];
      KeptDroppedRows(scores, init, threshold);
      KeptDroppedStep(scores, ps, threshold);
      assert Rows(ps) == Rows(init) + [last.0];
      if Accepted(scores, last, threshold) {
        RowsColsAppend(Kept(scores, init, threshold), last);
      } else {
        RowsColsAppend(Dropped(scores, init, threshold), last);
      }
    }
  }

  /** The same for the tracker indices. */
  lemma {:induction false} KeptDroppedCols(scores: seq<seq<real>>, ps: seq<Pair>, threshold: real)
    requires InMatrix(ps, scores)
    ensures multiset(Cols(Kept(scores, ps, threshold))) + multiset(Cols(Dropped(scores, ps, threshold)))
            == multiset(Cols(ps))
  {
    if |ps| > 0 {
      var init, last := ps[..|ps| - 1], ps[|ps| - 1];
      KeptDroppedCols(scores, init, threshold);
      KeptDroppedStep(scores, ps, threshold);
      assert Cols(ps) == Cols(init) + [last.1];
      if Accepted(scores, last, threshold) {
        RowsColsAppend(Kept(scores, init, threshold), last);
      } else {
        RowsColsAppend(Dropped(scores, init, threshold), last);
      }
    }
  }

  /** Kept holds exactly the accepted solver pairs. */
  lemma {:induction false} KeptMembers(scores: seq<seq<real>>, ps: seq<Pair>, threshold: real)
    requires InMatrix(ps, scores)
    ensures forall m :: m in Kept(scores, ps, threshold) ==> m in ps
    ensures forall k :: 0 <= k < |ps| ==> (ps[k] in Kept(scores, ps, threshold) <==> Accepted(scores, ps[k], threshold))
  {
    if |ps| > 0 {
      var init := ps[..|ps| - 1];
      KeptMembers(scores, init, threshold);
      assert forall k :: 0 <= k < |init| ==> ps[k] == init[k];
    }
  }

  /** If `used` lists distinct indices below n and `kept` and `dropped` split
      it, then kept, the unused indices and dropped hold each index below n
      exactly once, and nothing else. */
  lemma SplitPartitions(used: seq<int>, kept: seq<int>, dropped: seq<int>, n: nat)
    requires forall i, j :: 0 <= i < j < |used| ==> used[i] != used[j]
    requires forall i :: 0 <= i < |used| ==> 0 <= used[i] < n
    requires multiset(kept) + multiset(dropped) == multiset(used)
    ensures var xs := kept + (Missing(used, n) + dropped);
            (forall d :: 0 <= d < n ==> multiset(xs)[d] == 1) && (forall x :: x in xs ==> 0 <= x < n)
  {
    var xs := kept + (Missing(used, n) + dropped);
    MissingSpec(used, n);
    DistinctCount(used);
    assert multiset(xs) == multiset(used) + multiset(Missing(used, n));
    forall x | x in xs
      ensures 0 <= x < n
    {
      assert multiset(xs)[x] > 0;
      if x !in used {
        assert multiset(Missing(used, n))[x] > 0;
      }
    }
  }

  /** The detection half of the partition: the matched rows, the unused rows
      and the rows of the rejected pairs hold each index 0 .. nd-1 once. */
  lemma DetectionsPartitioned(scores: seq<seq<real>>, pairs: seq<Pair>, nd: nat, nt: nat, threshold: real)
    requires ValidPairing(pairs, nd, nt) && InMatrix(pairs, scores)
    ensures var xs := Rows(Kept(scores, pairs, threshold)) + (Missing(Rows(pairs), nd) + Rows(Dropped(scores, pairs, threshold)));
            (forall d :: 0 <= d < nd ==> multiset(xs)[d] == 1) && (forall x :: x in xs ==> 0 <= x < nd)
  {
    KeptDroppedRows(scores, pairs, threshold);
    RowsColsSpec(pairs);
    SplitPartitions(Rows(pairs), Rows(Kept(scores, pairs, threshold)), Rows(Dropped(scores, pairs, threshold)), nd);
  }

  /** The tracker half of the partition. */
  lemma TrackersPartitioned(scores: seq<seq<real>>, pairs: seq<Pair>, nd: nat, nt: nat, threshold: real)
    requires ValidPairing(pairs, nd, nt) && InMatrix(pairs, scores)
    ensures var xs := Cols(Kept(scores, pairs, threshold)) + (Missing(Cols(pairs), nt) + Cols(Dropped(scores, pairs, threshold)));
            (forall t :: 0 <= t < nt ==> multiset(xs)[t] == 1) && (forall x :: x in xs ==> 0 <= x < nt)
  {
    KeptDroppedCols(scores, pairs, threshold);
    RowsColsSpec(pairs);
    SplitPartitions(Cols(pairs), Cols(Kept(scores, pairs, threshold)), Cols(Dropped(scores, pairs, threshold)), nt);
  }

  /** Given a solver pairing that uses each detection and each tracker at most
      once, the association loses or duplicates no index (unless there are
      trackers but no detections, in which case the source reports no
      unmatched tracker), and its matches are exactly the pairs that reach the
      threshold. */
  lemma AssociateCorrect(dets: seq<Box>, trks: seq<Box>, pairs: seq<Pair>, threshold: real)
    requires AllPositive(dets) && AllPositive(trks)
    requires |dets| > 0 && |trks| > 0 ==> ValidPairing(pairs, |dets|, |trks|)
    ensures |dets| > 0 || |trks| == 0 ==> Partitions(Associate(dets, trks, pairs, threshold), |dets|, |trks|)
    ensures |dets| > 0 && |trks| > 0 ==> RespectsThreshold(Associate(dets, trks, pairs, threshold), dets, trks, pairs, threshold)
  {
    var a := Associate(dets, trks, pairs, threshold);
    if |trks| == 0 || |dets| == 0 {
      if |dets| > 0 {
        forall d | 0 <= d < |dets|
          ensures multiset(Rows(a.matches) + a.unmatchedDets)[d] == 1
        {
          DistinctCount(Range(|dets|));
          assert Range(|dets|)[d] == d;
        }
      }
    } else {
      var scores := IouMatrix(dets, trks);
      KeptMembers(scores, pairs, threshold);
      DetectionsPartitioned(scores, pairs, |dets|, |trks|, threshold);
      TrackersPartitioned(scores, pairs, |dets|, |trks|, threshold);
      assert Rows(a.matches) + a.unmatchedDets
          == Rows(Kept(scores, pairs, threshold)) + (Missing(Rows(pairs), |dets|) + Rows(Dropped(scores, pairs, threshold)));
      assert Cols(a.matches) + a.unmatchedTrks
          == Cols(Kept(scores, pairs, threshold)) + (Missing(Cols(pairs), |trks|) + Cols(Dropped(scores, pairs, threshold)));
    }
  }

  /** The nested loops that fill `iou_matrix`, one entry per (detection,
      tracker) pair. */
  method FillIouMatrix(dets: seq<Box>, trks: seq<Box>) returns (iouMatrix: array2<real>)
    requires AllPositive(dets) && AllPositive(trks)
    ensures fresh(iouMatrix)
    ensures iouMatrix.Length0 == |dets| && iouMatrix.Length1 == |trks|
    ensures forall i, j :: 0 <= i < |dets| && 0 <= j < |trks| ==> iouMatrix[i, j] == IouMatrix(dets, trks)[i][j]
  {
    ghost var scores := IouMatrix(dets, trks);
    iouMatrix := new real[|dets|, |trks|];
    var d := 0;
    while d < |dets|
      invariant 0 <= d <= |dets|
      invariant forall i, j :: 0 <= i < d && 0 <= j < |trks| ==> iouMatrix[i, j] == scores[i][j]
    {
      var t := 0;
      while t < |trks|
        invariant 0 <= t <= |trks|
        invariant forall i, j :: 0 <= i < d && 0 <= j < |trks| ==> iouMatrix[i, j] == scores[i][j]
        invariant forall j :: 0 <= j < t ==> iouMatrix[d, j] == scores[d][j]
      {
        iouMatrix[d, t] := Iou(dets[d], trks[t]);
        t := t + 1;
      }
      d := d + 1;
    }
  }

  /** The `for m in matched_indices` loop: a pair below the threshold sends
      its detection and its tracker to the unmatched lists, any other pair is
      a match. */
  method FilterLowIou(iouMatrix: array2<real>, ghost scores: seq<seq<real>>, matchedIndices: seq<Pair>, iouThreshold: real,
                      missingDets: seq<int>, missingTrks: seq<int>)
    returns (matches: seq<Pair>, unmatchedDets: seq<int>, unmatchedTrks: seq<int>)
    requires |scores| == iouMatrix.Length0
    requires forall i :: 0 <= i < |scores| ==> |scores[i]| == iouMatrix.Length1
    requires forall i, j :: 0 <= i < iouMatrix.Length0 && 0 <= j < iouMatrix.Length1 ==> iouMatrix[i, j] == scores[i][j]
    requires InMatrix(matchedIndices, scores)
    ensures matches == Kept(scores, matchedIndices, iouThreshold)
    ensures unmatchedDets == missingDets + Rows(Dropped(scores, matchedIndices, iouThreshold))
    ensures unmatchedTrks == missingTrks + Cols(Dropped(scores, matchedIndices, iouThreshold))
  {
    matches, unmatchedDets, unmatchedTrks := [], missingDets, missingTrks;
    var k := 0;
    while k < |matchedIndices|
      invariant 0 <= k <= |matchedIndices|
      invariant matches == Kept(scores, matchedIndices[..k], iouThreshold)
      invariant unmatchedDets == missingDets + Rows(Dropped(scores, matchedIndices[..k], iouThreshold))
      invariant unmatchedTrks == missingTrks + Cols(Dropped(scores, matchedIndices[..k], iouThreshold))
    {
      var m := matchedIndices[k];
      ghost var prefix := matchedIndices[..k + 1];
      assert prefix[..k] == matchedIndices[..k] && prefix[k] == m;
      KeptDroppedStep(scores, prefix, iouThreshold);
      if iouMatrix[m.0, m.1] < iouThreshold {
        RowsColsAppend(Dropped(scores, matchedIndices[..k], iouThreshold), m);
        unmatchedDets := unmatchedDets + [m.0];
        unmatchedTrks := unmatchedTrks + [m.1];
      } else {
        matches := matches + [m];
      }
      k := k + 1;
    }
    assert matchedIndices[..k] == matchedIndices;
  }

  /** `associate_detections_to_trackers`: fills the IOU matrix with nested
      loops, collects the indices the solver left out, then filters the
      solver's pairs by the threshold. `matchedIndices` is the solver's
      answer for this matrix. */
  method AssociateDetectionsToTrackers(dets: seq<Box>, trks: seq<Box>, matchedIndices: seq<Pair>, iouThreshold: real)
    returns (matches: seq<Pair>, unmatchedDets: seq<int>, unmatchedTrks: seq<int>)
    requires AllPositive(dets) && AllPositive(trks)
    requires |dets| > 0 && |trks| > 0 ==> ValidPairing(matchedIndices, |dets|, |trks|)
    ensures Assignment(matches, unmatchedDets, unmatchedTrks) == Associate(dets, trks, matchedIndices, iouThreshold)
    ensures |trks| == 0 || |dets| == 0 ==> matches == [] && unmatchedDets == Range(|dets|) && unmatchedTrks == []
  {
    if |trks| == 0 || |dets| == 0 {
      return [], Range(|dets|), [];
    }
    var iouMatrix := FillIouMatrix(dets, trks);
    ghost var scores := IouMatrix(dets, trks);

    var detCol := Rows(matchedIndices);
    unmatchedDets := [];
    var d := 0;
    while d < |dets|
      invariant 0 <= d <= |dets|
      invariant unmatchedDets == Missing(detCol, d)
    {
      if d !in detCol {
        unmatchedDets := unmatchedDets + [d];
      }
      d := d + 1;
    }
    var trkCol := Cols(matchedIndices);
    unmatchedTrks := [];
    var t := 0;
    while t < |trks|
      invariant 0 <= t <= |trks|
      invariant unmatchedTrks == Missing(trkCol, t)
    {
      if t !in trkCol {
        unmatchedTrks := unmatchedTrks + [t];
      }
      t := t + 1;
    }

    matches, unmatchedDets, unmatchedTrks := FilterLowIou(iouMatrix, scores, matchedIndices, iouThreshold, unmatchedDets, unmatchedTrks);
  }
}
