/** The tracker manager (`Sort`): one call of `Update` per frame predicts
    every tracker from the optical flow, associates the detections, absorbs
    or coasts each tracker, rebuilds the occupancy mask, spawns trackers for
    unmatched detections, then reports and prunes in reverse list order.
    The feature detector, the optical flow and the assignment solver are
    outside the model: their results arrive as `flows` and `matchedIndices`. */
module MultiTracker {
  import opened Geometry
  import opened Association
  import opened OccupancyMask
  import opened Tracker

  /** One row of `dets`: a box and a confidence score the tracker ignores. */
  datatype Detection = Detection(box: Box, score: int)

  /** One row of the result: the tracker's box and its identity plus one. */
  datatype Report = Report(box: Box, trackId: int)

  /** The `iou_threshold` default that `Sort.update` relies on. */
  const IouThreshold: real := 0.3

  /** The two report rules: in a frame without detections a tracker is
      reported while it is young enough to survive; otherwise only when its
      time since update is 0 (it absorbed a detection this frame or was just
      spawned from one) and it is confirmed, or during warm-up. */
  datatype ReportRule = WithinAge(maxAge: int) | Confirmed(frameCount: int, minHits: int)

  predicate Reportable(s: TrackState, rule: ReportRule)
  {
    match rule
    case WithinAge(maxAge) => s.timeSinceUpdate <= maxAge
    case Confirmed(frameCount, minHits) => s.timeSinceUpdate < 1 && (s.hitStreak >= minHits || frameCount <= minHits)
  }

  /** `np.concatenate((d, [trk.id + 1]))`. */
  function ReportOf(s: TrackState): Report
  {
    Report(s.bbox, s.id + 1)
  }

  function DetBoxes(dets: seq<Detection>): (r: seq<Box>)
    ensures |r| == |dets| && forall i :: 0 <= i < |dets| ==> r[i] == dets[i].box
  {
    seq(|dets|, i requires 0 <= i < |dets| => dets[i].box)
  }

  function Boxes(ss: seq<TrackState>): (r: seq<Box>)
    ensures |r| == |ss| && forall i :: 0 <= i < |ss| ==> r[i] == ss[i].bbox
  {
    seq(|ss|, i requires 0 <= i < |ss| => ss[i].bbox)
  }

  /** The fields of every tracker of the list, in list order. */
  ghost function States(ts: seq<OpticalFlowTracker>): (r: seq<TrackState>)
    reads ts
    ensures |r| == |ts| && forall i :: 0 <= i < |ts| ==> r[i] == ts[i].State()
  {
    seq(|ts|, i reads ts requires 0 <= i < |ts| => ts[i].State())
  }

  /** Every tracker after its `predict`. */
  function PredictedStates(ss: seq<TrackState>, flows: seq<Flow>, mask: array2<int>): (r: seq<TrackState>)
    reads mask
    requires FlowsInFrame(flows, mask)
    ensures |r| == |ss| && forall i :: 0 <= i < |ss| ==> r[i] == Predicted(ss[i], flows, mask)
  {
    seq(|ss|, i requires 0 <= i < |ss| reads mask => Predicted(ss[i], flows, mask))
  }

  /** `matched[np.where(matched[:, 1] == t)[0], 0]`, first entry: the
      detection matched to tracker t, or -1 when there is none. */
  function MatchedDetection(matches: seq<Pair>, t: int): int
  {
    if |matches| == 0 then -1
    else if matches[0].1 == t then matches[0].0
    else MatchedDetection(matches[1..], t)
  }

  /** The absorb-or-coast loop: a tracker not listed as unmatched absorbs its
      matched detection's box, the others coast. The source would raise an
      index error if a tracker were neither matched nor unmatched; the
      partition lemmas show this never happens, and the model then coasts. */
  function AbsorbOrCoast(ss: seq<TrackState>, dets: seq<Detection>, matches: seq<Pair>, unmatchedTrks: seq<int>)
    : (r: seq<TrackState>)
    ensures |r| == |ss| && forall t :: 0 <= t < |ss| ==> r[t] == Resolved(ss[t], t, dets, matches, unmatchedTrks)
  {
    seq(|ss|, t requires 0 <= t < |ss| => Resolved(ss[t], t, dets, matches, unmatchedTrks))
  }

  /** What the loop does to tracker t, whose state is s. */
  function Resolved(s: TrackState, t: int, dets: seq<Detection>, matches: seq<Pair>, unmatchedTrks: seq<int>): TrackState
  {
    var d := MatchedDetection(matches, t);
    if t !in unmatchedTrks && 0 <= d < |dets| then Absorb(s, dets[d].box) else Coast(s)
  }

  /** The trackers created for the unmatched detections, with consecutive
      identities starting at the counter's value. */
  function Spawned(dets: seq<Detection>, unmatchedDets: seq<int>, firstId: nat): (r: seq<TrackState>)
    requires forall k :: 0 <= k < |unmatchedDets| ==> 0 <= unmatchedDets[k] < |dets|
    ensures |r| == |unmatchedDets|
  {
    seq(|unmatchedDets|, k requires 0 <= k < |unmatchedDets| => Spawn(dets[unmatchedDets[k]].box, firstId + k))
  }

  /** The trackers the prune keeps, in list order. */
  function Survivors(ss: seq<TrackState>, maxAge: int): seq<TrackState>
  {
    if |ss| == 0 then []
    else (if ss[0].timeSinceUpdate <= maxAge then [ss[0]] else []) + Survivors(ss[1..], maxAge)
  }

  /** The reports of the trackers satisfying the rule, in list order. */
  function ReportsOf(ss: seq<TrackState>, rule: ReportRule): seq<Report>
  {
    if |ss| == 0 then []
    else (if Reportable(ss[0], rule) then [ReportOf(ss[0])] else []) + ReportsOf(ss[1..], rule)
  }

  function Reverse<T>(s: seq<T>): seq<T>
  {
    if |s| == 0 then [] else Reverse(s[1..]) + [s[0]]
  }

  /** Reverse lists the elements last first. */
  lemma {:induction false} ReverseSpec<T>(s: seq<T>)
    ensures |Reverse(s)| == |s|
    ensures forall i :: 0 <= i < |s| ==> Reverse(s)[i] == s[|s| - 1 - i]
  {
    if |s| > 0 {
      ReverseSpec(s[1..]);
    }
  }

  /** Reversing keeps the members. */
  lemma ReverseMembers<T>(s: seq<T>)
    ensures forall x :: x in Reverse(s) <==> x in s
  {
    ReverseSpec(s);
    forall x | x in s
      ensures x in Reverse(s)
    {
      var j :| 0 <= j < |s| && s[j] == x;
      assert Reverse(s)[|s| - 1 - j] == x;
    }
  }

  /** The survivors are exactly the states no older than maxAge since their
      last update, in their original order. */
  lemma {:induction false} SurvivorsSpec(ss: seq<TrackState>, maxAge: int)
    ensures forall s :: s in Survivors(ss, maxAge) <==> s in ss && s.timeSinceUpdate <= maxAge
    ensures |Survivors(ss, maxAge)| <= |ss|
  {
    if |ss| > 0 {
      SurvivorsSpec(ss[1..], maxAge);
      assert ss == [ss[0]] + ss[1..];
    }
  }

  /** A report is produced exactly for each state that satisfies the rule. */
  lemma {:induction false} ReportsOfSpec(ss: seq<TrackState>, rule: ReportRule)
    ensures forall r :: r in ReportsOf(ss, rule) <==> exists i :: 0 <= i < |ss| && Reportable(ss[i], rule) && r == ReportOf(ss[i])
  {
    if |ss| > 0 {
      ReportsOfSpec(ss[1..], rule);
      forall r | r in ReportsOf(ss, rule)
        ensures exists i :: 0 <= i < |ss| && Reportable(ss[i], rule) && r == ReportOf(ss[i])
      {
        if r !in ReportsOf(ss[1..], rule) {
          assert Reportable(ss[0], rule) && r == ReportOf(ss[0]);
        } else {
          var i :| 0 <= i < |ss[1..]| && Reportable(ss[1..][i], rule) && r == ReportOf(ss[1..][i]);
          assert ss[i + 1] == ss[1..][i];
        }
      }
      forall i | 0 <= i < |ss| && Reportable(ss[i], rule)
        ensures ReportOf(ss[i]) in ReportsOf(ss, rule)
      {
        if i > 0 {
          assert ss[1..][i - 1] == ss[i];
        }
      }
    }
  }

  /** Every report carries a positive identity; in a frame with detections
      every reported tracker has time since update 0 (it absorbed a detection
      this frame or was just spawned from one) and is confirmed or the
      tracker is still warming up. */
  lemma ReportedAreConfirmed(ss: seq<TrackState>, rule: ReportRule, r: Report)
    requires r in Reverse(ReportsOf(ss, rule))
    ensures r.trackId >= 1
    ensures exists i :: 0 <= i < |ss| && r == ReportOf(ss[i]) && Reportable(ss[i], rule)
    ensures rule.Confirmed? ==>
              exists i :: 0 <= i < |ss| && r == ReportOf(ss[i]) && ss[i].timeSinceUpdate == 0
                          && (ss[i].hitStreak >= rule.minHits || rule.frameCount <= rule.minHits)
  {
    var rs := ReportsOf(ss, rule);
    ReverseSpec(rs);
    var j :| 0 <= j < |Reverse(rs)| && Reverse(rs)[j] == r;
    assert rs[|rs| - 1 - j] == r;
    assert r in rs;
    ReportsOfSpec(ss, rule);
    var i :| 0 <= i < |ss| && Reportable(ss[i], rule) && r == ReportOf(ss[i]);
    assert r == ReportOf(ss[i]) && Reportable(ss[i], rule);
  }

  /** One step of the reverse walk: reporting the head of the list comes
      after reporting the rest. */
  lemma ReverseReportsStep(ss: seq<TrackState>, rule: ReportRule)
    requires |ss| > 0
    ensures Reverse(ReportsOf(ss, rule))
            == Reverse(ReportsOf(ss[1..], rule)) + (if Reportable(ss[0], rule) then [ReportOf(ss[0])] else [])
  {
    if Reportable(ss[0], rule) {
      var rs := [ReportOf(ss[0])] + ReportsOf(ss[1..], rule);
      assert rs[1..] == ReportsOf(ss[1..], rule);
    } else {
      assert ReportsOf(ss, rule) == ReportsOf(ss[1..], rule);
    }
  }

  /** The reverse walk's reports over states s[i..]: the later states
      first. */
  function ReportsFrom(s: seq<TrackState>, i: nat, rule: ReportRule): seq<Report>
    decreases |s| - i
  {
    if i >= |s| then [] else ReportsFrom(s, i + 1, rule) + (if Reportable(s[i], rule) then [ReportOf(s[i])] else [])
  }

  /** The reverse walk's survivors among states s[i..], in list order. */
  function SurvivorsFrom(s: seq<TrackState>, i: nat, maxAge: int): seq<TrackState>
    decreases |s| - i
  {
    if i >= |s| then [] else (if s[i].timeSinceUpdate <= maxAge then [s[i]] else []) + SurvivorsFrom(s, i + 1, maxAge)
  }

  /** The walk's results are the reference definitions on the suffix. */
  lemma {:induction false} WalkMatchesReference(s: seq<TrackState>, i: nat, maxAge: int, rule: ReportRule)
    requires i <= |s|
    ensures ReportsFrom(s, i, rule) == Reverse(ReportsOf(s[i..], rule))
    ensures SurvivorsFrom(s, i, maxAge) == Survivors(s[i..], maxAge)
    decreases |s| - i
  {
    if i < |s| {
      WalkMatchesReference(s, i + 1, maxAge, rule);
      assert s[i..][1..] == s[i + 1..];
      ReverseReportsStep(s[i..], rule);
    }
  }

  /** Tracker t is the column of exactly one solver match when the columns
      are distinct: MatchedDetection finds that match's detection. */
  lemma {:induction false} MatchedDetectionSpec(matches: seq<Pair>, k: int)
    requires 0 <= k < |matches|
    requires forall i, j :: 0 <= i < j < |matches| ==> matches[i].1 != matches[j].1
    ensures MatchedDetection(matches, matches[k].1) == matches[k].0
  {
    if k > 0 {
      assert matches[0].1 != matches[k].1;
      MatchedDetectionSpec(matches[1..], k - 1);
    }
  }

  /** A value at two positions of a sequence occurs there at least twice. */
  lemma CountTwo(xs: seq<int>, i: int, j: int)
    requires 0 <= i < j < |xs| && xs[i] == xs[j]
    ensures multiset(xs)[xs[i]] >= 2
  {
    assert xs == xs[..j] + xs[j..];
    assert xs[i] in xs[..j] && xs[j] in xs[j..];
  }

  /** When an assignment partitions the indices, every tracker either is
      listed unmatched or has a matched detection in range, and a match
      (d, t) is the one MatchedDetection finds for tracker t. */
  lemma PartitionResolves(a: Assignment, nd: nat, nt: nat)
    requires Partitions(a, nd, nt)
    ensures forall t :: 0 <= t < nt && t !in a.unmatchedTrks ==> 0 <= MatchedDetection(a.matches, t) < nd
    ensures forall k :: 0 <= k < |a.matches| ==> MatchedDetection(a.matches, a.matches[k].1) == a.matches[k].0
  {
    RowsColsSpec(a.matches);
    var cs := Cols(a.matches) + a.unmatchedTrks;
    forall i, j | 0 <= i < j < |a.matches|
      ensures a.matches[i].1 != a.matches[j].1
    {
      if a.matches[i].1 == a.matches[j].1 {
        assert cs[i] == cs[j] && cs[i] in cs;
        CountTwo(cs, i, j);
      }
    }
    forall k | 0 <= k < |a.matches|
      ensures MatchedDetection(a.matches, a.matches[k].1) == a.matches[k].0
    {
      MatchedDetectionSpec(a.matches, k);
    }
    forall t | 0 <= t < nt && t !in a.unmatchedTrks
      ensures 0 <= MatchedDetection(a.matches, t) < nd
    {
      assert multiset(cs)[t] == 1;
      assert t in Cols(a.matches);
      var k :| 0 <= k < |a.matches| && Cols(a.matches)[k] == t;
      MatchedDetectionSpec(a.matches, k);
      assert Rows(a.matches)[k] in Rows(a.matches) + a.unmatchedDets;
    }
  }

  /** The frame's association therefore resolves every tracker. */
  lemma EveryTrackerResolved(dets: seq<Detection>, trks: seq<Box>, matchedIndices: seq<Pair>)
    requires AllPositive(DetBoxes(dets)) && AllPositive(trks) && |dets| > 0
    requires |trks| > 0 ==> ValidPairing(matchedIndices, |dets|, |trks|)
    ensures var a := Associate(DetBoxes(dets), trks, matchedIndices, IouThreshold);
            && (forall t :: 0 <= t < |trks| && t !in a.unmatchedTrks ==> 0 <= MatchedDetection(a.matches, t) < |dets|)
            && (forall k :: 0 <= k < |a.unmatchedDets| ==> 0 <= a.unmatchedDets[k] < |dets|)
  {
    var a := Associate(DetBoxes(dets), trks, matchedIndices, IouThreshold);
    AssociateCorrect(DetBoxes(dets), trks, matchedIndices, IouThreshold);
    PartitionResolves(a, |dets|, |trks|);
    assert forall k :: 0 <= k < |a.unmatchedDets| ==> a.unmatchedDets[k] in Rows(a.matches) + a.unmatchedDets;
  }

  /** The identities along the list strictly increase and stay below the
      counter, and every box has positive area. */
  predicate WellFormed(ss: seq<TrackState>, nextId: nat)
  {
    && (forall i, j :: 0 <= i < j < |ss| ==> ss[i].id < ss[j].id)
    && (forall i :: 0 <= i < |ss| ==> ss[i].id < nextId && PositiveArea(ss[i].bbox))
  }

  /** Prediction moves boxes without changing identities. */
  lemma PredictedWellFormed(ss: seq<TrackState>, flows: seq<Flow>, mask: array2<int>, nextId: nat)
    requires FlowsInFrame(flows, mask) && WellFormed(ss, nextId)
    ensures forall i :: 0 <= i < |ss| ==> PredictedStates(ss, flows, mask)[i].id == ss[i].id
    ensures WellFormed(PredictedStates(ss, flows, mask), nextId)
  {
  }

  /** Absorbing positive-area detections and coasting keep identities. */
  lemma AbsorbOrCoastWellFormed(ss: seq<TrackState>, dets: seq<Detection>, matches: seq<Pair>, unmatchedTrks: seq<int>, nextId: nat)
    requires WellFormed(ss, nextId) && AllPositive(DetBoxes(dets))
    ensures forall i :: 0 <= i < |ss| ==> AbsorbOrCoast(ss, dets, matches, unmatchedTrks)[i].id == ss[i].id
    ensures WellFormed(AbsorbOrCoast(ss, dets, matches, unmatchedTrks), nextId)
  {
    var r := AbsorbOrCoast(ss, dets, matches, unmatchedTrks);
    forall i | 0 <= i < |ss|
      ensures r[i].id == ss[i].id && PositiveArea(r[i].bbox)
    {
      var d := MatchedDetection(matches, i);
      if i !in unmatchedTrks && 0 <= d < |dets| {
        assert DetBoxes(dets)[d] == dets[d].box;
      }
    }
  }

  /** New trackers take consecutive identities from the counter on, above
      all others, each with its unmatched detection's box. */
  lemma SpawnedWellFormed(ss: seq<TrackState>, dets: seq<Detection>, unmatchedDets: seq<int>, nextId: nat)
    requires WellFormed(ss, nextId) && AllPositive(DetBoxes(dets))
    requires forall k :: 0 <= k < |unmatchedDets| ==> 0 <= unmatchedDets[k] < |dets|
    ensures forall k :: 0 <= k < |unmatchedDets| ==>
              Spawned(dets, unmatchedDets, nextId)[k].id == nextId + k
              && Spawned(dets, unmatchedDets, nextId)[k].bbox == dets[unmatchedDets[k]].box
    ensures WellFormed(ss + Spawned(dets, unmatchedDets, nextId), nextId + |unmatchedDets|)
  {
    var all := ss + Spawned(dets, unmatchedDets, nextId);
    forall k | |ss| <= k < |all|
      ensures all[k].id == nextId + (k - |ss|) && PositiveArea(all[k].bbox)
    {
      assert DetBoxes(dets)[unmatchedDets[k - |ss|]] == dets[unmatchedDets[k - |ss|]].box;
    }
  }

  /** Every tracker of `out` either takes a fresh identity in [lo, hi) or is
      the tracker of `before` with the same identity, unchanged, coasted or
      having absorbed a box: no identity passes to a different object. */
  predicate IdsOldOrFresh(out: seq<TrackState>, before: seq<TrackState>, lo: int, hi: int)
  {
    forall s :: s in out ==>
      || lo <= s.id < hi
      || exists i :: 0 <= i < |before| && before[i].id == s.id
                     && (s == before[i] || s == Coast(before[i]) || s == Absorb(before[i], s.bbox))
  }

  /** Absorbing or coasting turns each tracker into its own successor, and
      spawning uses only identities from the counter on. */
  lemma AbsorbSpawnIds(ss: seq<TrackState>, dets: seq<Detection>, matches: seq<Pair>, unmatchedTrks: seq<int>,
                       unmatchedDets: seq<int>, nextId: nat)
    requires forall k :: 0 <= k < |unmatchedDets| ==> 0 <= unmatchedDets[k] < |dets|
    ensures IdsOldOrFresh(AbsorbOrCoast(ss, dets, matches, unmatchedTrks) + Spawned(dets, unmatchedDets, nextId),
                          ss, nextId, nextId + |unmatchedDets|)
  {
    var updated := AbsorbOrCoast(ss, dets, matches, unmatchedTrks);
    var spawned := Spawned(dets, unmatchedDets, nextId);
    var all := updated + spawned;
    forall s: TrackState | s in all
      ensures || nextId <= s.id < nextId + |unmatchedDets|
              || exists i :: 0 <= i < |ss| && ss[i].id == s.id
                             && (s == ss[i] || s == Coast(ss[i]) || s == Absorb(ss[i], s.bbox))
    {
      var j :| 0 <= j < |all| && all[j] == s;
      if j < |updated| {
        assert all[j] == updated[j];
        var d := MatchedDetection(matches, j);
        if j !in unmatchedTrks && 0 <= d < |dets| {
          assert s == Absorb(ss[j], dets[d].box);
        } else {
          assert s == Coast(ss[j]);
        }
      } else {
        assert all[j] == spawned[j - |updated|];
      }
    }
  }

  /** Pruning keeps the order, so it keeps identities increasing. */
  lemma {:induction false} SurvivorsWellFormed(ss: seq<TrackState>, maxAge: int, nextId: nat)
    requires WellFormed(ss, nextId)
    ensures WellFormed(Survivors(ss, maxAge), nextId)
  {
    if |ss| > 0 {
      var rest := ss[1..];
      assert WellFormed(rest, nextId) by {
        assert forall k :: 0 <= k < |rest| ==> rest[k] == ss[k + 1];
      }
      SurvivorsWellFormed(rest, maxAge, nextId);
      SurvivorsSpec(rest, maxAge);
      var tail := Survivors(rest, maxAge);
      if ss[0].timeSinceUpdate <= maxAge {
        assert Survivors(ss, maxAge) == [ss[0]] + tail;
        forall k | 0 <= k < |tail|
          ensures ss[0].id < tail[k].id
        {
          assert tail[k] in rest;
          var j :| 0 <= j < |rest| && rest[j] == tail[k];
          assert rest[j] == ss[j + 1];
        }
        WellFormedCons(ss[0], tail, nextId);
      } else {
        assert Survivors(ss, maxAge) == tail;
      }
    }
  }

  /** A state with an identity below all others may go first. */
  lemma WellFormedCons(x: TrackState, ss: seq<TrackState>, nextId: nat)
    requires WellFormed(ss, nextId) && x.id < nextId && PositiveArea(x.bbox)
    requires forall k :: 0 <= k < |ss| ==> x.id < ss[k].id
    ensures WellFormed([x] + ss, nextId)
  {
    var l := [x] + ss;
    assert forall k :: 1 <= k < |l| ==> l[k] == ss[k - 1];
  }

  /** Distinct identities make the trackers distinct objects. */
  lemma WellFormedDistinct(ts: seq<OpticalFlowTracker>, nextId: nat)
    requires WellFormed(States(ts), nextId)
    ensures forall i, j :: 0 <= i < j < |ts| ==> ts[i] != ts[j]
  {
    forall i, j | 0 <= i < j < |ts|
      ensures ts[i] != ts[j]
    {
      assert States(ts)[i].id < States(ts)[j].id;
    }
  }

  lemma StatesCons(t: OpticalFlowTracker, ts: seq<OpticalFlowTracker>)
    ensures States([t] + ts) == [t.State()] + States(ts)
  {
  }

  /** Splitting a list that is a prefix of ys up to i, then kept. */
  lemma SplitAt(xs: seq<OpticalFlowTracker>, ys: seq<OpticalFlowTracker>, i: int, kept: seq<OpticalFlowTracker>)
    requires 0 <= i < |ys| && xs == ys[..i + 1] + kept
    ensures xs[i] == ys[i] && xs[..i] == ys[..i] && xs[i + 1..] == kept
    ensures xs == ys[..i] + ([ys[i]] + kept)
  {
    assert ys[..i + 1] == ys[..i] + [ys[i]];
  }

  /** The reverse walk of `update`: from the last tracker to the first,
      report each tracker the rule admits and pop each whose time since
      update exceeds `max_age`; the walk pops from a local copy of the list. */
  method ReverseWalk(trackers: seq<OpticalFlowTracker>, rule: ReportRule, maxAge: int)
    returns (ts: seq<OpticalFlowTracker>, ret: seq<Report>)
    ensures States(ts) == Survivors(States(trackers), maxAge)
    ensures ret == Reverse(ReportsOf(States(trackers), rule))
  {
    ghost var kept: seq<OpticalFlowTracker> := [];
    ghost var s := States(trackers);
    ts := trackers;
    ret := [];
    var i := |ts|;
    while i > 0
      invariant 0 <= i <= |trackers|
      invariant ts == trackers[..i] + kept
      invariant States(kept) == SurvivorsFrom(s, i, maxAge)
      invariant ret == ReportsFrom(s, i, rule)
    {
      i := i - 1;
      var trk := ts[i];
      SplitAt(ts, trackers, i, kept);
      assert trk.State() == s[i];
      var d := trk.GetState();
      assert Report(d, trk.id + 1) == ReportOf(s[i]);
      ghost var step := if Reportable(s[i], rule) then [ReportOf(s[i])] else [];
      assert ReportsFrom(s, i, rule) == ret + step;
      if Reportable(trk.State(), rule) {
        ret := ret + [Report(d, trk.id + 1)];
      }
      if trk.timeSinceUpdate > maxAge {
        assert SurvivorsFrom(s, i, maxAge) == SurvivorsFrom(s, i + 1, maxAge);
        ts := ts[..i] + ts[i + 1..];
      } else {
        assert SurvivorsFrom(s, i, maxAge) == [s[i]] + SurvivorsFrom(s, i + 1, maxAge);
        StatesCons(trk, kept);
        kept := [trk] + kept;
      }
    }
    assert ts == kept;
    WalkMatchesReference(s, 0, maxAge, rule);
    assert s[0..] == s;
  }

  /** What one frame produces: the boxes the mask is rebuilt from, the
      trackers that remain, the rows reported, and the next identity. */
  datatype Outcome = Outcome(maskBoxes: seq<Box>, trackers: seq<TrackState>, reports: seq<Report>, nextId: nat)

  /** Reference definition of one `update`, once every tracker has been
      predicted: NoDetectionStep or DetectionStep. */
  function FrameOutcome(predicted: seq<TrackState>, dets: seq<Detection>, matchedIndices: seq<Pair>,
                        maxAge: int, minHits: int, frameCount: int, nextId: nat): Outcome
    requires WellFormed(predicted, nextId) && AllPositive(DetBoxes(dets))
    requires |dets| > 0 && |predicted| > 0 ==> ValidPairing(matchedIndices, |dets|, |predicted|)
  {
    if |dets| == 0 then NoDetectionStep(predicted, maxAge, nextId)
    else DetectionStep(predicted, dets, matchedIndices, maxAge, minHits, frameCount, nextId)
  }

  /** The frame after prediction when there are no detections: the mask is
      taken over the predicted trackers, which are reported while young
      enough and pruned; no identity is used. */
  function NoDetectionStep(predicted: seq<TrackState>, maxAge: int, nextId: nat): Outcome
  {
    Outcome(Boxes(predicted), Survivors(predicted, maxAge), Reverse(ReportsOf(predicted, WithinAge(maxAge))), nextId)
  }

  /** The frame after prediction when there are detections: the predicted
      trackers are associated, absorbed or coasted, the mask is taken over
      them, new trackers are appended for the unmatched detections, and all
      are reported by the confirmation rule and pruned. */
  function DetectionStep(predicted: seq<TrackState>, dets: seq<Detection>, matchedIndices: seq<Pair>,
                         maxAge: int, minHits: int, frameCount: int, nextId: nat): Outcome
    requires WellFormed(predicted, nextId) && AllPositive(DetBoxes(dets)) && |dets| > 0
    requires |predicted| > 0 ==> ValidPairing(matchedIndices, |dets|, |predicted|)
  {
    var a := Associate(DetBoxes(dets), Boxes(predicted), matchedIndices, IouThreshold);
    EveryTrackerResolved(dets, Boxes(predicted), matchedIndices);
    var updated := AbsorbOrCoast(predicted, dets, a.matches, a.unmatchedTrks);
    var all := updated + Spawned(dets, a.unmatchedDets, nextId);
    Outcome(Boxes(updated), Survivors(all, maxAge), Reverse(ReportsOf(all, Confirmed(frameCount, minHits))),
            nextId + |a.unmatchedDets|)
  }

  /** A frame with detections keeps the trackers well formed, uses one new
      identity per unmatched detection, makes every tracker the successor
      of the predicted tracker with its identity or gives it one of those
      new ones, and leaves no tracker older than maxAge since its last
      update. */
  lemma DetectionStepInvariant(predicted: seq<TrackState>, dets: seq<Detection>, matchedIndices: seq<Pair>,
                               maxAge: int, minHits: int, frameCount: int, nextId: nat)
    requires WellFormed(predicted, nextId) && AllPositive(DetBoxes(dets)) && |dets| > 0
    requires |predicted| > 0 ==> ValidPairing(matchedIndices, |dets|, |predicted|)
    ensures var o := DetectionStep(predicted, dets, matchedIndices, maxAge, minHits, frameCount, nextId);
            && WellFormed(o.trackers, o.nextId)
            && o.nextId == nextId + |Associate(DetBoxes(dets), Boxes(predicted), matchedIndices, IouThreshold).unmatchedDets|
            && IdsOldOrFresh(o.trackers, predicted, nextId, o.nextId)
            && forall i :: 0 <= i < |o.trackers| ==> o.trackers[i].timeSinceUpdate <= maxAge
  {
    var a := Associate(DetBoxes(dets), Boxes(predicted), matchedIndices, IouThreshold);
    EveryTrackerResolved(dets, Boxes(predicted), matchedIndices);
    var updated := AbsorbOrCoast(predicted, dets, a.matches, a.unmatchedTrks);
    AbsorbOrCoastWellFormed(predicted, dets, a.matches, a.unmatchedTrks, nextId);
    var all := updated + Spawned(dets, a.unmatchedDets, nextId);
    SpawnedWellFormed(updated, dets, a.unmatchedDets, nextId);
    SurvivorsWellFormed(all, maxAge, nextId + |a.unmatchedDets|);
    SurvivorsSpec(all, maxAge);
    AbsorbSpawnIds(predicted, dets, a.matches, a.unmatchedTrks, a.unmatchedDets, nextId);
  }

  /** Every frame keeps the trackers well formed and leaves no tracker older
      than maxAge since its last update. It never passes an identity to a
      different object: every tracker is the predicted tracker with its
      identity (unchanged, coasted or having absorbed a box) or takes a
      fresh identity at or above the old counter, and without detections
      none is taken. */
  lemma FrameOutcomeInvariant(predicted: seq<TrackState>, dets: seq<Detection>, matchedIndices: seq<Pair>,
                              maxAge: int, minHits: int, frameCount: int, nextId: nat)
    requires WellFormed(predicted, nextId) && AllPositive(DetBoxes(dets))
    requires |dets| > 0 && |predicted| > 0 ==> ValidPairing(matchedIndices, |dets|, |predicted|)
    ensures var o := FrameOutcome(predicted, dets, matchedIndices, maxAge, minHits, frameCount, nextId);
            && WellFormed(o.trackers, o.nextId) && nextId <= o.nextId && (|dets| == 0 ==> o.nextId == nextId)
            && IdsOldOrFresh(o.trackers, predicted, nextId, o.nextId)
            && forall i :: 0 <= i < |o.trackers| ==> o.trackers[i].timeSinceUpdate <= maxAge
  {
    if |dets| == 0 {
      SurvivorsWellFormed(predicted, maxAge, nextId);
      SurvivorsSpec(predicted, maxAge);
      forall s: TrackState | s in Survivors(predicted, maxAge)
        ensures exists i :: 0 <= i < |predicted| && predicted[i].id == s.id && s == predicted[i]
      {
        var i :| 0 <= i < |predicted| && predicted[i] == s;
      }
    } else {
      DetectionStepInvariant(predicted, dets, matchedIndices, maxAge, minHits, frameCount, nextId);
    }
  }

  /** In a frame without detections exactly the trackers no older than
      maxAge since their last update are reported, last tracker first, and
      exactly they survive. */
  lemma NoDetectionStepSpec(predicted: seq<TrackState>, maxAge: int, nextId: nat)
    ensures var o := NoDetectionStep(predicted, maxAge, nextId);
            && (forall s :: s in o.trackers <==> s in predicted && s.timeSinceUpdate <= maxAge)
            && (forall r :: r in o.reports <==>
                  exists i :: 0 <= i < |predicted| && predicted[i].timeSinceUpdate <= maxAge && r == ReportOf(predicted[i]))
            && |o.reports| == |ReportsOf(predicted, WithinAge(maxAge))|
            && (forall i :: 0 <= i < |o.reports| ==>
                  o.reports[i] == ReportsOf(predicted, WithinAge(maxAge))[|o.reports| - 1 - i])
  {
    var rs := ReportsOf(predicted, WithinAge(maxAge));
    SurvivorsSpec(predicted, maxAge);
    ReportsOfSpec(predicted, WithinAge(maxAge));
    ReverseSpec(rs);
    ReverseMembers(rs);
  }

  class Sort {
    var maxAge: int
    var minHits: int
    var trackers: seq<OpticalFlowTracker>
    var frameCount: nat
    /** The identity counter, `OpticalFlowTracker.count` in the source. */
    var count: nat

    ghost predicate Valid()
      reads this`trackers, this`count, trackers
    {
      WellFormed(States(trackers), count)
    }

    /** `__init__(max_age=100, min_hits=3)`. */
    constructor (maxAge: int := 100, minHits: int := 3)
      ensures Valid()
      ensures this.maxAge == maxAge && this.minHits == minHits
      ensures trackers == [] && frameCount == 0 && count == 0
    {
      this.maxAge := maxAge;
      this.minHits := minHits;
      trackers := [];
      frameCount := 0;
      count := 0;
    }

    /** The loop calling `predict` on every tracker; returns the predicted
        boxes (`trks`). */
    method PredictAll(flows: seq<Flow>, mask: array2<int>) returns (trks: seq<Box>)
      requires Valid() && FlowsInFrame(flows, mask)
      modifies trackers
      ensures Valid()
      ensures States(trackers) == old(PredictedStates(States(trackers), flows, mask))
      ensures trks == Boxes(States(trackers))
      ensures maxAge == old(maxAge) && minHits == old(minHits) && frameCount == old(frameCount) && count == old(count)
    {
      ghost var s0 := States(trackers);
      ghost var p := PredictedStates(s0, flows, mask);
      PredictedWellFormed(s0, flows, mask, count);
      WellFormedDistinct(trackers, count);
      trks := [];
      var t := 0;
      while t < |trackers|
        invariant 0 <= t <= |trackers|
        invariant forall i :: 0 <= i < t ==> trackers[i].State() == p[i]
        invariant forall i :: t <= i < |trackers| ==> trackers[i].State() == s0[i]
        invariant |trks| == t && forall i :: 0 <= i < t ==> trks[i] == p[i].bbox
      {
        var pos := trackers[t].Predict(flows, mask);
        trks := trks + [pos];
        t := t + 1;
      }
      assert States(trackers) == p;
    }

    /** `mask *= 0`, then `mask[box[1]:box[3], box[0]:box[2]] += 1` for the
        box of every tracker of the list. */
    method RebuildMask(mask: array2<int>, ghost boxes: seq<Box>)
      requires boxes == Boxes(States(trackers))
      modifies mask
      ensures Counts(mask, boxes) && States(trackers) == old(States(trackers))
    {
      Clear(mask);
      var k := 0;
      while k < |trackers|
        invariant 0 <= k <= |trackers|
        invariant Counts(mask, boxes[..k])
      {
        var box := trackers[k].GetState();
        assert box == boxes[k];
        AddBox(mask, box);
        assert boxes[..k + 1] == boxes[..k] + [box];
        forall r, c | 0 <= r < mask.Length0 && 0 <= c < mask.Length1
          ensures mask[r, c] == CoverCount(boxes[..k + 1], r, c, mask.Length0, mask.Length1)
        {
          AddBoxCounts(boxes[..k], box, r, c, mask.Length0, mask.Length1);
        }
        k := k + 1;
      }
      assert boxes[..k] == boxes;
    }

    /** The loop that calls `update` on each matched tracker with its
        detection's box and `hokan` on each unmatched one. */
    method AbsorbOrCoastAll(dets: seq<Detection>, matched: seq<Pair>, unmatchedTrks: seq<int>)
      requires Valid() && AllPositive(DetBoxes(dets))
      requires forall t :: 0 <= t < |trackers| && t !in unmatchedTrks ==> 0 <= MatchedDetection(matched, t) < |dets|
      modifies trackers
      ensures Valid()
      ensures States(trackers) == AbsorbOrCoast(old(States(trackers)), dets, matched, unmatchedTrks)
    {
      ghost var s0 := States(trackers);
      WellFormedDistinct(trackers, count);
      var t := 0;
      while t < |trackers|
        invariant 0 <= t <= |trackers|
        invariant forall i :: 0 <= i < t ==> trackers[i].State() == Resolved(s0[i], i, dets, matched, unmatchedTrks)
        invariant forall i :: t <= i < |trackers| ==> trackers[i].State() == s0[i]
      {
        var trk := trackers[t];
        if t !in unmatchedTrks {
          var d := MatchedDetection(matched, t);
          trk.Update(dets[d].box);
        } else {
          trk.Hokan(trk.bbox);
        }
        t := t + 1;
      }
      assert States(trackers) == AbsorbOrCoast(s0, dets, matched, unmatchedTrks);
      AbsorbOrCoastWellFormed(s0, dets, matched, unmatchedTrks, count);
    }

    /** One new tracker per unmatched detection, each taking the next
        identity. */
    method SpawnAll(dets: seq<Detection>, unmatchedDets: seq<int>)
      requires Valid() && AllPositive(DetBoxes(dets))
      requires forall k :: 0 <= k < |unmatchedDets| ==> 0 <= unmatchedDets[k] < |dets|
      modifies this
      ensures Valid()
      ensures States(trackers) == old(States(trackers)) + Spawned(dets, unmatchedDets, old(count))
      ensures count == old(count) + |unmatchedDets|
      ensures maxAge == old(maxAge) && minHits == old(minHits) && frameCount == old(frameCount)
    {
      ghost var s0 := States(trackers);
      ghost var c0 := count;
      var k := 0;
      while k < |unmatchedDets|
        invariant 0 <= k <= |unmatchedDets|
        invariant count == c0 + k
        invariant States(trackers) == s0 + Spawned(dets, unmatchedDets[..k], c0)
        invariant maxAge == old(maxAge) && minHits == old(minHits) && frameCount == old(frameCount)
      {
        var trk := new OpticalFlowTracker(dets[unmatchedDets[k]].box, count);
        count := count + 1;
        ghost var before := trackers;
        trackers := trackers + [trk];
        assert States(trackers) == States(before) + [trk.State()];
        assert Spawned(dets, unmatchedDets[..k + 1], c0) == Spawned(dets, unmatchedDets[..k], c0) + [trk.State()];
        k := k + 1;
      }
      assert unmatchedDets[..k] == unmatchedDets;
      SpawnedWellFormed(s0, dets, unmatchedDets, c0);
    }

    /** The report-and-prune loop over the tracker list, which becomes the
        list of survivors. */
    method ReportAndPrune(rule: ReportRule) returns (ret: seq<Report>)
      requires Valid()
      modifies this`trackers
      ensures States(trackers) == Survivors(old(States(trackers)), maxAge)
      ensures ret == Reverse(ReportsOf(old(States(trackers)), rule))
      ensures Valid()
    {
      SurvivorsWellFormed(States(trackers), maxAge, count);
      var kept;
      kept, ret := ReverseWalk(trackers, rule, maxAge);
      trackers := kept;
    }

    /** `update(dets, old_gray, new_gray, mask)` for one frame. `flows` are
        the optical-flow correspondences of this frame and `matchedIndices`
        the assignment solver's pairing for this frame's IOU matrix; `mask`
        is read by the prediction and rebuilt in place. */
    method Update(dets: seq<Detection>, flows: seq<Flow>, mask: array2<int>, matchedIndices: seq<Pair>)
      returns (ret: seq<Report>)
      requires Valid()
      requires FlowsInFrame(flows, mask)
      requires AllPositive(DetBoxes(dets))
      requires |dets| > 0 && |trackers| > 0 ==> ValidPairing(matchedIndices, |dets|, |trackers|)
      modifies this, trackers, mask
      ensures Valid()
      ensures frameCount == old(frameCount) + 1 && maxAge == old(maxAge) && minHits == old(minHits)
      ensures var o := FrameOutcome(old(PredictedStates(States(trackers), flows, mask)), dets, matchedIndices,
                                       maxAge, minHits, frameCount, old(count));
              Counts(mask, o.maskBoxes) && States(trackers) == o.trackers && ret == o.reports && count == o.nextId
    {
      var trks := PredictAll(flows, mask);
      ret := CountAndFinish(dets, trks, mask, matchedIndices, States(trackers));
    }

    /** `self.frame_count += 1`, then the rest of `update` once every
        tracker is predicted; `predicted` are the predicted trackers. */
    method CountAndFinish(dets: seq<Detection>, trks: seq<Box>, mask: array2<int>, matchedIndices: seq<Pair>,
                          ghost predicted: seq<TrackState>)
      returns (ret: seq<Report>)
      requires Valid() && AllPositive(DetBoxes(dets))
      requires predicted == States(trackers) && trks == Boxes(predicted)
      requires |dets| > 0 && |trackers| > 0 ==> ValidPairing(matchedIndices, |dets|, |trackers|)
      modifies this, trackers, mask
      ensures Valid()
      ensures frameCount == old(frameCount) + 1 && maxAge == old(maxAge) && minHits == old(minHits)
      ensures var o := FrameOutcome(predicted, dets, matchedIndices, maxAge, minHits, frameCount, old(count));
              Counts(mask, o.maskBoxes) && States(trackers) == o.trackers && ret == o.reports && count == o.nextId
    {
      frameCount := frameCount + 1;
      ghost var o := FrameOutcome(predicted, dets, matchedIndices, maxAge, minHits, frameCount, count);
      ret := FinishFrame(dets, trks, mask, matchedIndices, o);
    }

    /** The rest of `update` once every tracker is predicted. */
    method FinishFrame(dets: seq<Detection>, trks: seq<Box>, mask: array2<int>, matchedIndices: seq<Pair>,
                       ghost o: Outcome)
      returns (ret: seq<Report>)
      requires Valid() && AllPositive(DetBoxes(dets))
      requires trks == Boxes(States(trackers))
      requires |dets| > 0 && |trackers| > 0 ==> ValidPairing(matchedIndices, |dets|, |trackers|)
      requires o == FrameOutcome(States(trackers), dets, matchedIndices, maxAge, minHits, frameCount, count)
      modifies this, trackers, mask
      ensures Valid()
      ensures frameCount == old(frameCount) && maxAge == old(maxAge) && minHits == old(minHits)
      ensures Counts(mask, o.maskBoxes) && States(trackers) == o.trackers && ret == o.reports && count == o.nextId
    {
      if |dets| == 0 {
        ret := UpdateWithoutDetections(mask, o);
      } else {
        ret := UpdateWithDetections(dets, trks, mask, matchedIndices, o);
      }
    }

    /** The rest of `update` when there are no detections: rebuild the mask,
        then report and prune by age. */
    method UpdateWithoutDetections(mask: array2<int>, ghost o: Outcome) returns (ret: seq<Report>)
      requires Valid() && o == NoDetectionStep(States(trackers), maxAge, count)
      modifies this`trackers, mask
      ensures Valid()
      ensures frameCount == old(frameCount) && maxAge == old(maxAge) && minHits == old(minHits)
      ensures Counts(mask, o.maskBoxes) && States(trackers) == o.trackers && ret == o.reports && count == o.nextId
    {
      RebuildMask(mask, o.maskBoxes);
      ret := ReportAndPrune(WithinAge(maxAge));
    }

    /** The rest of `update` when there are detections: associate, absorb
        or coast, rebuild the mask, spawn, then report and prune. */
    method UpdateWithDetections(dets: seq<Detection>, trks: seq<Box>, mask: array2<int>, matchedIndices: seq<Pair>,
                                ghost o: Outcome)
      returns (ret: seq<Report>)
      requires Valid() && AllPositive(DetBoxes(dets)) && |dets| > 0
      requires trks == Boxes(States(trackers))
      requires |trackers| > 0 ==> ValidPairing(matchedIndices, |dets|, |trackers|)
      requires o == DetectionStep(States(trackers), dets, matchedIndices, maxAge, minHits, frameCount, count)
      modifies this, trackers, mask
      ensures Valid()
      ensures frameCount == old(frameCount) && maxAge == old(maxAge) && minHits == old(minHits)
      ensures Counts(mask, o.maskBoxes) && States(trackers) == o.trackers && ret == o.reports && count == o.nextId
    {
      ghost var a := Associate(DetBoxes(dets), trks, matchedIndices, IouThreshold);
      ghost var updated := AbsorbOrCoast(States(trackers), dets, a.matches, a.unmatchedTrks);
      var unmatchedDets := AssociateAndResolve(dets, trks, mask, matchedIndices, a);
      ghost var all := updated + Spawned(dets, a.unmatchedDets, count);
      assert o == Outcome(Boxes(updated), Survivors(all, maxAge), Reverse(ReportsOf(all, Confirmed(frameCount, minHits))),
                          count + |a.unmatchedDets|);
      ret := SpawnAndReport(dets, unmatchedDets, Confirmed(frameCount, minHits));
    }

    /** The first half of `update` with detections: associate, absorb or coast
        every tracker, then rebuild the mask from the updated boxes. */
    method AssociateAndResolve(dets: seq<Detection>, trks: seq<Box>, mask: array2<int>, matchedIndices: seq<Pair>,
                               ghost a: Assignment)
      returns (unmatchedDets: seq<int>)
      requires Valid() && AllPositive(DetBoxes(dets)) && |dets| > 0
      requires trks == Boxes(States(trackers))
      requires |trackers| > 0 ==> ValidPairing(matchedIndices, |dets|, |trackers|)
      requires a == Associate(DetBoxes(dets), trks, matchedIndices, IouThreshold)
      modifies trackers, mask
      ensures Valid()
      ensures unmatchedDets == a.unmatchedDets
      ensures forall k :: 0 <= k < |unmatchedDets| ==> 0 <= unmatchedDets[k] < |dets|
      ensures States(trackers) == AbsorbOrCoast(old(States(trackers)), dets, a.matches, a.unmatchedTrks)
      ensures Counts(mask, Boxes(States(trackers)))
    {
      EveryTrackerResolved(dets, trks, matchedIndices);
      var detBoxes := DetBoxes(dets);
      var matched, unmatchedTrks;
      matched, unmatchedDets, unmatchedTrks := AssociateDetectionsToTrackers(detBoxes, trks, matchedIndices, IouThreshold);
      AbsorbOrCoastAll(dets, matched, unmatchedTrks);
      RebuildMask(mask, Boxes(States(trackers)));
    }

    /** The end of `update` with detections: spawn a tracker for every
        unmatched detection, then report and prune. */
    method SpawnAndReport(dets: seq<Detection>, unmatchedDets: seq<int>, rule: ReportRule) returns (ret: seq<Report>)
      requires Valid() && AllPositive(DetBoxes(dets))
      requires forall k :: 0 <= k < |unmatchedDets| ==> 0 <= unmatchedDets[k] < |dets|
      modifies this
      ensures Valid()
      ensures maxAge == old(maxAge) && minHits == old(minHits) && frameCount == old(frameCount)
      ensures var all := old(States(trackers)) + Spawned(dets, unmatchedDets, old(count));
              States(trackers) == Survivors(all, maxAge) && ret == Reverse(ReportsOf(all, rule))
      ensures count == old(count) + |unmatchedDets|
    {
      SpawnAll(dets, unmatchedDets);
      ret := ReportAndPrune(rule);
    }
  }
}
