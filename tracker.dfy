/** One tracked object (`OpticalFlowTracker`): its box, its counters, and the
    flow-based prediction that moves the box between detections. */
module Tracker {
  import opened Geometry

  /** One optical-flow correspondence: a feature at `prev` in the previous
      frame that the flow computation found at `cur` in the current one
      (`good_old[i]`, `good_new[i]`). */
  datatype Flow = Flow(prev: Point, cur: Point)

  /** Point p is a pixel of the frame, whose size the mask shares. */
  predicate InFrame(p: Point, mask: array2<int>)
  {
    0 <= p.y < mask.Length0 && 0 <= p.x < mask.Length1
  }

  /** The feature points the flow starts from are pixels of the frame. */
  predicate FlowsInFrame(flows: seq<Flow>, mask: array2<int>)
  {
    forall i :: 0 <= i < |flows| ==> InFrame(flows[i].prev, mask)
  }

  function Displacement(f: Flow): Point
  {
    Point(f.cur.x - f.prev.x, f.cur.y - f.prev.y)
  }

  function SquaredLength(v: Point): int
  {
    v.x * v.x + v.y * v.y
  }

  /** A correspondence may steer box b: its old point lies in the closed box
      and the mask holds exactly 1 at that pixel. */
  predicate Eligible(b: Box, p: Point, mask: array2<int>)
    reads mask
    requires InFrame(p, mask)
  {
    b.x1 <= p.x <= b.x2 && b.y1 <= p.y <= b.y2 && mask[p.y, p.x] == 1
  }

  /** An eligible correspondence whose squared displacement exceeds `move`,
      which the source initialises to 0 and never updates. */
  predicate Steers(b: Box, f: Flow, mask: array2<int>)
    reads mask
    requires InFrame(f.prev, mask)
  {
    Eligible(b, f.prev, mask) && SquaredLength(Displacement(f)) > 0
  }

  /** The vector the prediction loop ends with, for the correspondences
      scanned in order: each steering one overwrites it. */
  function ChosenVector(b: Box, flows: seq<Flow>, mask: array2<int>): Point
    reads mask
    requires FlowsInFrame(flows, mask)
  {
    if |flows| == 0 then Point(0, 0)
    else if Steers(b, flows[|flows| - 1], mask) then Displacement(flows[|flows| - 1])
    else ChosenVector(b, flows[..|flows| - 1], mask)
  }

  /** Correspondence k steers box b and no later one does. */
  predicate LastSteering(b: Box, flows: seq<Flow>, mask: array2<int>, k: int)
    reads mask
    requires FlowsInFrame(flows, mask)
  {
    && 0 <= k < |flows| && Steers(b, flows[k], mask)
    && forall j :: k < j < |flows| ==> !Steers(b, flows[j], mask)
  }

  /** A vector has positive squared length exactly when it is not zero. */
  lemma SquaredLengthPositive(v: Point)
    ensures SquaredLength(v) > 0 <==> v != Point(0, 0)
  {
    if v.x != 0 {
      assert v.x * v.x > 0;
    } else if v.y != 0 {
      assert v.y * v.y > 0;
    }
  }

  /** With no eligible moving correspondence the prediction's vector is
      (0, 0), the initial `vector`. */
  lemma {:induction false} ChosenVectorNone(b: Box, flows: seq<Flow>, mask: array2<int>)
    requires FlowsInFrame(flows, mask)
    requires forall i :: 0 <= i < |flows| ==> !Steers(b, flows[i], mask)
    ensures ChosenVector(b, flows, mask) == Point(0, 0)
  {
    if |flows| > 0 {
      var init := flows[..|flows| - 1];
      assert forall i :: 0 <= i < |init| ==> init[i] == flows[i];
      ChosenVectorNone(b, init, mask);
    }
  }

  /** If some correspondence steers the box, a last one does. */
  lemma {:induction false} LastSteeringExists(b: Box, flows: seq<Flow>, mask: array2<int>, i: int)
    requires FlowsInFrame(flows, mask)
    requires 0 <= i < |flows| && Steers(b, flows[i], mask)
    ensures exists k :: LastSteering(b, flows, mask, k)
  {
    var n := |flows| - 1;
    if Steers(b, flows[n], mask) {
      assert LastSteering(b, flows, mask, n);
    } else {
      var init := flows[..n];
      assert forall j :: 0 <= j < n ==> init[j] == flows[j];
      LastSteeringExists(b, init, mask, i);
      var k :| LastSteering(b, init, mask, k);
      assert LastSteering(b, flows, mask, k);
    }
  }

  /** Otherwise the vector is the displacement of the LAST eligible moving
      correspondence, a non-zero one; it need not be the largest, because
      `move` stays 0. */
  lemma {:induction false} ChosenVectorLast(b: Box, flows: seq<Flow>, mask: array2<int>, k: int)
    requires FlowsInFrame(flows, mask)
    requires LastSteering(b, flows, mask, k)
    ensures ChosenVector(b, flows, mask) == Displacement(flows[k]) != Point(0, 0)
  {
    var n := |flows| - 1;
    if k < n {
      var init := flows[..n];
      assert forall j :: 0 <= j < n ==> init[j] == flows[j];
      assert LastSteering(b, init, mask, k);
      ChosenVectorLast(b, init, mask, k);
    } else {
      SquaredLengthPositive(Displacement(flows[k]));
    }
  }

  /** The quirk on a concrete input: two eligible correspondences from the
      same pixel moving 5 and then 1 pixel to the right give the vector (1, 0),
      not the larger (5, 0). */
  lemma LastNotLargest(mask: array2<int>)
    requires mask.Length0 > 1 && mask.Length1 > 1 && mask[1, 1] == 1
    ensures ChosenVector(Box(0, 0, 2, 2), [Flow(Point(1, 1), Point(6, 1)), Flow(Point(1, 1), Point(2, 1))], mask)
            == Point(1, 0)
  {
    var flows := [Flow(Point(1, 1), Point(6, 1)), Flow(Point(1, 1), Point(2, 1))];
    assert Steers(Box(0, 0, 2, 2), flows[1], mask);
  }

  /** The fields of one tracker, as a value. */
  datatype TrackState = TrackState(bbox: Box, timeSinceUpdate: nat, hits: nat, hitStreak: nat, age: nat,
                                   history: seq<Box>, id: nat)

  /** A tracker as `__init__` creates it. */
  function Spawn(b: Box, id: nat): TrackState
  {
    TrackState(b, 0, 0, 0, 0, [], id)
  }

  /** The effect of `update(bbox)`. */
  function Absorb(s: TrackState, b: Box): TrackState
  {
    s.(bbox := b, timeSinceUpdate := 0, history := [], hits := s.hits + 1, hitStreak := s.hitStreak + 1)
  }

  /** The effect of `hokan(bbox)`: only the hit streak grows. */
  function Coast(s: TrackState): TrackState
  {
    s.(hitStreak := s.hitStreak + 1)
  }

  /** The effect of `predict(good_new, good_old, mask)`. */
  function Predicted(s: TrackState, flows: seq<Flow>, mask: array2<int>): TrackState
    reads mask
    requires FlowsInFrame(flows, mask)
  {
    var b := Translate(s.bbox, ChosenVector(s.bbox, flows, mask));
    s.(bbox := b, age := s.age + 1, hitStreak := if s.timeSinceUpdate > 0 then 0 else s.hitStreak,
       timeSinceUpdate := s.timeSinceUpdate + 1, history := s.history + [b])
  }

  /** Two boxes that agree on all four coordinates are equal. */
  lemma BoxByCoords(a: Box, b: Box)
    requires forall k :: 0 <= k < 4 ==> Coord(a, k) == Coord(b, k)
    ensures a == b
  {
    assert Coord(a, 0) == Coord(b, 0) && Coord(a, 1) == Coord(b, 1);
    assert Coord(a, 2) == Coord(b, 2) && Coord(a, 3) == Coord(b, 3);
  }

  class OpticalFlowTracker {
    var bbox: Box
    var timeSinceUpdate: nat
    var id: nat
    var history: seq<Box>
    var hits: nat
    var hitStreak: nat
    var age: nat

    function State(): TrackState
      reads this
    {
      TrackState(bbox, timeSinceUpdate, hits, hitStreak, age, history, id)
    }

    /** `__init__(bbox)`; the identity is the manager's counter value, which
        the caller then advances. */
    constructor (bbox: Box, id: nat)
      ensures this.bbox == bbox && this.id == id
      ensures timeSinceUpdate == 0 && hits == 0 && hitStreak == 0 && age == 0 && history == []
      ensures State() == Spawn(bbox, id)
    {
      this.bbox := bbox;
      timeSinceUpdate := 0;
      this.id := id;
      history := [];
      hits := 0;
      hitStreak := 0;
      age := 0;
    }

    /** `update(bbox)`: absorb a matched detection. */
    method Update(bbox: Box)
      modifies this
      ensures this.bbox == bbox && timeSinceUpdate == 0 && history == []
      ensures hits == old(hits) + 1 && hitStreak == old(hitStreak) + 1
      ensures age == old(age) && id == old(id)
      ensures State() == Absorb(old(State()), bbox)
    {
      timeSinceUpdate := 0;
      history := [];
      hits := hits + 1;
      hitStreak := hitStreak + 1;
      this.bbox := bbox;
    }

    /** `hokan(bbox)`: its first statement compares instead of assigning, so
        the box stays where it is and only the hit streak grows. */
    method Hokan(bbox: Box)
      modifies this
      ensures hitStreak == old(hitStreak) + 1
      ensures this.bbox == old(this.bbox) && timeSinceUpdate == old(timeSinceUpdate) && hits == old(hits)
      ensures age == old(age) && history == old(history) && id == old(id)
      ensures State() == Coast(old(State()))
    {
      var _ := this.bbox == bbox;
      hitStreak := hitStreak + 1;
    }

    /** `predict(good_new, good_old, mask)`: scan the correspondences for the
        vector, shift the four coordinates by it, then age the tracker. */
    method Predict(flows: seq<Flow>, mask: array2<int>) returns (pos: Box)
      requires FlowsInFrame(flows, mask)
      modifies this
      ensures bbox == Translate(old(bbox), ChosenVector(old(bbox), flows, mask))
      ensures age == old(age) + 1 && timeSinceUpdate == old(timeSinceUpdate) + 1
      ensures hitStreak == if old(timeSinceUpdate) > 0 then 0 else old(hitStreak)
      ensures history == old(history) + [bbox] && pos == bbox
      ensures hits == old(hits) && id == old(id)
      ensures State() == Predicted(old(State()), flows, mask)
    {
      var move := 0;
      var vector := Point(0, 0);
      var i := 0;
      while i < |flows|
        invariant 0 <= i <= |flows|
        invariant vector == ChosenVector(bbox, flows[..i], mask)
      {
        var a, b := flows[i].cur.x, flows[i].cur.y;
        var c, d := flows[i].prev.x, flows[i].prev.y;
        assert flows[..i + 1][..i] == flows[..i];
        if bbox.x1 <= c <= bbox.x2 && bbox.y1 <= d <= bbox.y2 && mask[d, c] == 1 {
          if (a - c) * (a - c) + (b - d) * (b - d) > move {
            vector := Point(a - c, b - d);
          }
        }
        i := i + 1;
      }
      assert flows[..i] == flows;

      var shifted := bbox;
      var k := 0;
      while k < 4
        invariant 0 <= k <= 4
        invariant forall j :: 0 <= j < k ==> Coord(shifted, j) == Coord(bbox, j) + Component(vector, j)
        invariant forall j :: k <= j < 4 ==> Coord(shifted, j) == Coord(bbox, j)
      {
        shifted := WithCoord(shifted, k, Coord(shifted, k) + Component(vector, k));
        k := k + 1;
      }
      BoxByCoords(shifted, Translate(bbox, vector));
      bbox := shifted;

      age := age + 1;
      if timeSinceUpdate > 0 {
        hitStreak := 0;
      }
      timeSinceUpdate := timeSinceUpdate + 1;
      history := history + [bbox];
      pos := history[|history| - 1];
    }

    /** `get_state()`: the current box, with no side effect. */
    method GetState() returns (b: Box)
      ensures b == bbox
    {
      b := bbox;
    }
  }
}
