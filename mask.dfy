/** The occupancy mask: a rows x cols grid of counters that the tracker
    manager resets and then raises by one over every tracker's box. */
module OccupancyMask {
  import opened Geometry

  /** How numpy normalises a slice bound i on an axis of length n: a negative
      bound counts from the end, and the result is clamped to [0, n]. */
  function SliceBound(i: int, n: nat): (r: int)
    ensures 0 <= r <= n
    ensures 0 <= i <= n ==> r == i
    ensures i + n < 0 ==> r == 0
    ensures i < 0 <= i + n ==> r == i + n
    ensures n < i ==> r == n
  {
    if i < 0 then (if i + n < 0 then 0 else i + n) else if i > n then n else i
  }

  /** Cell (r, c) lies in the slice `mask[b.y1:b.y2, b.x1:b.x2]` of a
      rows x cols mask: rows are y, columns are x, upper bounds excluded. */
  predicate Covers(b: Box, r: int, c: int, rows: nat, cols: nat)
  {
    && SliceBound(b.y1, rows) <= r < SliceBound(b.y2, rows)
    && SliceBound(b.x1, cols) <= c < SliceBound(b.x2, cols)
  }

  /** Inside the frame the slice is exactly the half-open box. */
  lemma CoversInFrame(b: Box, r: int, c: int, rows: nat, cols: nat)
    requires 0 <= b.x1 <= b.x2 <= cols && 0 <= b.y1 <= b.y2 <= rows
    ensures Covers(b, r, c, rows, cols) <==> b.y1 <= r < b.y2 && b.x1 <= c < b.x2
  {
  }

  /** The number of boxes whose slice holds cell (r, c). */
  function CoverCount(boxes: seq<Box>, r: int, c: int, rows: nat, cols: nat): nat
  {
    if |boxes| == 0 then 0
    else CoverCount(boxes[..|boxes| - 1], r, c, rows, cols) + (if Covers(boxes[|boxes| - 1], r, c, rows, cols) then 1 else 0)
  }

  /** A cell counts zero exactly when no box covers it. */
  lemma {:induction false} CoverCountZero(boxes: seq<Box>, r: int, c: int, rows: nat, cols: nat)
    ensures CoverCount(boxes, r, c, rows, cols) == 0 <==> forall i :: 0 <= i < |boxes| ==> !Covers(boxes[i], r, c, rows, cols)
  {
    if |boxes| > 0 {
      var init := boxes[..|boxes| - 1];
      CoverCountZero(init, r, c, rows, cols);
      assert forall i :: 0 <= i < |init| ==> init[i] == boxes[i];
    }
  }

  /** Box i is the only one of the boxes whose slice holds cell (r, c). */
  predicate SoleCover(boxes: seq<Box>, i: int, r: int, c: int, rows: nat, cols: nat)
  {
    && 0 <= i < |boxes| && Covers(boxes[i], r, c, rows, cols)
    && forall j :: 0 <= j < |boxes| && j != i ==> !Covers(boxes[j], r, c, rows, cols)
  }

  /** A cell counts one exactly when a single box covers it: this is what the
      `mask[y, x] == 1` test of the flow prediction relies on. */
  lemma {:induction false} CoverCountOne(boxes: seq<Box>, r: int, c: int, rows: nat, cols: nat)
    ensures CoverCount(boxes, r, c, rows, cols) == 1 <==> exists i :: SoleCover(boxes, i, r, c, rows, cols)
  {
    if |boxes| > 0 {
      var n := |boxes| - 1;
      var init := boxes[..n];
      assert forall i :: 0 <= i < n ==> init[i] == boxes[i];
      if Covers(boxes[n], r, c, rows, cols) {
        CoverCountZero(init, r, c, rows, cols);
        if CoverCount(boxes, r, c, rows, cols) == 1 {
          assert SoleCover(boxes, n, r, c, rows, cols);
        }
        if i :| SoleCover(boxes, i, r, c, rows, cols) {
          assert i == n;
        }
      } else {
        CoverCountOne(init, r, c, rows, cols);
        if i :| SoleCover(init, i, r, c, rows, cols) {
          assert SoleCover(boxes, i, r, c, rows, cols);
        }
        if i :| SoleCover(boxes, i, r, c, rows, cols) {
          assert SoleCover(init, i, r, c, rows, cols);
        }
      }
    }
  }

  /** Every cell of the mask holds the cover count of the boxes. */
  ghost predicate Counts(mask: array2<int>, boxes: seq<Box>)
    reads mask
  {
    forall r, c :: 0 <= r < mask.Length0 && 0 <= c < mask.Length1 ==>
      mask[r, c] == CoverCount(boxes, r, c, mask.Length0, mask.Length1)
  }

  /** `mask *= 0`. */
  method Clear(mask: array2<int>)
    modifies mask
    ensures Counts(mask, [])
  {
    forall r, c | 0 <= r < mask.Length0 && 0 <= c < mask.Length1 {
      mask[r, c] := 0;
    }
  }

  /** `mask[b.y1:b.y2, b.x1:b.x2] += 1`. */
  method AddBox(mask: array2<int>, b: Box)
    modifies mask
    ensures forall r, c :: 0 <= r < mask.Length0 && 0 <= c < mask.Length1 ==>
              mask[r, c] == old(mask[r, c]) + (if Covers(b, r, c, mask.Length0, mask.Length1) then 1 else 0)
  {
    forall r, c | 0 <= r < mask.Length0 && 0 <= c < mask.Length1 && Covers(b, r, c, mask.Length0, mask.Length1) {
      mask[r, c] := mask[r, c] + 1;
    }
  }

  /** Adding one more box to a counted mask counts it too. */
  lemma AddBoxCounts(boxes: seq<Box>, b: Box, r: int, c: int, rows: nat, cols: nat)
    ensures CoverCount(boxes + [b], r, c, rows, cols)
            == CoverCount(boxes, r, c, rows, cols) + (if Covers(b, r, c, rows, cols) then 1 else 0)
  {
    assert (boxes + [b])[..|boxes|] == boxes;
  }
}
