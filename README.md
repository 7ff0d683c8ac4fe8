# Optical-flow SORT tracker, modelled in Dafny

This project models the multi-object tracker of `flow.py`: a SORT-style
tracker whose objects are moved between detections by sparse optical flow
rather than by a Kalman filter. One call of `Sort.update` per frame does the following:

- predicts every tracked object from the flow correspondences that start
  inside its box on a pixel of the occupancy mask holding exactly 1;
- associates the detections with the predicted boxes by IOU and an external
  assignment solver;
- absorbs the matched detections and coasts the unmatched trackers;
- rebuilds the occupancy mask in place;
- spawns a tracker for each unmatched detection;
- reports and prunes the trackers while walking the list backwards.

The modules follow the source's layers:

- `Geometry` (`geometry.dfy`): corner-form boxes, `iou` as an exact ratio of
  integers, and the translation `predict` applies.
- `Association` (`association.dfy`): `associate_detections_to_trackers` as a
  method with the source's nested loops over an `array2<real>` IOU matrix,
  the reference function `Associate`, and the partition and threshold
  lemmas.
- `OccupancyMask` (`mask.dfy`): `mask *= 0` and
  `mask[y1:y2, x1:x2] += 1` on an `array2<int>`, with numpy's slice-bound
  normalisation, and the cover-count lemmas.
- `Tracker` (`tracker.dfy`): the class `OpticalFlowTracker`, whose methods
  update their fields in place. Beside it are the value `TrackState` and
  the functions `Spawn`, `Absorb`, `Coast` and `Predicted`, which state each
  method's effect.
- `MultiTracker` (`sort.dfy`): the class `Sort`, with the per-frame cycle
  split into methods along the source's loops and proved against the
  reference function `FrameOutcome`. Beside it are lemmas proving
  `FrameOutcome` keeps the tracker list well formed, and what it reports.

The class invariant `Sort.Valid` holds that, along the list:

- identities strictly increase and stay below the identity counter;
- every box has positive area.

The model follows four behaviours of `flow.py` as written:

- **`predict` takes the last vector, not the largest.** Its `move` stays 0,
  so it uses the displacement of the LAST eligible correspondence with
  non-zero displacement (flow.py:77-84; `ChosenVectorLast`,
  `LastNotLargest`).
- **`hokan` does not move the box.** Its first line is a comparison, so the
  box stays put and only `hit_streak` grows (flow.py:65-67).
- **The mask is rebuilt before spawning and pruning** (flow.py:223-227). It
  therefore counts the trackers of the frame after absorb or coast. It
  leaves out those spawned in the same call and still counts those pruned
  afterwards.
- **Empty association.** With no trackers or no detections, the association
  returns an empty unmatched-tracker list (flow.py:107-108).

Inputs the model takes as parameters:

- `flows`: the optical-flow correspondences (`good_old[i]`, `good_new[i]`)
  of the frame, as integer points.
- `matchedIndices`: the assignment solver's pairing for the frame's IOU
  matrix. The model assumes only in-range indices, each detection and each
  tracker used at most once (`ValidPairing`); the solver's optimality and
  its pairing of min(nd, nt) rows are not assumed.

## Model

| member | source | states |
|---|---|---|
| Geometry.Iou | flow.py:19-32 | for positive-area boxes the ratio is in [0, 1], and it is 0 exactly when the boxes share no interior point |
| Geometry.IouSymmetric | flow.py:23-32 | the IOU does not depend on the order of the two boxes |
| Geometry.IouOneIffSame | flow.py:23-32 | the IOU of two positive-area boxes is 1 exactly when they are the same box |
| Geometry.IntersectionPositiveIffOverlap | flow.py:23-29 | the clamped intersection area `wh` is positive exactly when the boxes overlap |
| Geometry.UnionPositive | flow.py:30-31 | the unguarded denominator is positive and at least the intersection for positive-area boxes |
| Geometry.Translate | flow.py:85-86 | adding `vector[i % 2]` to each coordinate shifts both corners by the vector and keeps width, height and positive area |
| Association.Range | flow.py:108 | `np.arange(n)` lists 0 .. n-1 in order |
| Association.IouMatrix | flow.py:109-113 | entry [d][t] of the matrix is the IOU of detection d and tracker t |
| Association.FillIouMatrix | flow.py:109-113 | the nested loops fill a fresh len(dets) x len(trks) array with exactly the IOU matrix |
| Association.RowsColsSpec | flow.py:118-122 | `matched_indices[:, 0]` and `[:, 1]` list the detection and tracker index of each pair, in order |
| Association.MissingMembers | flow.py:116-123 | the indices collected as unused by the solver are below n, unused and ascending, and every unused index below n is collected |
| Association.MissingSpec | flow.py:116-123 | each unused index below n is collected exactly once, and nothing else |
| Association.FilterLowIou | flow.py:125-132 | the filter loop keeps exactly the pairs reaching the threshold as matches, in solver order, and appends both sides of every rejected pair to the unmatched lists |
| Association.KeptMembers | flow.py:127-132 | every match is a solver pair, and a solver pair is a match exactly when its IOU reaches the threshold |
| Association.KeptDroppedRows | flow.py:127-132 | matches and rejections together hold each detection index exactly as often as the solver pairs do |
| Association.KeptDroppedCols | flow.py:127-132 | the same for the tracker indices |
| Association.SplitPartitions | flow.py:116-132 | distinct used indices split into kept and dropped, together with the unused ones, hold each index below n exactly once |
| Association.DetectionsPartitioned | flow.py:116-132 | matched, unused and rejected detection indices hold each detection 0 .. nd-1 exactly once and nothing else |
| Association.TrackersPartitioned | flow.py:120-132 | matched, unused and rejected tracker indices hold each tracker 0 .. nt-1 exactly once and nothing else |
| Association.Associate | flow.py:107-138 | reference definition of the association: IOU matrix, solver pairs, unused indices, threshold filter, and the early return; `AssociateCorrect` states its partition and threshold properties |
| Association.AssociateCorrect | flow.py:107-138 | every detection index occurs exactly once among matches and unmatched detections, and the same for trackers (except with detections absent and trackers present, where the list is empty); the matches are exactly the solver pairs whose IOU reaches the threshold |
| Association.AssociateDetectionsToTrackers | flow.py:102-138 | the three lists are those of `Associate`; with no trackers or no detections there are no matches, every detection 0 .. n-1 is unmatched and the unmatched-tracker list is empty |
| OccupancyMask.SliceBound | flow.py:194 | a slice bound is clamped to [0, n], a negative bound counting from the end |
| OccupancyMask.CoversInFrame | flow.py:194 | inside the frame the slice `mask[y1:y2, x1:x2]` is exactly the half-open box rows [y1, y2) x cols [x1, x2) |
| OccupancyMask.CoverCountZero | flow.py:191-194 | a cell counts 0 exactly when no box covers it |
| OccupancyMask.CoverCountOne | flow.py:191-194 | a cell counts 1 exactly when exactly one box covers it, which is what the `mask[d, c] == 1` test of `predict` relies on |
| OccupancyMask.Clear | flow.py:191 | `mask *= 0` leaves every cell at the count of no boxes |
| OccupancyMask.AddBox | flow.py:194 | `+= 1` raises exactly the cells of the box's slice by one and leaves the others |
| OccupancyMask.AddBoxCounts | flow.py:192-194 | adding one more box's slice to a counted mask counts that box too |
| Tracker.SquaredLengthPositive | flow.py:83 | the squared displacement exceeds `move` = 0 exactly when the displacement is not (0, 0) |
| Tracker.ChosenVector | flow.py:77-84 | reference definition of the vector `predict`'s loop leaves; `ChosenVectorNone` and `ChosenVectorLast` state which it is |
| Tracker.ChosenVectorNone | flow.py:77-84 | with no eligible moving correspondence the vector stays (0, 0) |
| Tracker.LastSteeringExists | flow.py:79-84 | if some correspondence is eligible and moves, a last such one exists |
| Tracker.ChosenVectorLast | flow.py:77-84 | otherwise the vector is the non-zero displacement of the last eligible moving correspondence |
| Tracker.LastNotLargest | flow.py:77-84 | on two eligible correspondences moving 5 then 1 pixel the vector is (1, 0), not the larger (5, 0) |
| Tracker.BoxByCoords | flow.py:85-86 | boxes agreeing on all four coordinates are equal |
| Tracker.OpticalFlowTracker.constructor | flow.py:42-53 | a new tracker has the given box and identity, zero counters and an empty history |
| Tracker.OpticalFlowTracker.Update | flow.py:55-63 | sets the box, resets time since update, clears history, increments hits and hit streak, keeps age and identity |
| Tracker.OpticalFlowTracker.Hokan | flow.py:65-67 | increments the hit streak and changes nothing else, the box included |
| Tracker.OpticalFlowTracker.Predict | flow.py:70-93 | shifts the box by the chosen vector, adds 1 to age and time since update, zeroes the hit streak exactly when time since update was positive, appends the new box to history and returns it |
| Tracker.OpticalFlowTracker.GetState | flow.py:95-99 | returns the current box |
| MultiTracker.ReverseSpec | flow.py:196-204 | the reversed list holds element n-1-i at position i |
| MultiTracker.ReverseMembers | flow.py:196-204 | reversing keeps exactly the members |
| MultiTracker.SurvivorsSpec | flow.py:198-204 | the kept trackers are exactly those with time since update at most `max_age`, never more than before |
| MultiTracker.ReportsOfSpec | flow.py:234-238 | a report is produced exactly for each tracker the rule admits, as its box and identity plus one |
| MultiTracker.ReportedAreConfirmed | flow.py:234-238 | every reported identity is at least 1 and comes from an admitted tracker; with detections every reported tracker has time since update 0 (it absorbed a detection this frame or was just spawned from one) and has hit streak at least `min_hits` or the frame count is at most `min_hits` |
| MultiTracker.WalkMatchesReference | flow.py:233-242 | the backward walk's reports (later trackers first) and kept trackers (list order) on a suffix are the reference ones |
| MultiTracker.ReverseWalk | flow.py:233-242 | walking the list from the back, reporting and popping, yields the survivors in list order and the reports in reverse list order |
| MultiTracker.MatchedDetection | flow.py:218 | reference definition of `matched[np.where(matched[:, 1] == t)[0], 0]`: the detection of the first match with tracker column t, or -1; `MatchedDetectionSpec` states it |
| MultiTracker.Resolved | flow.py:216-221 | reference definition of what the loop does to one tracker: absorb its matched detection's box, or coast; `PartitionResolves` and `EveryTrackerResolved` show the absorb branch is reached for every matched tracker |
| MultiTracker.MatchedDetectionSpec | flow.py:218 | with distinct tracker columns, `matched[np.where(matched[:, 1] == t)[0], 0]` finds the detection of t's match |
| MultiTracker.PartitionResolves | flow.py:216-221 | in a partitioning assignment every tracker not listed unmatched has a matched detection in range |
| MultiTracker.EveryTrackerResolved | flow.py:212-221 | the frame's association therefore resolves every tracker and lists only existing detections as unmatched |
| MultiTracker.PredictedWellFormed | flow.py:183-185 | each predicted tracker has the identity of the tracker it came from, and the list stays well formed (increasing identities below the counter, positive areas) |
| MultiTracker.AbsorbOrCoastWellFormed | flow.py:216-221 | each tracker keeps its identity through absorbing a positive-area detection or coasting, and the list stays well formed |
| MultiTracker.Spawned | flow.py:229-232 | reference definition of the spawn loop: one new tracker per unmatched detection, in order; `SpawnedWellFormed` states its identities and boxes |
| MultiTracker.SpawnedWellFormed | flow.py:230-232 | the k-th new tracker has identity counter + k and the box of the k-th unmatched detection, and the extended list is well formed below the advanced counter |
| MultiTracker.AbsorbSpawnIds | flow.py:216-232 | after absorb or coast and spawning, every tracker either has a new identity in [counter, counter + number of unmatched detections) or is the predicted tracker with its identity, coasted or having absorbed a box |
| MultiTracker.SurvivorsWellFormed | flow.py:239-242 | pruning keeps the order, hence increasing identities |
| MultiTracker.NoDetectionStepSpec | flow.py:189-207 | without detections exactly the trackers with time since update at most `max_age` survive and are reported, last tracker first |
| MultiTracker.FrameOutcome | flow.py:189-245 | reference definition of one frame after prediction: `NoDetectionStep` when the detection list is empty (the test at flow.py:189), `DetectionStep` otherwise; `FrameOutcomeInvariant` states its outcome |
| MultiTracker.NoDetectionStep | flow.py:189-207 | reference definition of the frame without detections (mask over the predicted trackers, age-rule reports last first, pruning); `NoDetectionStepSpec` states its outcome |
| MultiTracker.DetectionStep | flow.py:209-245 | reference definition of the frame with detections (association, absorb or coast, mask, spawn, confirmation-rule reports, pruning); `DetectionStepInvariant` and `ReportedAreConfirmed` state its outcome |
| MultiTracker.DetectionStepInvariant | flow.py:209-245 | with detections the trackers stay well formed, the counter advances by exactly the number of unmatched detections, every tracker either takes a new identity in [old counter, new counter) or is the predicted tracker with its identity, coasted or having absorbed a box, and no survivor has time since update above `max_age` |
| MultiTracker.FrameOutcomeInvariant | flow.py:161-245 | every frame keeps the trackers well formed and leaves no tracker older than `max_age` since its last update; every tracker either takes a new identity at or above the old counter or is the predicted tracker with its identity (unchanged, coasted or having absorbed a box), so no identity passes to a different object; without detections the counter does not move |
| MultiTracker.Sort.constructor | flow.py:142-149 | stores `max_age` and `min_hits` (defaults 100 and 3), with no trackers, frame count 0 and counter 0 |
| MultiTracker.Sort.PredictAll | flow.py:180-188 | every tracker is predicted in place and `trks` lists the predicted boxes |
| MultiTracker.Sort.RebuildMask | flow.py:223-227 | after reset and accumulation every cell holds the number of trackers whose slice covers it |
| MultiTracker.Sort.AbsorbOrCoastAll | flow.py:215-221 | each matched tracker absorbs its detection's box and each unmatched one coasts, keeping the invariant |
| MultiTracker.Sort.SpawnAll | flow.py:229-232 | one tracker per unmatched detection is appended, in order, with consecutive identities, and the counter advances by their number |
| MultiTracker.Sort.ReportAndPrune | flow.py:233-242 | the list becomes the survivors and the result is the admitted reports in reverse list order |
| MultiTracker.Sort.Update | flow.py:161-245 | the frame count grows by 1, and the mask, the tracker list, the reports and the counter are exactly `FrameOutcome` of the predicted trackers |
| MultiTracker.Sort.CountAndFinish | flow.py:169-245 | the frame count grows by 1 and the rest of the frame follows `FrameOutcome` of the given predicted trackers and the counter |
| MultiTracker.Sort.FinishFrame | flow.py:189-245 | the rest of the frame after prediction follows `FrameOutcome` |
| MultiTracker.Sort.UpdateWithoutDetections | flow.py:189-207 | without detections the mask counts the predicted trackers and the list and reports follow the age rule |
| MultiTracker.Sort.UpdateWithDetections | flow.py:209-245 | with detections the mask, list, reports and counter follow `DetectionStep` |
| MultiTracker.Sort.AssociateAndResolve | flow.py:212-227 | associate and absorb or coast, then count the resulting boxes in the mask, listing only existing detections as unmatched |
| MultiTracker.Sort.SpawnAndReport | flow.py:229-245 | spawn for the unmatched detections, then the list becomes the survivors of all and the reports follow the confirmation rule |

## Left out

- OpenCV feature detection and Lucas-Kanade optical flow (flow.py:151-159, 172-177) are foreign calls. Their result enters as `flows`, and the feature parameters are not modelled.
- The `sklearn` `linear_assignment` solver (flow.py:114) is an external optimiser. Its pairing enters as `matchedIndices`; its optimality is not modelled, only the guarantees of `ValidPairing`.
- NaN filtering (flow.py:186-187, 209-211) cannot trigger with integer coordinates, so the `to_del` pops are left out.
- `float32` storage of the IOU matrix and the `int()` truncation of flow points are not modelled: coordinates are integers and the IOU is an exact real.
- Geometry.Translate: box coordinates are unbounded integers. The caller's detections are a `uint16` array (test.py:25) and `bbox` is a view into it, so a coordinate moved below 0 by `predict` (flow.py:86) would wrap to a large value and the box could lose its positive area; the model lets it go negative and keeps the area.
- The caller's mask dtype is not modelled. Cells are unbounded integers, so a `uint8` wrap at 256 is not captured.
- numpy view aliasing is not modelled. `bbox[:4]` views the detection row, `predict` mutates it in place, and `history` holds the same reference; boxes are values here.
- The class-level `OpticalFlowTracker.count` is the field `Sort.count`. The tracker constructor takes the identity and the manager advances the counter.
- The `dets == []` comparison (flow.py:189) is read as "the detection sequence is empty". For a non-list empty array the source would go on to association; that path is not modelled.
- `Sort.update`'s returned mask is the same array it updates in place: the model updates `mask` and returns only the reports. An empty result is the empty sequence, whether the source returns `[]` or `np.empty((0, 5))`.
- Detection rows carry a score the tracker never reads. Boxes must have positive area, because `iou` divides by the union without a guard.
- `FlowsInFrame` requires every flow start point to be a pixel of the frame. The points come from `goodFeaturesToTrack` on `old_gray` (flow.py:173-177), which has the mask's shape, so they are pixels of it; `predict` reads the mask only at points inside the box (flow.py:82).
- MultiTracker.Resolved: a tracker neither matched nor listed unmatched would make the source raise an index error. The model coasts it instead; `EveryTrackerResolved` shows this never happens with a valid pairing.
- MultiTracker.ReverseWalk: it pops from a local copy of the list, which then replaces the field, where the source pops from `self.trackers` in place. The resulting list and reports are the same.
- Sort.update is one method in the source. Here it is split into helper methods along its loops, and the two report rules are one datatype `ReportRule`.
- test.py (video capture, `input()`, printing, the driver loop) is I/O, and the unused imports are not part of this model.
