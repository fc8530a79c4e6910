# Bicep-curl pose evaluator

A Dafny model of the exercise evaluator in `evaluate.py`. The evaluator takes a
sequence of poses, each with named 2D joints that are either detected or not,
and the name of an exercise. It returns whether the exercise was performed
correctly, together with a feedback text.

One exercise is implemented, the bicep curl. The routine works in five steps:

1. **Side selection.** Count the frames in which the right shoulder, elbow and
   wrist are all detected, and do the same for the left arm. Choose the right
   arm only if its count is strictly greater; ties go to the left arm.
2. **Joint extraction.** Build one tuple per frame for the chosen side:
   shoulder, elbow, wrist, hip and the shared neck.
3. **Filtering.** Drop every tuple in which one of the five joints is not
   detected.
4. **Summary.** Compute the range (maximum minus minimum) of the
   upper-arm/torso angle series, and the minimum of the upper-arm/forearm
   angle series.
5. **Classification.** Apply two independent strict thresholds, 35.0 and
   70.0 degrees. Each check that fires appends its message, rotation first.
   When neither fires, a fixed success message is returned.

Any other exercise name yields `(false, "Exercise String Not Recognized!!!")`.

Files:

- `pose.dfy`, module `PoseData`: the fields of the pose records that the
  evaluator reads (`Joint`, `Pose`), the `Side`, the per-frame `JointTuple`,
  and the per-frame predicates `ArmPresent` and `AllPresent`. A joint's
  detection flag, `exists` in the source, is the field `present`, because
  `exists` is a Dafny keyword.
- `evaluate.dfy`, module `Evaluate`: counting, side choice, extraction and
  filtering, the min/max summary, classification, and dispatch.

Modelling choices:

- **Angle geometry.** The per-frame angles are computed with vector
  normalisation, dot products, `arccos`, clipping and a conversion to degrees.
  The model does not compute them. Instead, the two angle computations are
  parameters of type `JointTuple -> real`, and angles are `real`.
- **Empty filtered sequence.** When no frame survives filtering, the source
  raises an exception at evaluate.py:53, where the norm is taken along an axis
  that an empty array lacks; the reductions at evaluate.py:61-62 would raise
  too. The model returns the explicit
  outcome `InsufficientData` instead. `BicepCurl` states that this outcome
  occurs exactly when the filtered sequence is empty.
- **Recursion direction.** Counting and filtering recurse on the last frame of
  the sequence, so that each prefix keeps its frame indices. The result is the
  same as the source's front-to-back comprehensions.
- **Two forms of classification.** The classification tail updates local
  variables step by step, and `Classify` mirrors that as a method. It is proved
  equal to the function `Classification`, which the pure pipeline
  (`BicepCurl`) uses.

## Model

| member | source | states |
|---|---|---|
| Evaluate.EvaluatePose | evaluate.py:17-23 | every name other than `bicep_curl` yields `(false, "Exercise String Not Recognized!!!")`, whatever the poses; `InsufficientData` arises only for `bicep_curl`; any verdict carries non-empty feedback |
| Evaluate.ArmCount | evaluate.py:30-35 | the number of frames with a complete arm never exceeds the number of frames |
| Evaluate.ArmCountIsFrameCount | evaluate.py:30-35 | the count equals the number of frame indices whose shoulder, elbow and wrist of that side are all detected |
| Evaluate.ChooseSideMajority | evaluate.py:30-36 | the right arm is chosen if and only if it is complete in strictly more frames than the left arm; equal numbers choose the left arm |
| Evaluate.ChooseSide | evaluate.py:36 | the chosen side's count is at least the other side's, and the right side is chosen only with a strictly greater count |
| PoseData.ArmPresent | evaluate.py:31-33 | a frame votes for a side exactly when that side's shoulder, elbow and wrist are all detected |
| Evaluate.RightArmOnlyIsChosen | evaluate.py:30-36 | if the right arm is complete in every frame and the left arm in none, the right side is chosen |
| Evaluate.SideTuples | evaluate.py:40-43 | one tuple per frame, in frame order; tuple i holds the chosen side's shoulder, elbow, wrist and hip of frame i, plus the neck |
| PoseData.Extract | evaluate.py:41-43 | the tuple carries the frame's neck; its shoulder, elbow and wrist are all detected exactly when the frame votes for that side; it is complete exactly when the frame votes for the side and the side's hip and the neck are detected |
| PoseData.AllPresent | evaluate.py:46 | a tuple is kept exactly when all five of its joints are detected |
| Evaluate.KeepComplete | evaluate.py:46 | the filtered list is no longer than its input, and every kept tuple has all five joints detected |
| Evaluate.KeptIndices | evaluate.py:46 | the kept tuples are the input's tuples at strictly increasing positions (an order-preserving subsequence), and every position whose tuple is complete is among them (no complete frame is dropped) |
| Evaluate.KeepCompleteKeepsAll | evaluate.py:46 | if every tuple is complete, filtering returns the input unchanged |
| Evaluate.KeepCompleteKeepsNone | evaluate.py:46 | if no tuple is complete, filtering returns the empty list |
| Evaluate.CompleteSideUsesEveryFrame | evaluate.py:40-46 | if all five joints of the side are detected in every frame, every frame's tuple is used, in order |
| Evaluate.UsableFramesWithinArmCount | evaluate.py:30-46 | filtering a side's tuples keeps at most as many frames as voted for that side |
| Evaluate.UsableFrames | evaluate.py:40-46 | every usable frame has all five joints detected, and there are no more usable frames than frames that voted for the side, nor than poses |
| Evaluate.MaxOf | evaluate.py:61 | the maximum of a non-empty series is one of its elements and at least every element |
| Evaluate.MinOf | evaluate.py:61-62 | the minimum of a non-empty series is one of its elements and at most every element |
| Evaluate.Spread | evaluate.py:61 | max minus min is non-negative, bounds every pairwise difference, and equals one of them |
| Evaluate.SpreadAtMost | evaluate.py:61-70 | the range is within a bound if and only if every pairwise difference is |
| Evaluate.MinAtMost | evaluate.py:62-75 | the minimum is within a bound if and only if some element is |
| Evaluate.AngleSeries | evaluate.py:57-58 | one angle per retained frame, in frame order, given by the per-frame angle computation |
| Evaluate.Classification | evaluate.py:67-82 | the verdict is correct if and only if the range is at most 35.0 and the minimum is at most 70.0, so 35.0 and 70.0 themselves pass; a correct verdict carries the success message; feedback is never empty |
| Evaluate.ClassificationFeedback | evaluate.py:70-82 | the feedback starts with the rotation message if and only if the range exceeds 35.0, and ends with the incomplete-curl message if and only if the minimum exceeds 70.0; when both fire it is exactly the rotation message followed by the incomplete-curl message; when exactly one fires it is exactly that one message |
| Evaluate.Classify | evaluate.py:67-82 | the step-by-step update of `correct` and `feedback` produces exactly the verdict `Classification` defines |
| Evaluate.SeriesVerdict | evaluate.py:57-79 | over the retained frames, the verdict is correct if and only if no two torso angles differ by more than 35.0 and some forearm angle is at most 70.0 |
| Evaluate.BicepCurl | evaluate.py:26-82 | the outcome is `InsufficientData` exactly when no frame of the chosen side survives filtering; otherwise it is correct if and only if no two torso angles of the retained frames differ by more than 35.0 and some forearm angle is at most 70.0, with non-empty feedback |
| Evaluate.NoCompleteFrameIsInsufficientData | evaluate.py:40-62 | a sequence in which no frame has all five joints of either side evaluates to `InsufficientData` |

## Left out

- Angle geometry: vector differences, normalisation, dot products, `arccos`, clipping to [-1, 1] and conversion to degrees are floating-point numerics. They are given as the parameters `torsoAngle` and `forearmAngle`, so the 0–180 degree bound of the angles is not modelled.
- Floating-point special values and rounding: a zero-length vector gives NaN in the source, and NaN comparisons are false. Angles here are exact reals, so NaN is not modelled. Neither is rounding: the range at evaluate.py:61 is a double subtraction that can round onto 35.0 and pass, where the exact difference exceeds 35.0 and fails here. The same applies at the 70.0 boundary.
- Empty filtered sequence: the source raises at evaluate.py:53, and would at evaluate.py:61-62. The model returns `InsufficientData`, as described above.
- The diagnostic `print` calls and the unused `os` import are I/O with no effect on the result.
- The pose and pose-sequence classes come from a module that is not part of this model. Only the fields the evaluator reads are modelled: the poses, the nine named joints, and each joint's `x`, `y` and detection flag.
- Calling the evaluator twice on the same input gives the same result. This holds because every member is a function of its arguments, so no separate lemma states it.
