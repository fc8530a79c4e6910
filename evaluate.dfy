/** The exercise evaluator: dispatch by exercise name and the bicep-curl
    routine (side selection, joint filtering, feature summary and the
    threshold classification with its cumulative feedback).

    The per-frame angle geometry is not modelled: the upper-arm/torso and
    upper-arm/forearm angle of a retained frame are given as the functions
    `torsoAngle` and `forearmAngle`. A filtered sequence with no usable
    frame yields the explicit outcome `InsufficientData`. */
module Evaluate {
  import opened PoseData

  /** The one exercise name the dispatcher recognises. */
  const BicepCurlName: string := "bicep_curl"

  /** Largest accepted spread of the upper-arm/torso angle, in degrees. */
  const TorsoRangeLimit: real := 35.0

  /** Largest accepted minimum of the upper-arm/forearm angle, in degrees. */
  const ForearmMinLimit: real := 70.0

  const NotRecognizedMessage: string := "Exercise String Not Recognized!!!"

  const RotationMessage: string :=
    "Your upper arm shows Significant Rotation around the shoulder when curling. Try holding your upper arm still, parallel to your chest, "
    + "and concentrate on rotating around your elbow only.\n"

  const CurlMessage: string :=
    "You are Not Curling the weight all the way to the Top, up to your shoulders. Try to curl your arm completely so that your forearm is parallel with your torso. It may help to use lighter weight.\n"

  const SuccessMessage: string :=
    "Exercise performed Correctly!!! Weight was lifted fully up, and upper arm did not move significantly!!!"

  /** The pair the evaluator returns: whether the exercise was performed
      correctly, and the feedback text. */
  datatype Verdict = Verdict(correct: bool, feedback: string)

  /** A verdict, or the report that no frame had all five joints of the
      chosen side. */
  datatype Outcome = Judged(verdict: Verdict) | InsufficientData

  // ---------------------------------------------------------------------
  // Side selection

  /** Number of frames in which the shoulder, elbow and wrist of side `s`
      are all detected. */
  function ArmCount(poses: seq<Pose>, s: Side): (n: nat)
    ensures n <= |poses|
  {
    if poses == [] then 0
    else ArmCount(poses[..|poses| - 1], s) + (if ArmPresent(poses[|poses| - 1], s) then 1 else 0)
  }

  /** The indices of the frames in which the arm of side `s` is complete. */
  ghost function ArmFrames(poses: seq<Pose>, s: Side): set<int>
  {
    set i | 0 <= i < |poses| && ArmPresent(poses[i], s)
  }

  /** The count is exactly the number of frames with a complete arm. */
  lemma {:induction false} ArmCountIsFrameCount(poses: seq<Pose>, s: Side)
    ensures ArmCount(poses, s) == |ArmFrames(poses, s)|
  {
    if poses == [] {
      assert ArmFrames(poses, s) == {};
    } else {
      var n := |poses| - 1;
      var prefix := poses[..n];
      ArmCountIsFrameCount(prefix, s);
      if ArmPresent(poses[n], s) {
        assert ArmFrames(poses, s) == ArmFrames(prefix, s) + {n};
      } else {
        assert ArmFrames(poses, s) == ArmFrames(prefix, s);
      }
    }
  }

  /** The arm seen complete in more frames; ties go to the left arm. */
  function ChooseSide(poses: seq<Pose>): (s: Side)
    ensures ArmCount(poses, s) >= ArmCount(poses, Right) && ArmCount(poses, s) >= ArmCount(poses, Left)
    ensures s == Right ==> ArmCount(poses, Right) > ArmCount(poses, Left)
  {
    if ArmCount(poses, Right) > ArmCount(poses, Left) then Right else Left
  }

  /** The right arm is chosen exactly when it is complete in strictly more
      frames than the left arm; equal numbers choose the left arm. */
  lemma ChooseSideMajority(poses: seq<Pose>)
    ensures ChooseSide(poses) == Right <==> |ArmFrames(poses, Right)| > |ArmFrames(poses, Left)|
    ensures |ArmFrames(poses, Right)| == |ArmFrames(poses, Left)| ==> ChooseSide(poses) == Left
  {
    ArmCountIsFrameCount(poses, Right);
    ArmCountIsFrameCount(poses, Left);
  }

  // ---------------------------------------------------------------------
  // Joint extraction and filtering

  /** One joint tuple of side `s` per frame, in frame order. */
  function SideTuples(poses: seq<Pose>, s: Side): (ts: seq<JointTuple>)
    ensures |ts| == |poses|
    ensures forall i :: 0 <= i < |poses| ==> ts[i] == Extract(poses[i], s)
  {
    if poses == [] then []
    else SideTuples(poses[..|poses| - 1], s) + [Extract(poses[|poses| - 1], s)]
  }

  /** The tuples whose five parts are all detected, in their original order. */
  function KeepComplete(ts: seq<JointTuple>): (kept: seq<JointTuple>)
    ensures |kept| <= |ts|
    ensures forall k :: 0 <= k < |kept| ==> AllPresent(kept[k])
  {
    if ts == [] then []
    else
      var n := |ts| - 1;
      KeepComplete(ts[..n]) + (if AllPresent(ts[n]) then [ts[n]] else [])
  }

  /** The positions in `ts` that `KeepComplete` keeps: strictly increasing,
      so the result is an order-preserving subsequence of `ts`, and
      containing every position whose tuple is complete, so no complete
      frame is dropped. */
  ghost function KeptIndices(ts: seq<JointTuple>): (idx: seq<nat>)
    ensures |idx| == |KeepComplete(ts)|
    ensures forall k :: 0 <= k < |idx| ==> idx[k] < |ts| && KeepComplete(ts)[k] == ts[idx[k]]
    ensures forall k, l :: 0 <= k < l < |idx| ==> idx[k] < idx[l]
    ensures forall i :: 0 <= i < |ts| && AllPresent(ts[i]) ==> i in idx
  {
    if ts == [] then []
    else
      var n := |ts| - 1;
      KeptIndices(ts[..n]) + (if AllPresent(ts[n]) then [n] else [])
  }

  /** When every tuple is complete, filtering keeps them all. */
  lemma {:induction false} KeepCompleteKeepsAll(ts: seq<JointTuple>)
    requires forall i :: 0 <= i < |ts| ==> AllPresent(ts[i])
    ensures KeepComplete(ts) == ts
  {
    if ts != [] {
      var n := |ts| - 1;
      KeepCompleteKeepsAll(ts[..n]);
      assert ts[..n] + [ts[n]] == ts;
    }
  }

  /** When no tuple is complete, filtering keeps none. */
  lemma KeepCompleteKeepsNone(ts: seq<JointTuple>)
    requires forall i :: 0 <= i < |ts| ==> !AllPresent(ts[i])
    ensures KeepComplete(ts) == []
  {
  }

  /** Every complete tuple of side `s` has the side's arm complete, so
      filtering keeps at most as many frames as voted for that side. */
  lemma {:induction false} UsableFramesWithinArmCount(poses: seq<Pose>, s: Side)
    ensures |KeepComplete(SideTuples(poses, s))| <= ArmCount(poses, s)
  {
    if poses != [] {
      var n := |poses| - 1;
      var prefix := poses[..n];
      UsableFramesWithinArmCount(prefix, s);
      var ts := SideTuples(poses, s);
      assert ts[..n] == SideTuples(prefix, s);
    }
  }

  /** The frames of side `s` with all five joints detected, in frame order:
      each is complete, and there are no more of them than frames in which
      the side's arm is complete. */
  function UsableFrames(poses: seq<Pose>, s: Side): (frames: seq<JointTuple>)
    ensures |frames| <= ArmCount(poses, s) <= |poses|
    ensures forall k :: 0 <= k < |frames| ==> AllPresent(frames[k])
  {
    UsableFramesWithinArmCount(poses, s);
    KeepComplete(SideTuples(poses, s))
  }

  // ---------------------------------------------------------------------
  // Feature summary

  /** The largest element of a non-empty series. */
  function MaxOf(a: seq<real>): (m: real)
    requires |a| > 0
    ensures m in a
    ensures forall i :: 0 <= i < |a| ==> a[i] <= m
  {
    if |a| == 1 then a[0]
    else
      var rest := MaxOf(a[1..]);
      if a[0] >= rest then a[0] else rest
  }

  /** The smallest element of a non-empty series. */
  function MinOf(a: seq<real>): (m: real)
    requires |a| > 0
    ensures m in a
    ensures forall i :: 0 <= i < |a| ==> m <= a[i]
  {
    if |a| == 1 then a[0]
    else
      var rest := MinOf(a[1..]);
      if a[0] <= rest then a[0] else rest
  }

  /** Maximum minus minimum of a non-empty series: the largest difference
      between two of its elements, hence never negative. */
  function Spread(a: seq<real>): (r: real)
    requires |a| > 0
    ensures r >= 0.0
    ensures forall i, j :: 0 <= i < |a| && 0 <= j < |a| ==> a[i] - a[j] <= r
    ensures exists i, j :: 0 <= i < |a| && 0 <= j < |a| && a[i] - a[j] == r
  {
    MaxOf(a) - MinOf(a)
  }

  /** The spread is within a bound exactly when every pairwise difference is. */
  lemma SpreadAtMost(a: seq<real>, bound: real)
    requires |a| > 0
    ensures Spread(a) <= bound <==> forall i, j :: 0 <= i < |a| && 0 <= j < |a| ==> a[i] - a[j] <= bound
  {
  }

  /** The minimum is within a bound exactly when some element is. */
  lemma MinAtMost(a: seq<real>, bound: real)
    requires |a| > 0
    ensures MinOf(a) <= bound <==> exists i :: 0 <= i < |a| && a[i] <= bound
  {
  }

  /** One angle per retained frame, in frame order. */
  function AngleSeries(frames: seq<JointTuple>, angle: JointTuple -> real): (a: seq<real>)
    ensures |a| == |frames|
    ensures forall i :: 0 <= i < |frames| ==> a[i] == angle(frames[i])
  {
    seq(|frames|, i requires 0 <= i < |frames| => angle(frames[i]))
  }

  // ---------------------------------------------------------------------
  // Classification and feedback

  /** The verdict for the two summary features: each threshold is checked
      on its own with a strict comparison, and the messages of the checks
      that fire are concatenated, rotation first. */
  function Classification(torsoRange: real, forearmMin: real): (v: Verdict)
    ensures v.correct <==> torsoRange <= TorsoRangeLimit && forearmMin <= ForearmMinLimit
    ensures v.correct ==> v.feedback == SuccessMessage
    ensures |v.feedback| > 0
  {
    var rotated, uncurled := torsoRange > TorsoRangeLimit, forearmMin > ForearmMinLimit;
    if !rotated && !uncurled then Verdict(true, SuccessMessage)
    else if rotated && !uncurled then Verdict(false, RotationMessage)
    else if !rotated && uncurled then Verdict(false, CurlMessage)
    else Verdict(false, RotationMessage + CurlMessage)
  }

  /** `a` is a suffix of `b`. */
  predicate IsSuffix(a: string, b: string)
  {
    |a| <= |b| && b[|b| - |a|..] == a
  }

  /** The feedback begins with the rotation message exactly when the torso
      check fires, ends with the incomplete-curl message exactly when the
      forearm check fires, is both, in that order, when both fire, and is
      only the one message when exactly one fires. */
  lemma ClassificationFeedback(torsoRange: real, forearmMin: real)
    ensures RotationMessage <= Classification(torsoRange, forearmMin).feedback <==> torsoRange > TorsoRangeLimit
    ensures IsSuffix(CurlMessage, Classification(torsoRange, forearmMin).feedback) <==> forearmMin > ForearmMinLimit
    ensures torsoRange > TorsoRangeLimit && forearmMin > ForearmMinLimit ==>
              Classification(torsoRange, forearmMin).feedback == RotationMessage + CurlMessage
    ensures torsoRange > TorsoRangeLimit && forearmMin <= ForearmMinLimit ==>
              Classification(torsoRange, forearmMin).feedback == RotationMessage
    ensures torsoRange <= TorsoRangeLimit && forearmMin > ForearmMinLimit ==>
              Classification(torsoRange, forearmMin).feedback == CurlMessage
  {
    var f := Classification(torsoRange, forearmMin).feedback;
    // The rotation message is not a prefix of the incomplete-curl message:
    // they differ at the rotation message's final newline.
    assert RotationMessage[|RotationMessage| - 1] != CurlMessage[|RotationMessage| - 1];
    assert |SuccessMessage| < |RotationMessage| < |CurlMessage|;
    assert CurlMessage[|CurlMessage| - 1] != SuccessMessage[|SuccessMessage| - 1];
    if torsoRange > TorsoRangeLimit && forearmMin > ForearmMinLimit {
      assert f[|f| - |CurlMessage|..] == CurlMessage;
    }
  }

  /** The classification step as the evaluator performs it: start from a
      correct verdict with empty feedback, let each failing check clear
      the verdict and append its message, and replace the feedback by the
      success message when no check failed. */
  method Classify(torsoRange: real, forearmMin: real) returns (correct: bool, feedback: string)
    ensures Verdict(correct, feedback) == Classification(torsoRange, forearmMin)
  {
    correct := true;
    feedback := "";
    if torsoRange > TorsoRangeLimit {
      correct := false;
      feedback := feedback + RotationMessage;
      assert feedback == RotationMessage;
    }
    if forearmMin > ForearmMinLimit {
      correct := false;
      feedback := feedback + CurlMessage;
    }
    if correct {
      feedback := SuccessMessage;
    }
  }

  /** Over the retained frames, the classification is correct exactly when
      no two frames' torso angles differ by more than the range limit and
      some frame's forearm angle reaches the minimum limit. */
  lemma SeriesVerdict(frames: seq<JointTuple>, torsoAngle: JointTuple -> real, forearmAngle: JointTuple -> real)
    requires |frames| > 0
    ensures Classification(Spread(AngleSeries(frames, torsoAngle)), MinOf(AngleSeries(frames, forearmAngle))).correct <==>
              (forall i, j :: 0 <= i < |frames| && 0 <= j < |frames| ==>
                 torsoAngle(frames[i]) - torsoAngle(frames[j]) <= TorsoRangeLimit)
              && (exists i :: 0 <= i < |frames| && forearmAngle(frames[i]) <= ForearmMinLimit)
  {
    SpreadAtMost(AngleSeries(frames, torsoAngle), TorsoRangeLimit);
    MinAtMost(AngleSeries(frames, forearmAngle), ForearmMinLimit);
  }

  // ---------------------------------------------------------------------
  // The bicep-curl routine and the dispatcher

  /** Evaluates a bicep curl: choose the arm, keep the frames with all five
      joints of that side, summarise the two angle series and classify. */
  function BicepCurl(poses: seq<Pose>, torsoAngle: JointTuple -> real, forearmAngle: JointTuple -> real): (r: Outcome)
    ensures r.InsufficientData? <==> UsableFrames(poses, ChooseSide(poses)) == []
    ensures r.Judged? ==>
              var frames := UsableFrames(poses, ChooseSide(poses));
              (r.verdict.correct <==>
                 (forall i, j :: 0 <= i < |frames| && 0 <= j < |frames| ==>
                    torsoAngle(frames[i]) - torsoAngle(frames[j]) <= TorsoRangeLimit)
                 && (exists i :: 0 <= i < |frames| && forearmAngle(frames[i]) <= ForearmMinLimit))
    ensures r.Judged? ==> |r.verdict.feedback| > 0
  {
    var frames := UsableFrames(poses, ChooseSide(poses));
    if frames == [] then InsufficientData
    else
      var torso := AngleSeries(frames, torsoAngle);
      var forearm := AngleSeries(frames, forearmAngle);
      SeriesVerdict(frames, torsoAngle, forearmAngle);
      Judged(Classification(Spread(torso), MinOf(forearm)))
  }

  /** Evaluates `poses` as an attempt at `exercise`. */
  function EvaluatePose(poses: seq<Pose>, exercise: string,
                        torsoAngle: JointTuple -> real, forearmAngle: JointTuple -> real): (r: Outcome)
    ensures exercise != BicepCurlName ==> r == Judged(Verdict(false, NotRecognizedMessage))
    ensures r.InsufficientData? ==> exercise == BicepCurlName
    ensures r.Judged? ==> |r.verdict.feedback| > 0
  {
    if exercise == BicepCurlName then BicepCurl(poses, torsoAngle, forearmAngle)
    else Judged(Verdict(false, NotRecognizedMessage))
  }

  /** A sequence in which no frame has all five joints of either side
      yields `InsufficientData` for the bicep curl. */
  lemma NoCompleteFrameIsInsufficientData(poses: seq<Pose>,
                                          torsoAngle: JointTuple -> real, forearmAngle: JointTuple -> real)
    requires forall i, s :: 0 <= i < |poses| ==> !AllPresent(Extract(poses[i], s))
    ensures EvaluatePose(poses, BicepCurlName, torsoAngle, forearmAngle) == InsufficientData
  {
    KeepCompleteKeepsNone(SideTuples(poses, ChooseSide(poses)));
  }

  /** When the right arm is complete in every frame and the left arm in
      none, the right side is chosen. */
  lemma RightArmOnlyIsChosen(poses: seq<Pose>)
    requires |poses| > 0
    requires forall i :: 0 <= i < |poses| ==> ArmPresent(poses[i], Right) && !ArmPresent(poses[i], Left)
    ensures ChooseSide(poses) == Right
  {
    ChooseSideMajority(poses);
    assert ArmFrames(poses, Left) == {};
    assert 0 in ArmFrames(poses, Right);
  }

  /** When all five joints of side `s` are detected in every frame, every
      frame is used, in order. */
  lemma CompleteSideUsesEveryFrame(poses: seq<Pose>, s: Side)
    requires forall i :: 0 <= i < |poses| ==> AllPresent(Extract(poses[i], s))
    ensures UsableFrames(poses, s) == SideTuples(poses, s)
  {
    KeepCompleteKeepsAll(SideTuples(poses, s));
  }
}
