/** The fields of the pose-estimation records that the evaluator reads.
    The pose classes themselves belong to an upstream module; only the
    named joints and each joint's position and detection flag are modelled. */
module PoseData {

  /** One joint observation: a 2D position and whether the joint was
      detected in this frame (the source's `exists` flag). */
  datatype Joint = Joint(x: real, y: real, present: bool)

  /** One sampled instant: the named joints the evaluator consults. */
  datatype Pose = Pose(
    rshoulder: Joint, relbow: Joint, rwrist: Joint, rhip: Joint,
    lshoulder: Joint, lelbow: Joint, lwrist: Joint, lhip: Joint,
    neck: Joint)

  /** The arm whose data the bicep-curl evaluation uses. */
  datatype Side = Left | Right

  /** The per-frame joints of one side, in the order
      (shoulder, elbow, wrist, hip, neck). */
  datatype JointTuple = JointTuple(shoulder: Joint, elbow: Joint, wrist: Joint, hip: Joint, neck: Joint)

  /** The shoulder, elbow and wrist of side `s` are all detected in `p`. */
  predicate ArmPresent(p: Pose, s: Side)
  {
    match s
    case Right => p.rshoulder.present && p.relbow.present && p.rwrist.present
    case Left => p.lshoulder.present && p.lelbow.present && p.lwrist.present
  }

  /** The five joints of side `s` in frame `p`; the neck is shared. The
      tuple's shoulder, elbow and wrist are the joints that decide the
      side's vote, so a complete tuple always comes from a frame that voted
      for its side. */
  function Extract(p: Pose, s: Side): (t: JointTuple)
    ensures t.neck == p.neck
    ensures ArmPresent(p, s) <==> t.shoulder.present && t.elbow.present && t.wrist.present
    ensures AllPresent(t) <==> ArmPresent(p, s) && t.hip.present && p.neck.present
  {
    match s
    case Right => JointTuple(p.rshoulder, p.relbow, p.rwrist, p.rhip, p.neck)
    case Left => JointTuple(p.lshoulder, p.lelbow, p.lwrist, p.lhip, p.neck)
  }

  /** Every one of the five parts of `t` is detected. */
  predicate AllPresent(t: JointTuple)
  {
    t.shoulder.present && t.elbow.present && t.wrist.present && t.hip.present && t.neck.present
  }
}
