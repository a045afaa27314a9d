/**
 * The stand-alone frame classifier (`detect_behavior` in detect_behavior.py).
 *
 * The geometry is abstracted away: each face arrives with the eye aspect
 * ratios already computed for its left and right eye and the position of its
 * nose tip (face-mesh landmark 1); each hand arrives with the position of the
 * middle of its palm (hand landmark 9).
 */
module FrameDetector {

  /** An eye whose aspect ratio is below this is closed. */
  const EyeRatioThreshold: real := 0.2
  /** A palm closer than this to a nose tip is near the face. */
  const PalmNoseDistance: real := 0.1

  const Normal: string := "Normal"
  /** The sleep label, spelled with its trailing space. */
  const Sleeping: string := "Sleeping "
  const PhoneOrEating: string := "Phone/Eating"

  /** A point in normalised image coordinates. */
  datatype Point = Point(x: real, y: real)

  /** One face: left and right eye aspect ratios and the nose tip. */
  datatype FaceReading = FaceReading(leftEyeRatio: real, rightEyeRatio: real, noseTip: Point)

  /** One hand: the middle of the palm. */
  datatype HandReading = HandReading(palm: Point)

  /** Both eyes of the face are closed; one closed eye is not enough. */
  predicate EyesClosed(face: FaceReading)
  {
    face.leftEyeRatio < EyeRatioThreshold && face.rightEyeRatio < EyeRatioThreshold
  }

  /** The Euclidean distance from the palm to the nose tip is below the
      threshold, stated on squares (both sides are non-negative). */
  predicate PalmNearNose(hand: HandReading, face: FaceReading)
  {
    var dx, dy := hand.palm.x - face.noseTip.x, hand.palm.y - face.noseTip.y;
    dx * dx + dy * dy < PalmNoseDistance * PalmNoseDistance
  }

  ghost predicate SomeFaceAsleep(faces: seq<FaceReading>)
  {
    exists i :: 0 <= i < |faces| && EyesClosed(faces[i])
  }

  ghost predicate SomePalmNearNose(hands: seq<HandReading>, faces: seq<FaceReading>)
  {
    exists h, f :: 0 <= h < |hands| && 0 <= f < |faces| && PalmNearNose(hands[h], faces[f])
  }

  /**
   * `detect_behavior`: "Sleeping " when some face has both eyes closed;
   * otherwise "Phone/Eating" when some palm is near some nose tip; otherwise
   * "Normal". Once set, the sleep label is never overwritten.
   */
  method DetectBehavior(faces: seq<FaceReading>, hands: seq<HandReading>) returns (behavior: string)
    ensures behavior in {Normal, Sleeping, PhoneOrEating}
    ensures behavior == Sleeping <==> SomeFaceAsleep(faces)
    ensures behavior == PhoneOrEating <==> !SomeFaceAsleep(faces) && SomePalmNearNose(hands, faces)
    ensures faces == [] ==> behavior == Normal
    ensures hands == [] ==> behavior != PhoneOrEating
  {
    behavior := Normal;
    if |faces| > 0 {
      for i := 0 to |faces|
        invariant behavior == if exists k :: 0 <= k < i && EyesClosed(faces[k]) then Sleeping else Normal
      {
        if EyesClosed(faces[i]) {
          behavior := Sleeping;
        }
      }
    }
    ghost var asleep := behavior == Sleeping;
    assert asleep <==> SomeFaceAsleep(faces);
    if |hands| > 0 && |faces| > 0 {
      for h := 0 to |hands|
        invariant behavior == if asleep then Sleeping
          else if exists h', f :: 0 <= h' < h && 0 <= f < |faces| && PalmNearNose(hands[h'], faces[f]) then PhoneOrEating
          else Normal
      {
        for f := 0 to |faces|
          invariant behavior == if asleep then Sleeping
            else if (exists h', f' :: 0 <= h' < h && 0 <= f' < |faces| && PalmNearNose(hands[h'], faces[f']))
                 || (exists f' :: 0 <= f' < f && PalmNearNose(hands[h], faces[f']))
            then PhoneOrEating
            else Normal
        {
          if PalmNearNose(hands[h], faces[f]) {
            if behavior != Sleeping {
              behavior := PhoneOrEating;
            }
          }
        }
      }
    }
  }
}
