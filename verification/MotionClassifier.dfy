/** Stateless classification of an acceleration sample. */
module MotionClassifier {
  import opened SmartTag
  import opened SensorMath

  const ORIENTATION_MIN_MG: int := 500

  function Deviation(s: Sample): int {
    s.magnitude - ONE_G_MG
  }

  predicate IsActive(s: Sample, threshold: nat) {
    Abs(Deviation(s)) > threshold
  }

  function OrientationOf(s: Sample): Orientation {
    var ax, ay, az := Abs(s.accelX), Abs(s.accelY), Abs(s.accelZ);
    if az >= ax && az >= ay && az > ORIENTATION_MIN_MG then if s.accelZ > 0 then ZUp else ZDown
    else if ay >= ax && ay >= az && ay > ORIENTATION_MIN_MG then if s.accelY > 0 then YUp else YDown
    else if ax > ORIENTATION_MIN_MG then if s.accelX > 0 then XUp else XDown
    else Unknown
  }

  /** The axis and direction that an orientation stands for. */
  function Along(s: Sample, o: Orientation): int {
    match o
    case Unknown => 0
    case XUp => s.accelX
    case XDown => -s.accelX
    case YUp => s.accelY
    case YDown => -s.accelY
    case ZUp => s.accelZ
    case ZDown => -s.accelZ
  }

  /** The orientation is the direction of the largest reading, if that exceeds
      half a g, and unknown exactly if no reading does. */
  lemma OrientationIsDominant(s: Sample)
    ensures OrientationOf(s) == Unknown <==>
      Abs(s.accelX) <= ORIENTATION_MIN_MG && Abs(s.accelY) <= ORIENTATION_MIN_MG && Abs(s.accelZ) <= ORIENTATION_MIN_MG
    ensures OrientationOf(s) != Unknown ==>
      && Along(s, OrientationOf(s)) > ORIENTATION_MIN_MG
      && forall o :: Along(s, o) <= Along(s, OrientationOf(s))
  {
  }

  /** A sample is active if it is heavier or lighter than one g by more than the
      threshold. */
  lemma ActiveExactly(s: Sample, threshold: nat)
    ensures IsActive(s, threshold) <==> s.magnitude > 1000 + threshold || s.magnitude + threshold < 1000
  {
  }

  /** Which way up, axis by axis: the z axis wins a tie, and the y axis one with x. */
  lemma OrientationExactly(s: Sample)
    ensures var (x, y, z) := (s.accelX, s.accelY, s.accelZ);
      && (OrientationOf(s) == ZUp <==> z > 500 && -z <= x <= z && -z <= y <= z)
      && (OrientationOf(s) == ZDown <==> z < -500 && z <= x <= -z && z <= y <= -z)
      && (OrientationOf(s) == YUp <==> y > 500 && -y <= x <= y && -y < z < y)
      && (OrientationOf(s) == YDown <==> y < -500 && y <= x <= -y && y < z < -y)
      && (OrientationOf(s) == XUp <==> x > 500 && -x < y < x && -x < z < x)
      && (OrientationOf(s) == XDown <==> x < -500 && x < y < -x && x < z < -x)
  {
  }

  /** A sample that faces somewhere and is light enough for free fall cannot also
      be a shock: its magnitude is within 499 mg of one g. */
  lemma FacingAndFallingIsCalm(s: Sample)
    requires HasMagnitude(s) && OrientationOf(s) != Unknown && s.magnitude < 900
    ensures Abs(Deviation(s)) < 500
  {
    MagnitudeBoundsAxes(s);
  }
}
