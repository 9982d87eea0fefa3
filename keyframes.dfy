/**
 * Keyframe values and linear interpolation between them.
 *
 * A keyframe is an immutable timed sample of a 3D position. The source uses
 * single-precision floats; here every field is a `real`, so interpolation is
 * exact and the search only relies on the ordering of times.
 */
module Keyframes {

  /** The "no keyframe" result (a null reference in the source). */
  datatype Option<+T> = None | Some(value: T)

  datatype Keyframe = Keyframe(x: real, y: real, z: real, time: real)

  /** The point a fraction `t` of the way from `u` to `v`. */
  function Lerp(u: real, v: real, t: real): real
  {
    u + t * (v - u)
  }

  /**
   * Blends two keyframes field by field, time included. A missing input gives
   * a missing result; `t` is not restricted, so values outside [0, 1]
   * extrapolate.
   */
  function Interpolate(a: Option<Keyframe>, b: Option<Keyframe>, t: real := 0.5): (r: Option<Keyframe>)
    ensures r.None? <==> a.None? || b.None?
    ensures r.Some? && t == 0.0 ==> r.value == a.value
    ensures r.Some? && t == 1.0 ==> r.value == b.value
  {
    if a.None? || b.None? then None
    else
      var p, q := a.value, b.value;
      Some(Keyframe(Lerp(p.x, q.x, t), Lerp(p.y, q.y, t), Lerp(p.z, q.z, t), Lerp(p.time, q.time, t)))
  }

  /** The product of two non-negative reals is non-negative. */
  lemma MulNonNegative(a: real, b: real)
    requires 0.0 <= a && 0.0 <= b
    ensures 0.0 <= a * b
  {
  }

  /** For a blend factor in [0, 1] the blended value lies between the two ends. */
  lemma LerpBetween(u: real, v: real, t: real)
    requires 0.0 <= t <= 1.0
    ensures u <= v ==> u <= Lerp(u, v, t) <= v
    ensures v <= u ==> v <= Lerp(u, v, t) <= u
  {
    if u <= v {
      MulNonNegative(t, v - u);
      MulNonNegative(1.0 - t, v - u);
      assert (1.0 - t) * (v - u) == (v - u) - t * (v - u);
    }
    if v <= u {
      MulNonNegative(t, u - v);
      MulNonNegative(1.0 - t, u - v);
      assert t * (v - u) == -(t * (u - v));
      assert (1.0 - t) * (u - v) == (u - v) - t * (u - v);
    }
  }

  /**
   * Interpolating with a factor in [0, 1] never leaves the segment between
   * the two keyframes: in particular the blended time lies between their times.
   */
  lemma InterpolateWithinSegment(a: Keyframe, b: Keyframe, t: real)
    requires 0.0 <= t <= 1.0
    ensures Interpolate(Some(a), Some(b), t).Some?
    ensures var r := Interpolate(Some(a), Some(b), t).value;
      && (a.time <= b.time ==> a.time <= r.time <= b.time)
      && (b.time <= a.time ==> b.time <= r.time <= a.time)
      && (a.x <= b.x ==> a.x <= r.x <= b.x)
      && (b.x <= a.x ==> b.x <= r.x <= a.x)
      && (a.y <= b.y ==> a.y <= r.y <= b.y)
      && (b.y <= a.y ==> b.y <= r.y <= a.y)
      && (a.z <= b.z ==> a.z <= r.z <= b.z)
      && (b.z <= a.z ==> b.z <= r.z <= a.z)
  {
    LerpBetween(a.time, b.time, t);
    LerpBetween(a.x, b.x, t);
    LerpBetween(a.y, b.y, t);
    LerpBetween(a.z, b.z, t);
  }

  /**
   * Swapping the two keyframes and mirroring the factor gives the same blend:
   * interpolation does not favour either end.
   */
  lemma InterpolateSymmetric(a: Keyframe, b: Keyframe, t: real)
    ensures Interpolate(Some(a), Some(b), t) == Interpolate(Some(b), Some(a), 1.0 - t)
  {
    forall u: real, v: real
      ensures Lerp(u, v, t) == Lerp(v, u, 1.0 - t)
    {
      calc {
        Lerp(v, u, 1.0 - t);
        v + (1.0 - t) * (u - v);
        v + (u - v) - t * (u - v);
        u + t * (v - u);
      }
    }
  }

  /** The default factor blends halfway: from x = 0 at time 0 to x = 10 at time 10 gives x = 5 at time 5. */
  lemma InterpolateHalfwayExample(y: real, z: real)
    ensures Interpolate(Some(Keyframe(0.0, y, z, 0.0)), Some(Keyframe(10.0, y, z, 10.0)))
            == Some(Keyframe(5.0, y, z, 5.0))
  {
  }
}
