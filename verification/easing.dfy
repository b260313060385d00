/** The easing curves that shape a transition's progress, over exact reals.
    `Math.pow(v, 3)` and `Math.pow(v, 2)` are written as products. */
module Easing {

  datatype EasingType = Linear | InOutCubic | InOutQuad

  function Cube(v: real): real { v * v * v }

  /** easeInOutCubic: 4t^3 on the first half, 1 - (2 - 2t)^3 / 2 on the second */
  function EaseInOutCubic(t: real): real {
    if t < 0.5 then 4.0 * t * t * t else 1.0 - Cube(-2.0 * t + 2.0) / 2.0
  }

  /** easeInOutQuad: 2t^2 on the first half, 1 - (2 - 2t)^2 / 2 on the second */
  function EaseInOutQuad(t: real): real {
    if t < 0.5 then 2.0 * t * t else 1.0 - (-2.0 * t + 2.0) * (-2.0 * t + 2.0) / 2.0
  }

  /** getEasing: the curve selected by the easing type; anything other than
      the two named curves is the identity */
  function GetEasing(kind: EasingType, t: real): (e: real)
    ensures kind == Linear ==> e == t
  {
    match kind
    case InOutCubic => EaseInOutCubic(t)
    case InOutQuad => EaseInOutQuad(t)
    case Linear => t
  }

  lemma CubeMonotone(a: real, b: real)
    requires 0.0 <= a <= b
    ensures 0.0 <= Cube(a) <= Cube(b)
  {
    assert a * a <= b * b;
    assert a * a * a <= b * b * a;
    assert b * b * a <= b * b * b;
  }

  lemma SquareMonotone(a: real, b: real)
    requires 0.0 <= a <= b
    ensures 0.0 <= a * a <= b * b
  {
    assert a * a <= a * b <= b * b;
  }

  /** every curve starts at 0, passes through the midpoint at 1/2 and ends at 1 */
  lemma EasingFixesEndpoints(kind: EasingType)
    ensures GetEasing(kind, 0.0) == 0.0
    ensures GetEasing(kind, 0.5) == 0.5
    ensures GetEasing(kind, 1.0) == 1.0
  {
  }

  /** the cubic curve keeps progress inside [0, 1] and never runs backwards */
  lemma {:induction false} CubicMonotoneInRange(s: real, t: real)
    requires 0.0 <= s <= t <= 1.0
    ensures 0.0 <= EaseInOutCubic(s) <= EaseInOutCubic(t) <= 1.0
  {
    if t < 0.5 {
      CubeMonotone(s, t);
      CubeMonotone(t, 0.5);
    } else if s < 0.5 {
      CubeMonotone(s, 0.5);
      CubeMonotone(-2.0 * t + 2.0, 1.0);
    } else {
      CubeMonotone(-2.0 * t + 2.0, -2.0 * s + 2.0);
      CubeMonotone(-2.0 * s + 2.0, 1.0);
    }
  }

  /** the quadratic curve keeps progress inside [0, 1] and never runs backwards */
  lemma {:induction false} QuadMonotoneInRange(s: real, t: real)
    requires 0.0 <= s <= t <= 1.0
    ensures 0.0 <= EaseInOutQuad(s) <= EaseInOutQuad(t) <= 1.0
  {
    if t < 0.5 {
      SquareMonotone(s, t);
      SquareMonotone(t, 0.5);
    } else if s < 0.5 {
      SquareMonotone(s, 0.5);
      SquareMonotone(-2.0 * t + 2.0, 1.0);
    } else {
      SquareMonotone(-2.0 * t + 2.0, -2.0 * s + 2.0);
      SquareMonotone(-2.0 * s + 2.0, 1.0);
    }
  }

  /** whichever curve is selected maps [0, 1] monotonically into [0, 1] */
  lemma EasingMonotoneInRange(kind: EasingType, s: real, t: real)
    requires 0.0 <= s <= t <= 1.0
    ensures 0.0 <= GetEasing(kind, s) <= GetEasing(kind, t) <= 1.0
  {
    match kind
    case InOutCubic => CubicMonotoneInRange(s, t);
    case InOutQuad => QuadMonotoneInRange(s, t);
    case Linear =>
  }

  /** the in-out curves are point-symmetric about (1/2, 1/2): the second half
      of the transition mirrors the first */
  lemma EasingSymmetric(kind: EasingType, t: real)
    ensures GetEasing(kind, 1.0 - t) == 1.0 - GetEasing(kind, t)
  {
    if kind == InOutCubic {
      if t < 0.5 {
        assert -2.0 * (1.0 - t) + 2.0 == 2.0 * t;
        CubeDouble(t);
        assert 4.0 * t * t * t == 4.0 * Cube(t);
      } else if t > 0.5 {
        var u := 1.0 - t;
        assert -2.0 * t + 2.0 == 2.0 * u;
        CubeDouble(u);
        assert 4.0 * u * u * u == 4.0 * Cube(u);
      }
    }
  }

  lemma CubeDouble(u: real)
    ensures Cube(2.0 * u) == 8.0 * Cube(u)
  {
    assert (2.0 * u) * (2.0 * u) == 4.0 * (u * u);
  }
}
