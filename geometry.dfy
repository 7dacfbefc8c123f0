/**
 * 2D vectors over exact reals, standing in for Unity's Vector2.
 * The engine's magnitude is not defined here: operations take it as a
 * function value, and the properties of a magnitude that the proofs rely
 * on are collected in IsMagnitude.
 */
module Geometry {

  datatype Vec2 = Vec2(x: real, y: real)

  const Zero: Vec2 := Vec2(0.0, 0.0)

  function Add(a: Vec2, b: Vec2): Vec2 {
    Vec2(a.x + b.x, a.y + b.y)
  }

  function Sub(a: Vec2, b: Vec2): Vec2 {
    Vec2(a.x - b.x, a.y - b.y)
  }

  function Scale(v: Vec2, k: real): Vec2 {
    Vec2(v.x * k, v.y * k)
  }

  function Abs(r: real): (a: real)
    ensures a >= 0.0 && (a == r || a == -r)
  {
    if r < 0.0 then -r else r
  }

  /** The properties of Vector2.magnitude used below: it is non-negative,
      zero only on the zero vector, and absolutely homogeneous. */
  ghost predicate IsMagnitude(mag: Vec2 -> real) {
    && (forall v :: mag(v) >= 0.0)
    && (forall v :: mag(v) == 0.0 ==> v == Zero)
    && (forall v, k :: mag(Scale(v, k)) == Abs(k) * mag(v))
  }

  /** Vector2.Distance(a, b), the magnitude of a - b. */
  function Distance(a: Vec2, b: Vec2, mag: Vec2 -> real): real {
    mag(Sub(a, b))
  }

  /** Vector2.normalized: the zero vector normalises to zero. */
  function Normalize(v: Vec2, mag: Vec2 -> real): Vec2 {
    if mag(v) == 0.0 then Zero else Scale(v, 1.0 / mag(v))
  }

  lemma MagnitudeOfZero(mag: Vec2 -> real)
    requires IsMagnitude(mag)
    ensures mag(Zero) == 0.0
  {
    assert Scale(Zero, 0.0) == Zero;
    assert mag(Scale(Zero, 0.0)) == Abs(0.0) * mag(Zero);
  }

  /** Normalising a non-zero vector gives a vector of magnitude one in the
      same direction; normalising zero gives zero. */
  lemma NormalizeSpec(v: Vec2, mag: Vec2 -> real)
    requires IsMagnitude(mag)
    ensures v == Zero ==> Normalize(v, mag) == Zero
    ensures v != Zero ==>
      && mag(v) > 0.0
      && Normalize(v, mag) == Scale(v, 1.0 / mag(v))
      && mag(Normalize(v, mag)) == 1.0
  {
    if v == Zero {
      MagnitudeOfZero(mag);
    } else {
      var m := mag(v);
      assert m > 0.0;
      assert mag(Scale(v, 1.0 / m)) == Abs(1.0 / m) * m;
    }
  }

  /** Scaling a vector by k scales its magnitude by |k|. */
  lemma MagnitudeOfScaled(mag: Vec2 -> real, v: Vec2, k: real)
    requires IsMagnitude(mag)
    ensures mag(Scale(v, k)) == Abs(k) * mag(v)
  {
  }

  /** Distance is symmetric. */
  lemma DistanceSymmetric(a: Vec2, b: Vec2, mag: Vec2 -> real)
    requires IsMagnitude(mag)
    ensures Distance(a, b, mag) == Distance(b, a, mag)
  {
    SubReversed(a, b);
    assert mag(Scale(Sub(a, b), -1.0)) == Abs(-1.0) * mag(Sub(a, b));
  }

  lemma SubReversed(a: Vec2, b: Vec2)
    ensures Sub(b, a) == Scale(Sub(a, b), -1.0)
  {
    assert Sub(b, a).x == Scale(Sub(a, b), -1.0).x;
    assert Sub(b, a).y == Scale(Sub(a, b), -1.0).y;
  }
}
