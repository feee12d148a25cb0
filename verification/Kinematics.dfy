/** Twist to wheel speeds: kinematics.twist_to_wheel_speeds. */
module Kinematics {

  datatype Wheels = Wheels(left: int, right: int)

  /** Python's int(): truncation toward zero. */
  function Truncate(x: real): int {
    if x >= 0.0 then x.Floor else -((-x).Floor)
  }

  function Clamp(v: int, limit: int): int {
    var low := if limit < v then limit else v;
    if -limit > low then -limit else low
  }

  function TwistToWheels(linear: real, angular: real, linearScale: real, angularScale: real, speedMax: int): Wheels {
    var lin := Truncate(linear * linearScale);
    var ang := Truncate(angular * angularScale);
    Wheels(Clamp(lin - ang, speedMax), Clamp(lin + ang, speedMax))
  }

  lemma TruncateIsOdd(x: real)
    ensures Truncate(-x) == -Truncate(x)
  {
  }

  lemma ProductNegates(x: real, scale: real)
    ensures (-x) * scale == -(x * scale)
  {
  }

  /** The wheel speeds obey the limit; a reversed twist reverses both wheels; a
      mirrored turn swaps them; no twist is no motion, and a straight twist drives
      both wheels alike. */
  lemma TwistSymmetries(linear: real, angular: real, linearScale: real, angularScale: real, speedMax: int)
    requires 0 <= speedMax
    ensures var w := TwistToWheels(linear, angular, linearScale, angularScale, speedMax);
            && -speedMax <= w.left <= speedMax && -speedMax <= w.right <= speedMax
            && TwistToWheels(-linear, -angular, linearScale, angularScale, speedMax) == Wheels(-w.left, -w.right)
            && TwistToWheels(linear, -angular, linearScale, angularScale, speedMax) == Wheels(w.right, w.left)
    ensures TwistToWheels(0.0, 0.0, linearScale, angularScale, speedMax) == Wheels(0, 0)
    ensures var s := TwistToWheels(linear, 0.0, linearScale, angularScale, speedMax); s.left == s.right
  {
    ProductNegates(linear, linearScale);
    ProductNegates(angular, angularScale);
    TruncateIsOdd(linear * linearScale);
    TruncateIsOdd(angular * angularScale);
    assert 0.0 * linearScale == 0.0 && 0.0 * angularScale == 0.0;
  }

  /** Truncation drops less than one and never past zero. */
  lemma TruncateNears(x: real)
    ensures if x >= 0.0 then 0.0 <= Truncate(x) as real <= x < Truncate(x) as real + 1.0
            else Truncate(x) as real - 1.0 < x <= Truncate(x) as real <= 0.0
  {
  }

  /** The convention: a turn to the left (positive angular rate) never leaves the left
      wheel ahead. Within the limit the twist can be read back off the wheels: their
      mean is the scaled linear speed and half their difference the scaled turn, each
      short of it by less than one. Beyond it, a wheel runs at the limit. */
  lemma TwistReadBack(linear: real, angular: real, linearScale: real, angularScale: real, speedMax: int)
    requires 0 <= speedMax
    ensures var w := TwistToWheels(linear, angular, linearScale, angularScale, speedMax);
            var (x, turn) := (linear * linearScale, angular * angularScale);
            && (turn >= 0.0 ==> w.left <= w.right) && (turn <= 0.0 ==> w.left >= w.right)
            && (-speedMax < w.left < speedMax && -speedMax < w.right < speedMax ==>
                 && -1.0 < x - (w.left + w.right) as real / 2.0 < 1.0
                 && -1.0 < turn - (w.right - w.left) as real / 2.0 < 1.0)
            && (x + turn >= speedMax as real + 2.0 ==> w.right == speedMax)
            && (x - turn >= speedMax as real + 2.0 ==> w.left == speedMax)
  {
    TruncateNears(linear * linearScale);
    TruncateNears(angular * angularScale);
  }

  function Distance(x: int, y: int): nat { if x < y then y - x else x - y }

  /** Each wheel takes the speed within the limit that is nearest to what the twist
      asks of it: left the truncated linear minus the truncated turn, right their sum. */
  lemma WheelsAreNearest(linear: real, angular: real, linearScale: real, angularScale: real, speedMax: int, v: int)
    requires -speedMax <= v <= speedMax
    ensures var w := TwistToWheels(linear, angular, linearScale, angularScale, speedMax);
            var (lin, ang) := (Truncate(linear * linearScale), Truncate(angular * angularScale));
            && Distance(w.left, lin - ang) <= Distance(v, lin - ang)
            && Distance(w.right, lin + ang) <= Distance(v, lin + ang)
  {
  }
}
