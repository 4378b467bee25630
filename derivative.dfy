/**
 * The derivative strategies of src/utils/Derivative.java. The sigmoid function itself is a
 * parameter `sigmoid` (it is built from Math.pow); Tanh's derivative uses Math.cosh and is not
 * part of this model.
 */
module Derivatives {
  import Activations

  /** The slope of the identity activation: Activations.Identity(v) == Identity(v) * v. */
  function Identity(v: real): (d: real)
    ensures Activations.Identity(v) == d * v
    ensures d == 1.0
  {
    1.0
  }

  /** `val < 0 ? 0 : 1`; the derivative taken at 0 is 1. */
  function ReLU(v: real): (d: real)
    ensures Activations.ReLU(v) == d * v
    ensures d == 0.0 || d == 1.0
    ensures d == 1.0 <==> v >= 0.0
  {
    if v < 0.0 then 0.0 else 1.0
  }

  /** `val < 0 ? 0.01 : 1`. */
  function LeakyReLU(v: real): (d: real)
    ensures Activations.LeakyReLU(v) == d * v
    ensures 0.0 < d <= 1.0
  {
    if v < 0.0 then 0.01 else 1.0
  }

  /** `s(val) * (1 - s(val))` with s the sigmoid activation. */
  function Sigmoid(sigmoid: real -> real, v: real): (d: real)
    ensures d <= 0.25
    ensures 0.0 < sigmoid(v) < 1.0 ==> d > 0.0
  {
    var s := sigmoid(v);
    assert 0.25 - s * (1.0 - s) == (s - 0.5) * (s - 0.5);
    assert 0.0 < s < 1.0 ==> s * (1.0 - s) > 0.0 * (1.0 - s);
    s * (1.0 - s)
  }

  /** The derivative of SmoothReLU, log(1 + e^v), is the sigmoid activation. */
  function SmoothReLU(sigmoid: real -> real, v: real): (d: real)
    ensures d == sigmoid(v)
  {
    sigmoid(v)
  }
}
