/**
 * The activation strategies of src/utils/Activation.java that are exact over the reals.
 *
 * Sigmoid, SmoothReLU and Tanh are built from Math.pow, Math.log and Math.tanh; they are not
 * part of this model, and wherever the network needs one it takes the function as a parameter.
 */
module Activations {

  /** Math.max for two doubles that are not NaN. */
  function Max(a: real, b: real): real
  {
    if a >= b then a else b
  }

  /** The activation that passes every value through. */
  function Identity(v: real): (r: real)
    ensures r == v
  {
    v
  }

  /** `Math.max(0, val)`. */
  function ReLU(v: real): (r: real)
    ensures r >= 0.0 && r >= v
    ensures r == 0.0 || r == v
    ensures v >= 0.0 ==> r == v
    ensures v <= 0.0 ==> r == 0.0
  {
    Max(0.0, v)
  }

  /** `Math.max(0.01 * val, val)`. */
  function LeakyReLU(v: real): (r: real)
    ensures r >= v
    ensures r == v || r == 0.01 * v
    ensures r > 0.0 <==> v > 0.0
  {
    Max(0.01 * v, v)
  }

  lemma ReLUIdempotent(v: real)
    ensures ReLU(ReLU(v)) == ReLU(v)
  {
  }

  /** LeakyReLU is the identity on non-negative inputs and scales negative ones by 0.01. */
  lemma LeakyReLUPiecewise(v: real)
    ensures LeakyReLU(v) == if v >= 0.0 then v else 0.01 * v
  {
  }

  /** LeakyReLU keeps the sign of its input. */
  lemma LeakyReLUKeepsSign(v: real)
    ensures LeakyReLU(v) > 0.0 <==> v > 0.0
    ensures LeakyReLU(v) < 0.0 <==> v < 0.0
    ensures LeakyReLU(v) == 0.0 <==> v == 0.0
  {
    LeakyReLUPiecewise(v);
  }

  lemma Monotone(u: real, v: real)
    requires u <= v
    ensures Identity(u) <= Identity(v)
    ensures ReLU(u) <= ReLU(v)
    ensures LeakyReLU(u) <= LeakyReLU(v)
  {
    LeakyReLUPiecewise(u);
    LeakyReLUPiecewise(v);
  }

  /** LeakyReLU never exceeds ReLU, and the two agree exactly on the non-negative inputs. */
  lemma LeakyReLUBelowReLU(v: real)
    ensures LeakyReLU(v) <= ReLU(v)
    ensures LeakyReLU(v) == ReLU(v) <==> v >= 0.0
  {
    LeakyReLUPiecewise(v);
  }
}
