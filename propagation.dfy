/**
 * The mathematics of `process` and `backpropagate` in src/net/NeuralNetwork.java, on value
 * matrices: the forward pass (weighted sums and activations per layer) and the error terms
 * of backpropagation, together with the exceptions the Java code raises on bad shapes.
 */
module Propagation {
  import opened Results
  import A = MatrixAlgebra
  import Costs

  /** The fixed part of a network: neurons per layer, activation and derivative per layer, cost. */
  datatype Net = Net(layers: seq<nat>, act: seq<real -> real>, der: seq<real -> real>, cost: Costs.Cost)

  /** Weights and biases per layer; gradients and their running sums have the same form. */
  datatype Params = Params(weights: seq<A.Mat>, biases: seq<A.Mat>)

  /** At least one layer, and an activation and a derivative for every layer after the first. */
  predicate Wellformed(net: Net)
  {
    |net.layers| >= 1 && |net.act| >= |net.layers| - 1 && |net.der| >= |net.layers| - 1
  }

  /** The shapes `initialize` gives: weights[i] is layers[i+1] x layers[i], biases[i] is layers[i+1] x 1. */
  predicate Shaped(layers: seq<nat>, p: Params)
  {
    |layers| >= 1 && |p.weights| == |layers| - 1 && |p.biases| == |layers| - 1 &&
    forall i :: 0 <= i < |layers| - 1 ==>
      A.ShapeOf(p.weights[i]) == A.Shape(layers[i + 1], layers[i]) && A.ShapeOf(p.biases[i]) == A.Shape(layers[i + 1], 1)
  }

  predicate Ready(net: Net, p: Params)
  {
    Wellformed(net) && Shaped(net.layers, p)
  }

  /** A column vector with one entry per input neuron. */
  predicate IsInput(net: Net, x: A.Mat)
    requires |net.layers| >= 1
  {
    A.ShapeOf(x) == A.Shape(net.layers[0], 1)
  }

  /** The activations of layer n: the input for n = 0, else act[n-1] applied to the weighted sums. */
  function Act(net: Net, p: Params, x: A.Mat, n: nat): (a: A.Mat)
    requires Ready(net, p) && IsInput(net, x) && n < |net.layers|
    ensures A.ShapeOf(a) == A.Shape(net.layers[n], 1)
    decreases n, 0
  {
    if n == 0 then x else A.Mapped(net.act[n - 1], Sum(net, p, x, n - 1))
  }

  /** The weighted sums of layer n + 1: weights[n] . Act(n) + biases[n]. */
  function Sum(net: Net, p: Params, x: A.Mat, n: nat): (z: A.Mat)
    requires Ready(net, p) && IsInput(net, x) && n < |net.layers| - 1
    ensures A.ShapeOf(z) == A.Shape(net.layers[n + 1], 1)
    decreases n, 1
  {
    assert A.ShapeOf(p.weights[n]) == A.Shape(net.layers[n + 1], net.layers[n]);
    assert A.ShapeOf(p.biases[n]) == A.Shape(net.layers[n + 1], 1);
    A.Plus(A.Product(p.weights[n], Act(net, p, x, n)), p.biases[n])
  }

  /** The output of the network: the activations of the last layer. */
  function Output(net: Net, p: Params, x: A.Mat): (y: A.Mat)
    requires Ready(net, p) && IsInput(net, x)
    ensures A.ShapeOf(y) == A.Shape(net.layers[|net.layers| - 1], 1)
  {
    Act(net, p, x, |net.layers| - 1)
  }

  /** One layer of the forward pass: entry j is act(row j of w . x + b(j)). */
  lemma LayerEntries(net: Net, p: Params, x: A.Mat, n: nat)
    requires Ready(net, p) && IsInput(net, x) && 0 < n < |net.layers|
    ensures A.ShapeOf(p.weights[n - 1]) == A.Shape(net.layers[n], net.layers[n - 1])
    ensures A.IsAffineImage(Act(net, p, x, n), net.act[n - 1], p.weights[n - 1], Act(net, p, x, n - 1), p.biases[n - 1])
  {
    ActStep(net, p, x, n);
    A.AffineImage(net.act[n - 1], p.weights[n - 1], Act(net, p, x, n - 1), p.biases[n - 1]);
  }

  /** Act(n) unfolded once, with the shapes of the layer's weights and biases. */
  lemma ActStep(net: Net, p: Params, x: A.Mat, n: nat)
    requires Ready(net, p) && IsInput(net, x) && 0 < n < |net.layers|
    ensures A.ShapeOf(p.weights[n - 1]) == A.Shape(net.layers[n], net.layers[n - 1])
    ensures A.ShapeOf(p.biases[n - 1]) == A.Shape(net.layers[n], 1)
    ensures Act(net, p, x, n) == A.Mapped(net.act[n - 1], A.Plus(A.Product(p.weights[n - 1], Act(net, p, x, n - 1)), p.biases[n - 1]))
  {
  }

  /** The conditions under which backpropagate reaches its gradients. */
  predicate Propagates(net: Net, p: Params, x: A.Mat, y: A.Mat)
  {
    Ready(net, p) && IsInput(net, x) && |net.layers| >= 2 && A.Covers(Output(net, p, x), y)
  }

  /**
   * The error term of layer n + 1. At the output it is the cost derivative; below, it is
   * (weights[n+1]^T . Delta(n+1)) entrywise times der[n] of the weighted sums.
   */
  function Delta(net: Net, p: Params, x: A.Mat, y: A.Mat, n: nat): (d: A.Mat)
    requires Propagates(net, p, x, y) && n < |net.layers| - 1
    ensures A.ShapeOf(d) == A.Shape(net.layers[n + 1], 1)
    decreases |net.layers| - n
  {
    var last := |net.layers| - 2;
    if n == last then
      Costs.D(net.cost, Output(net, p, x), y, Sum(net, p, x, last), net.der[last]).value
    else
      A.Hadamard(A.ProductTA(p.weights[n + 1], Delta(net, p, x, y, n + 1)), A.Mapped(net.der[n], Sum(net, p, x, n)))
  }

  /** Gradients and weights of the same network have the same number of layers and the same shapes. */
  predicate SameShapes(p: Params, q: Params)
  {
    |p.weights| == |q.weights| && |p.biases| == |q.biases| &&
    (forall j :: 0 <= j < |p.weights| ==> A.ShapeOf(p.weights[j]) == A.ShapeOf(q.weights[j])) &&
    (forall j :: 0 <= j < |p.biases| ==> A.ShapeOf(p.biases[j]) == A.ShapeOf(q.biases[j]))
  }

  /** The weight gradient of layer i: Delta(i) . Act(i)^T, computed by multiplyTransposeM. */
  function WeightGradient(net: Net, p: Params, x: A.Mat, y: A.Mat, i: nat): (w: A.Mat)
    requires Propagates(net, p, x, y) && i < |net.layers| - 1
    ensures A.ShapeOf(w) == A.Shape(net.layers[i + 1], net.layers[i])
  {
    A.ProductTB(Delta(net, p, x, y, i), Act(net, p, x, i))
  }

  /** The two arrays `backpropagate` returns, on the inputs where it returns: the gradients of every layer. */
  function Gradients(net: Net, p: Params, x: A.Mat, y: A.Mat): (g: Params)
    requires Propagates(net, p, x, y)
    ensures SameShapes(p, g)
  {
    GradientsShaped(net, p, x, y);
    GradientsFrom(net, p, x, y, 0)
  }

  /** The weight gradient and the error term of every layer, as one function of the layer. */
  function LayerGradient(net: Net, p: Params, x: A.Mat, y: A.Mat): (f: nat -> (A.Mat, A.Mat))
    requires Propagates(net, p, x, y)
    ensures forall i: nat :: i < |net.layers| - 1 ==> f(i) == (WeightGradient(net, p, x, y, i), Delta(net, p, x, y, i))
  {
    (i: nat) => if i < |net.layers| - 1 then (WeightGradient(net, p, x, y, i), Delta(net, p, x, y, i)) else (A.Zeros(0, 0), A.Zeros(0, 0))
  }

  /** The pairs f(lo), ..., f(hi - 1) split into a sequence of weights and one of biases. */
  function Stack(f: nat -> (A.Mat, A.Mat), lo: nat, hi: nat): (g: Params)
    requires lo <= hi
    ensures |g.weights| == |g.biases| == hi - lo
    decreases hi - lo
  {
    if lo == hi then Params([], [])
    else
      var g := Stack(f, lo + 1, hi);
      Params([f(lo).0] + g.weights, [f(lo).1] + g.biases)
  }

  /** Position i - lo of the stack from lo holds f(i). */
  lemma {:induction false} StackAt(f: nat -> (A.Mat, A.Mat), lo: nat, hi: nat, i: nat)
    requires lo <= i < hi
    ensures Stack(f, lo, hi).weights[i - lo] == f(i).0 && Stack(f, lo, hi).biases[i - lo] == f(i).1
    decreases i - lo
  {
    if lo < i {
      StackAt(f, lo + 1, hi, i);
    }
  }

  /** The gradients of layers lo and above, in the order `backpropagate` fills them: from the top down. */
  function GradientsFrom(net: Net, p: Params, x: A.Mat, y: A.Mat, lo: nat): (g: Params)
    requires Propagates(net, p, x, y) && lo <= |net.layers| - 1
    ensures |g.weights| == |g.biases| == |net.layers| - 1 - lo
  {
    Stack(LayerGradient(net, p, x, y), lo, |net.layers| - 1)
  }

  /** Below the top, the gradients from layer lo are those of layer lo followed by those from lo + 1. */
  lemma GradientsFromCons(net: Net, p: Params, x: A.Mat, y: A.Mat, lo: nat)
    requires Propagates(net, p, x, y) && lo < |net.layers| - 1
    ensures GradientsFrom(net, p, x, y, lo) == Params([WeightGradient(net, p, x, y, lo)] + GradientsFrom(net, p, x, y, lo + 1).weights,
                                                      [Delta(net, p, x, y, lo)] + GradientsFrom(net, p, x, y, lo + 1).biases)
  {
  }

  /** The gradients from layer lo up hold the gradient of layer i at position i - lo. */
  lemma GradientsFromAt(net: Net, p: Params, x: A.Mat, y: A.Mat, lo: nat, i: nat)
    requires Propagates(net, p, x, y)
    requires lo <= i < |net.layers| - 1
    ensures GradientsFrom(net, p, x, y, lo).weights[i - lo] == WeightGradient(net, p, x, y, i)
    ensures GradientsFrom(net, p, x, y, lo).biases[i - lo] == Delta(net, p, x, y, i)
  {
    StackAt(LayerGradient(net, p, x, y), lo, |net.layers| - 1, i);
  }

  /** Every gradient has the shape of the weight or bias it belongs to. */
  lemma GradientsShaped(net: Net, p: Params, x: A.Mat, y: A.Mat)
    requires Propagates(net, p, x, y)
    ensures SameShapes(p, GradientsFrom(net, p, x, y, 0))
  {
    var g := GradientsFrom(net, p, x, y, 0);
    forall j | 0 <= j < |g.weights|
      ensures A.ShapeOf(p.weights[j]) == A.ShapeOf(g.weights[j]) && A.ShapeOf(p.biases[j]) == A.ShapeOf(g.biases[j])
    {
      GradientsFromAt(net, p, x, y, 0, j);
    }
  }

  /**
   * `backpropagate(data, res)`: with a single layer the code indexes weightedSums[-1]; an input
   * of the wrong shape fails in dot or add; a target smaller than the output fails in cost.d.
   */
  function Backprop(net: Net, p: Params, x: A.Mat, y: A.Mat): (r: Result<Params>)
    requires Ready(net, p)
    ensures r.Success? <==> |net.layers| >= 2 && IsInput(net, x) && A.Covers(Output(net, p, x), y)
    ensures r.Failure? ==> r.error == (if |net.layers| == 1 then IndexOutOfRange else if !IsInput(net, x) then SizeMismatch else OutOfBound)
    ensures r.Success? ==> SameShapes(p, r.value)
  {
    if |net.layers| == 1 then Failure(IndexOutOfRange)
    else if !IsInput(net, x) then Failure(SizeMismatch)
    else if !A.Covers(Output(net, p, x), y) then Failure(OutOfBound)
    else Success(Gradients(net, p, x, y))
  }

  /**
   * The weight gradient of every layer is an outer product: entry (j, k) is the bias gradient
   * (the error term) of neuron j times the activation of neuron k of the layer below.
   */
  lemma WeightGradientIsOuterProduct(net: Net, p: Params, x: A.Mat, y: A.Mat, i: nat)
    requires Propagates(net, p, x, y) && i < |net.layers| - 1
    ensures var g := Gradients(net, p, x, y); A.IsOuterProduct(g.weights[i], g.biases[i], Act(net, p, x, i))
  {
    GradientsFromAt(net, p, x, y, 0, i);
    A.OuterProducts(Delta(net, p, x, y, i), Act(net, p, x, i));
  }

  /** The output-layer bias gradient is the cost derivative of the output against the target. */
  lemma OutputGradientIsCostDerivative(net: Net, p: Params, x: A.Mat, y: A.Mat)
    requires Propagates(net, p, x, y)
    ensures var last := |net.layers| - 2;
      Gradients(net, p, x, y).biases[last] == Costs.D(net.cost, Output(net, p, x), y, Sum(net, p, x, last), net.der[last]).value
  {
    GradientsFromAt(net, p, x, y, 0, |net.layers| - 2);
    OutputDelta(net, p, x, y);
  }

  /** At the output layer the error term is the cost derivative. */
  lemma OutputDelta(net: Net, p: Params, x: A.Mat, y: A.Mat)
    requires Propagates(net, p, x, y)
    ensures var last := |net.layers| - 2;
      Delta(net, p, x, y, last) == Costs.D(net.cost, Output(net, p, x), y, Sum(net, p, x, last), net.der[last]).value
  {
  }

  /** Below the output the error term is (weights[n+1]^T . Delta(n+1)) times der[n](z_n), with an explicit transpose. */
  lemma HiddenDeltaUsesTranspose(net: Net, p: Params, x: A.Mat, y: A.Mat, n: nat)
    requires Propagates(net, p, x, y) && n < |net.layers| - 2
    ensures Delta(net, p, x, y, n) ==
      A.Hadamard(A.Product(A.Transposed(p.weights[n + 1]), Delta(net, p, x, y, n + 1)), A.Mapped(net.der[n], Sum(net, p, x, n)))
  {
    var w, d := p.weights[n + 1], Delta(net, p, x, y, n + 1);
    assert A.ShapeOf(w) == A.Shape(net.layers[n + 2], net.layers[n + 1]);
    assert Delta(net, p, x, y, n) == A.Hadamard(A.ProductTA(w, d), A.Mapped(net.der[n], Sum(net, p, x, n)));
    A.ProductTAIsProductOfTranspose(w, d);
  }
}
