/**
 * The class NeuralNetwork of src/net/NeuralNetwork.java: the layer sizes, the activation and
 * derivative strategies, the cost, and the weight and bias matrices that `initialize` creates
 * and `train` updates in place. Matrices are held as values of module MatrixAlgebra and every
 * Matrix call of the Java code is the checked operation of that module with the same
 * destination argument; each method is proved against the specification of modules
 * Propagation and Training.
 */
module Network {
  import opened Results
  import A = MatrixAlgebra
  import Costs
  import Mnist
  import opened Propagation
  import opened Training

  class NeuralNetwork {
    const layers: seq<nat>
    var activation: seq<real -> real>
    var derivative: seq<real -> real>
    const cost: Costs.Cost
    var biases: seq<A.Mat>
    var weights: seq<A.Mat>

    /** The fixed part of the network as a value. */
    function Structure(): Net
      reads this
    {
      Net(layers, activation, derivative, cost)
    }

    /** The current weights and biases as a value. */
    function Parameters(): Params
      reads this
    {
      Params(weights, biases)
    }

    /**
     * `new NeuralNetwork(sizes, cost)`: the weight and bias arrays have no matrices yet and
     * there are no strategies until `activate`. An empty `sizes` makes the Java constructor
     * throw; see Create.
     */
    constructor (sizes: seq<nat>, cost: Costs.Cost)
      requires |sizes| >= 1
      ensures layers == sizes && this.cost == cost
      ensures activation == [] && derivative == [] && weights == [] && biases == []
      ensures |sizes| == 1 ==> Ready(Structure(), Parameters())
    {
      layers := sizes;
      this.cost := cost;
      activation, derivative := [], [];
      weights, biases := [], [];
    }

    /** `activate(activation, derivative)`. */
    method Activate(act: seq<real -> real>, der: seq<real -> real>)
      modifies this
      ensures activation == act && derivative == der
      ensures weights == old(weights) && biases == old(biases)
    {
      activation := act;
      derivative := der;
    }

    /**
     * `initialize()`: layer i gets a layers[i+1]-by-1 bias vector and a layers[i+1]-by-layers[i]
     * weight matrix. The Gaussian draws of `java.util.Random` are the oracles biasDraw(i, j) and
     * weightDraw(i, j, k), and `Math.sqrt` is root.
     */
    method Initialize(biasDraw: (nat, nat) -> real, weightDraw: (nat, nat, nat) -> real, root: nat -> real)
      requires |layers| >= 1
      requires forall n: nat :: n > 0 ==> root(n) > 0.0
      modifies this
      ensures Shaped(layers, Parameters())
      ensures forall i :: 0 <= i < |layers| - 1 ==> Drawn(biasDraw, weightDraw, root, layers, i, biases[i], weights[i])
      ensures activation == old(activation) && derivative == old(derivative)
    {
      biases, weights := [], [];
      var i := 0;
      while i < |layers| - 1
        invariant 0 <= i <= |layers| - 1
        invariant Shaped(layers[..i + 1], Parameters())
        invariant forall m :: 0 <= m < i ==> Drawn(biasDraw, weightDraw, root, layers, m, biases[m], weights[m])
        invariant activation == old(activation) && derivative == old(derivative)
      {
        var b, w := InitialLayer(biasDraw, weightDraw, root, i);
        biases := biases + [b];
        weights := weights + [w];
        i := i + 1;
      }
      assert layers[..i + 1] == layers;
    }

    /** The loops over j and k of `initialize` for layer i. */
    method InitialLayer(biasDraw: (nat, nat) -> real, weightDraw: (nat, nat, nat) -> real, root: nat -> real, i: nat)
      returns (b: A.Mat, w: A.Mat)
      requires i < |layers| - 1
      requires forall n: nat :: n > 0 ==> root(n) > 0.0
      ensures Drawn(biasDraw, weightDraw, root, layers, i, b, w)
    {
      b := A.Zeros(layers[i + 1], 1);
      w := A.Zeros(layers[i + 1], layers[i]);
      var j := 0;
      while j < layers[i + 1]
        invariant 0 <= j <= layers[i + 1]
        invariant A.ShapeOf(b) == A.Shape(layers[i + 1], 1) && A.ShapeOf(w) == A.Shape(layers[i + 1], layers[i])
        invariant forall jj :: 0 <= jj < j ==> A.Get(b, jj, 0) == biasDraw(i, jj)
        invariant forall jj, k :: 0 <= jj < j && 0 <= k < layers[i] ==>
                    A.Get(w, jj, k) == InitialWeight(weightDraw, root, layers, i, jj, k)
      {
        b := A.Updated(b, j, 0, biasDraw(i, j));
        var k := 0;
        while k < layers[i]
          invariant 0 <= k <= layers[i]
          invariant A.ShapeOf(w) == A.Shape(layers[i + 1], layers[i])
          invariant forall jj, kk :: 0 <= jj < layers[i + 1] && 0 <= kk < layers[i] && (jj < j || (jj == j && kk < k)) ==>
                      A.Get(w, jj, kk) == InitialWeight(weightDraw, root, layers, i, jj, kk)
        {
          w := A.Updated(w, j, k, InitialWeight(weightDraw, root, layers, i, j, k));
          k := k + 1;
        }
        j := j + 1;
      }
    }

    /**
     * `process(mat)`: layer by layer, dot into a fresh layers[i+1]-by-1 matrix, add the biases in
     * place and apply the activation. A single-layer network returns its input as it is.
     */
    method Process(x: A.Mat) returns (r: Result<A.Mat>)
      requires Ready(Structure(), Parameters())
      ensures r.Success? <==> |layers| == 1 || IsInput(Structure(), x)
      ensures r.Success? ==> r.value == if |layers| == 1 then x else Output(Structure(), Parameters(), x)
      ensures r.Failure? ==> r.error == SizeMismatch
    {
      ghost var net, p := Structure(), Parameters();
      var mat := x;
      var i := 0;
      while i < |layers| - 1
        invariant 0 <= i <= |layers| - 1
        invariant i == 0 ==> mat == x
        invariant i > 0 ==> IsInput(net, x) && mat == Act(net, p, x, i)
      {
        assert A.ShapeOf(weights[i]) == A.Shape(layers[i + 1], layers[i]);
        assert A.ShapeOf(biases[i]) == A.Shape(layers[i + 1], 1);
        var tmp := A.Dot(weights[i], mat, Some(A.Shape(weights[i].rows, 1)));
        if tmp.Failure? {
          return Failure(tmp.error);
        }
        var sum := A.Add(tmp.value, biases[i], Some(A.ShapeOf(tmp.value)));
        if sum.Failure? {
          return Failure(sum.error);
        }
        mat := A.Vec(sum.value, None, activation[i]).value;
        i := i + 1;
      }
      return Success(mat);
    }

    /**
     * `backpropagate(data, res)`: a forward pass that keeps the weighted sums and activations,
     * the cost derivative at the output, then the error terms downwards, each with its outer
     * product with the activations below.
     */
    method Backpropagate(x: A.Mat, y: A.Mat) returns (r: Result<Params>)
      requires Ready(Structure(), Parameters())
      ensures r == Backprop(Structure(), Parameters(), x, y)
    {
      ghost var net, p := Structure(), Parameters();
      var n := |layers|;
      var sums, acts := Forward(x);
      if sums.Failure? {
        return Failure(sums.error);
      }
      if n == 1 {
        return Failure(IndexOutOfRange);
      }
      var ws, acs := sums.value, acts.value;
      var d := Costs.D(cost, acs[n - 1], y, ws[n - 2], derivative[n - 2]);
      if d.Failure? {
        assert !A.Covers(Output(net, p, x), y);
        return Failure(d.error);
      }
      var g := Backward(x, y, ws, acs, d.value);
      return Success(g);
    }

    /**
     * The second half of `backpropagate`: from the output error term err, the bias and weight
     * gradients of every layer, from the last layer down to the first.
     */
    method Backward(x: A.Mat, y: A.Mat, ws: seq<A.Mat>, acs: seq<A.Mat>, err0: A.Mat) returns (g: Params)
      requires Propagates(Structure(), Parameters(), x, y)
      requires |ws| == |layers| - 1 && |acs| == |layers|
      requires forall k :: 0 <= k < |layers| - 1 ==> ws[k] == Sum(Structure(), Parameters(), x, k)
      requires forall k :: 0 <= k < |layers| ==> acs[k] == Act(Structure(), Parameters(), x, k)
      requires err0 == Delta(Structure(), Parameters(), x, y, |layers| - 2)
      ensures g == Gradients(Structure(), Parameters(), x, y)
    {
      ghost var net, p := Structure(), Parameters();
      var n := |layers|;
      var err := err0;
      var gb := [err];
      var gw := [A.MultiplyTransposeB(err, acs[n - 2], A.Shape(err.rows, acs[n - 2].rows)).value];
      var lo := n - 2;
      GradientsFromCons(net, p, x, y, lo);
      while lo > 0
        invariant 0 <= lo <= n - 2
        invariant err == Delta(net, p, x, y, lo)
        invariant Params(gw, gb) == GradientsFrom(net, p, x, y, lo)
      {
        var wg;
        err, wg := BackStep(x, y, ws, acs, lo - 1, err);
        GradientsFromCons(net, p, x, y, lo - 1);
        gb := [err] + gb;
        gw := [wg] + gw;
        lo := lo - 1;
      }
      return Params(gw, gb);
    }

    /** One pass of the downward loop of `backpropagate`: the error term of layer i and its weight gradient. */
    method BackStep(x: A.Mat, y: A.Mat, ws: seq<A.Mat>, acs: seq<A.Mat>, i: nat, err: A.Mat) returns (err': A.Mat, wg: A.Mat)
      requires Propagates(Structure(), Parameters(), x, y)
      requires i < |layers| - 2 && i < |ws| && i < |acs|
      requires ws[i] == Sum(Structure(), Parameters(), x, i) && acs[i] == Act(Structure(), Parameters(), x, i)
      requires err == Delta(Structure(), Parameters(), x, y, i + 1)
      ensures err' == Delta(Structure(), Parameters(), x, y, i)
      ensures wg == WeightGradient(Structure(), Parameters(), x, y, i)
    {
      ghost var net, p := Structure(), Parameters();
      assert A.ShapeOf(weights[i + 1]) == A.Shape(layers[i + 2], layers[i + 1]);
      var tmp := A.Vec(ws[i], None, derivative[i]).value;
      err' := A.MultiplyTransposeA(weights[i + 1], err, A.Shape(weights[i + 1].cols, err.cols)).value;
      err' := A.Pro(err', tmp, Some(A.ShapeOf(err'))).value;
      wg := A.MultiplyTransposeB(err', acs[i], A.Shape(err'.rows, acs[i].rows)).value;
    }

    /**
     * The first loop of `backpropagate`: the weighted sums and the activations of every layer,
     * or the shape exception of the first dot or add.
     */
    method Forward(x: A.Mat) returns (sums: Result<seq<A.Mat>>, acts: Result<seq<A.Mat>>)
      requires Ready(Structure(), Parameters())
      ensures sums.Success? <==> |layers| == 1 || IsInput(Structure(), x)
      ensures sums.Success? <==> acts.Success?
      ensures sums.Failure? ==> sums.error == SizeMismatch
      ensures sums.Success? ==> |sums.value| == |layers| - 1 && |acts.value| == |layers| && acts.value[0] == x
      ensures sums.Success? && |layers| >= 2 ==>
        (forall k :: 0 <= k < |layers| - 1 ==> sums.value[k] == Sum(Structure(), Parameters(), x, k)) &&
        (forall k :: 0 <= k < |layers| ==> acts.value[k] == Act(Structure(), Parameters(), x, k))
    {
      ghost var net, p := Structure(), Parameters();
      var ws, acs := [], [x];
      var last := x;
      var i := 0;
      while i < |layers| - 1
        invariant 0 <= i <= |layers| - 1
        invariant |ws| == i && |acs| == i + 1 && acs[0] == x && last == acs[i]
        invariant i > 0 ==> IsInput(net, x)
        invariant i > 0 ==> forall k :: 0 <= k < i ==> ws[k] == Sum(net, p, x, k)
        invariant i > 0 ==> forall k :: 0 <= k <= i ==> acs[k] == Act(net, p, x, k)
      {
        assert A.ShapeOf(weights[i]) == A.Shape(layers[i + 1], layers[i]);
        assert A.ShapeOf(biases[i]) == A.Shape(layers[i + 1], 1);
        var tmp := A.Dot(weights[i], last, None);
        if tmp.Failure? {
          return Failure(tmp.error), Failure(tmp.error);
        }
        var sum := A.Add(tmp.value, biases[i], Some(A.ShapeOf(tmp.value)));
        if sum.Failure? {
          return Failure(sum.error), Failure(sum.error);
        }
        assert IsInput(net, x);
        assert sum.value == Sum(net, p, x, i);
        ws := ws + [sum.value];
        last := A.Vec(sum.value, None, activation[i]).value;
        assert last == Act(net, p, x, i + 1);
        acs := acs + [last];
        i := i + 1;
      }
      return Success(ws), Success(acs);
    }

    /**
     * `train(data, res, epochs, batches, learningrate)`: the epochs one after the other, each
     * shuffling data and res with the draws pick(e, .) of its own. The elapsed time it returns
     * is not modelled; the outcome says whether an exception escaped.
     */
    method Train(data: array<A.Mat>, res: array<A.Mat>, epochs: int, batches: int, lr: real, pick: (nat, nat) -> nat)
      returns (o: Outcome)
      requires Ready(Structure(), Parameters()) && DrawsEach(pick)
      modifies this, data, res
      ensures Structure() == old(Structure())
      ensures var r := Epochs(Structure(), Backpropagation(Structure()), Trained(old(Parameters()), old(data[..]), old(res[..])),
                               0, epochs, pick, batches, lr);
        (o.Pass? <==> r.Success?) && (o.Fail? ==> o.error == r.error) &&
        (o.Pass? ==> Parameters() == r.value.p && data[..] == r.value.data && res[..] == r.value.res)
    {
      ghost var net, grad := Structure(), Backpropagation(Structure());
      ghost var t0 := Trained(Parameters(), data[..], res[..]);
      var e := 0;
      while e < epochs
        invariant 0 <= e
        invariant Structure() == net && Ready(net, Parameters())
        invariant Epochs(net, grad, t0, 0, epochs, pick, batches, lr) ==
                  Epochs(net, grad, Trained(Parameters(), data[..], res[..]), e, epochs, pick, batches, lr)
        decreases epochs - e
      {
        o := TrainEpoch(data, res, batches, lr, Draw(pick, e));
        if o.Fail? {
          return;
        }
        e := e + 1;
      }
      return Pass;
    }

    /**
     * One epoch of `train`: `MNIST.shuffle(data, res)`, fresh zero accumulators, then the loop over
     * the examples.
     */
    method TrainEpoch(data: array<A.Mat>, res: array<A.Mat>, batches: int, lr: real, draw: nat -> nat) returns (o: Outcome)
      requires Ready(Structure(), Parameters()) && Mnist.Draws(draw)
      modifies this, data, res
      ensures Structure() == old(Structure())
      ensures var r := Epoch(Structure(), Backpropagation(Structure()), Trained(old(Parameters()), old(data[..]), old(res[..])),
                              draw, batches, lr);
        (o.Pass? <==> r.Success?) && (o.Fail? ==> o.error == r.error) &&
        (o.Pass? ==> Parameters() == r.value.p && data[..] == r.value.data && res[..] == r.value.res && Ready(Structure(), Parameters()))
    {
      o := Mnist.Shuffle(data, res, draw);
      if o.Fail? {
        return;
      }
      o := TrainExamples(data[..], res[..], batches, lr);
    }

    /**
     * The loop of `train` over the examples of one epoch, in the order of the arrays, from fresh
     * zero accumulators.
     */
    method TrainExamples(data: seq<A.Mat>, res: seq<A.Mat>, batches: int, lr: real) returns (o: Outcome)
      requires Ready(Structure(), Parameters())
      modifies this
      ensures Structure() == old(Structure())
      ensures var r := RunTo(Structure(), Backpropagation(Structure()), old(Parameters()), data, res, batches, lr, |data|);
        (o.Pass? <==> r.Success?) && (o.Fail? ==> o.error == r.error) && (o.Pass? ==> Parameters() == r.value.p)
    {
      ghost var net, grad, p0 := Structure(), Backpropagation(Structure()), Parameters();
      var acc := NewAccumulators();
      var i := 0;
      while i < |data|
        invariant 0 <= i <= |data|
        invariant Structure() == net
        invariant RunTo(net, grad, p0, data, res, batches, lr, i) == Success(Progress(Parameters(), acc))
      {
        RunToUnfold(net, grad, p0, data, res, batches, lr, i + 1);
        if i >= |res| {
          FailurePersists(net, grad, p0, data, res, batches, lr, i + 1, |data|);
          return Fail(IndexOutOfRange);
        }
        var r := TrainStep(data[i], res[i], i, |data|, batches, lr, acc);
        if r.Failure? {
          FailurePersists(net, grad, p0, data, res, batches, lr, i + 1, |data|);
          return Fail(r.error);
        }
        acc := r.value;
        i := i + 1;
      }
      return Pass;
    }

    /** The accumulators `new Matrix(rows, columns)` of every layer: zero matrices of the shapes of the parameters. */
    method NewAccumulators() returns (acc: Params)
      requires Ready(Structure(), Parameters())
      ensures acc == ZerosLike(Parameters())
    {
      var gw, gb := [], [];
      for i := 0 to |layers| - 1
        invariant gw == ZerosLike(Parameters()).weights[..i] && gb == ZerosLike(Parameters()).biases[..i]
      {
        gb := gb + [A.Zeros(biases[i].rows, biases[i].cols)];
        gw := gw + [A.Zeros(weights[i].rows, weights[i].cols)];
      }
      return Params(gw, gb);
    }

    /**
     * The loop body of `train` for example i of n: backpropagate, add the gradients to the
     * accumulators acc and, when the batch closes, update. The result is the new accumulators.
     */
    method TrainStep(x: A.Mat, y: A.Mat, i: nat, n: nat, batches: int, lr: real, acc: Params) returns (r: Result<Params>)
      requires Ready(Structure(), Parameters()) && SameShapes(Parameters(), acc)
      modifies this
      ensures Structure() == old(Structure())
      ensures var s := Step(Structure(), Backpropagation(Structure()), Progress(old(Parameters()), acc), x, y, i, n, batches, lr);
        (r.Success? <==> s.Success?) && (r.Failure? ==> r.error == s.error) &&
        (r.Success? ==> s.value == Progress(Parameters(), r.value))
    {
      var d := Backpropagate(x, y);
      if d.Failure? {
        return Failure(d.error);
      }
      SameShapesTrans(acc, Parameters(), d.value);
      var s := AddInto(acc, d.value);
      if i > 0 && batches == 0 {
        return Failure(DivisionByZero);
      }
      if (i > 0 && i % batches == 0) || i == n - 1 {
        SameShapesTrans(Parameters(), acc, s);
        var cleared := Update(s, lr);
        return Success(cleared);
      }
      return Success(s);
    }

    /**
     * The update after a batch, layer by layer: scale the accumulators by lr, subtract them from
     * the weights and biases, and clear them. The result is the cleared accumulators.
     */
    method Update(acc: Params, lr: real) returns (cleared: Params)
      requires |weights| == |layers| - 1 && |biases| == |layers| - 1 && SameShapes(Parameters(), acc)
      modifies this
      ensures Structure() == old(Structure())
      ensures Parameters() == Descend(old(Parameters()), acc, lr) && cleared == ZerosLike(acc)
    {
      ghost var p0, q, z := Parameters(), Descend(Parameters(), acc, lr), ZerosLike(acc);
      var gw, gb := acc.weights, acc.biases;
      for j := 0 to |layers| - 1
        invariant Structure() == old(Structure())
        invariant |weights| == |biases| == |gw| == |gb| == |layers| - 1
        invariant forall k :: 0 <= k < j ==> weights[k] == q.weights[k] && biases[k] == q.biases[k] && gw[k] == z.weights[k] && gb[k] == z.biases[k]
        invariant forall k :: j <= k < |layers| - 1 ==>
                    weights[k] == p0.weights[k] && biases[k] == p0.biases[k] && gw[k] == acc.weights[k] && gb[k] == acc.biases[k]
      {
        var w := DescendLayer(weights[j], gw[j], lr);
        var b := DescendLayer(biases[j], gb[j], lr);
        var zw, zb := A.Zeros(gw[j].rows, gw[j].cols), A.Zeros(gb[j].rows, gb[j].cols);
        DescendLayerAt(p0, acc, lr, j);
        weights, biases := weights[j := w], biases[j := b];
        gw, gb := gw[j := zw], gb[j := zb];
      }
      return Params(gw, gb);
    }
  }

  /** The loop `add(gradient[j], delta[j], gradient[j])` over the layers j of `train`. */
  method AddInto(acc: Params, g: Params) returns (s: Params)
    requires SameShapes(acc, g) && |acc.weights| == |acc.biases|
    ensures s == AddAll(acc, g)
  {
    var gw, gb := acc.weights, acc.biases;
    for j := 0 to |acc.weights|
      invariant |gw| == |acc.weights| && |gb| == |acc.biases|
      invariant forall k :: 0 <= k < j ==> gw[k] == A.Plus(acc.weights[k], g.weights[k]) && gb[k] == A.Plus(acc.biases[k], g.biases[k])
      invariant forall k :: j <= k < |gw| ==> gw[k] == acc.weights[k] && gb[k] == acc.biases[k]
    {
      var w := AddLayer(gw[j], g.weights[j]);
      var b := AddLayer(gb[j], g.biases[j]);
      gw, gb := gw[j := w], gb[j := b];
    }
    return Params(gw, gb);
  }

  /** `add(gradient, delta, gradient)` on one matrix: the shapes agree, so it adds entrywise. */
  method AddLayer(a: A.Mat, b: A.Mat) returns (c: A.Mat)
    requires A.ShapeOf(a) == A.ShapeOf(b)
    ensures c == A.Plus(a, b)
  {
    c := A.Add(a, b, Some(A.ShapeOf(a))).value;
  }

  /** `scl(gradient, gradient, lr)` then `sub(w, gradient, w)` on one matrix. */
  method DescendLayer(w: A.Mat, g: A.Mat, lr: real) returns (w': A.Mat)
    requires A.ShapeOf(w) == A.ShapeOf(g)
    ensures w' == A.Minus(w, A.Scaled(lr, g))
  {
    var scaled := A.Scl(g, Some(A.ShapeOf(g)), lr).value;
    w' := A.Sub(w, scaled, Some(A.ShapeOf(w))).value;
  }

  /** The initial weight from neuron k of layer i to neuron j of layer i + 1: a draw divided by sqrt(layers[i]). */
  function InitialWeight(weightDraw: (nat, nat, nat) -> real, root: nat -> real, layers: seq<nat>, i: nat, j: nat, k: nat): real
    requires i < |layers| && k < layers[i]
    requires forall n: nat :: n > 0 ==> root(n) > 0.0
  {
    weightDraw(i, j, k) / root(layers[i])
  }

  /**
   * Layer i as `initialize` leaves it: a layers[i+1]-by-1 bias vector whose entry j is the draw
   * biasDraw(i, j), and a layers[i+1]-by-layers[i] weight matrix whose entry (j, k) is InitialWeight.
   */
  ghost predicate Drawn(biasDraw: (nat, nat) -> real, weightDraw: (nat, nat, nat) -> real, root: nat -> real,
                        layers: seq<nat>, i: nat, b: A.Mat, w: A.Mat)
    requires i < |layers| - 1
    requires forall n: nat :: n > 0 ==> root(n) > 0.0
  {
    A.ShapeOf(b) == A.Shape(layers[i + 1], 1) && A.ShapeOf(w) == A.Shape(layers[i + 1], layers[i]) &&
    (forall j :: 0 <= j < layers[i + 1] ==> A.Get(b, j, 0) == biasDraw(i, j)) &&
    (forall j, k :: 0 <= j < layers[i + 1] && 0 <= k < layers[i] ==>
       A.Get(w, j, k) == InitialWeight(weightDraw, root, layers, i, j, k))
  }

  /** `new NeuralNetwork(sizes, cost)`, which throws NegativeArraySizeException on an empty sizes. */
  method Create(sizes: seq<nat>, cost: Costs.Cost) returns (r: Result<NeuralNetwork>)
    ensures r.Failure? <==> |sizes| == 0
    ensures r.Failure? ==> r.error == NegativeArraySize
    ensures r.Success? ==> fresh(r.value) && r.value.layers == sizes && r.value.cost == cost
    ensures r.Success? ==> r.value.weights == [] && r.value.biases == []
  {
    if |sizes| == 0 {
      return Failure(NegativeArraySize);
    }
    var net := new NeuralNetwork(sizes, cost);
    return Success(net);
  }
}
