/**
 * The schedule of `train` in src/net/NeuralNetwork.java, on values: every epoch shuffles the
 * examples and their targets together, backpropagates each example, sums the gradients in
 * accumulators and, whenever a batch closes, subtracts the learning rate times the sums from
 * the weights and biases and clears the accumulators.
 *
 * `java.util.Random` is an oracle: `pick(e, i)` is what `nextInt(i)` returns in the shuffle of
 * epoch e.
 */
module Training {
  import opened Results
  import A = MatrixAlgebra
  import opened Propagation
  import Mnist
  import FlatIndex

  /** The state of an epoch: the parameters and the gradient accumulators of the current batch. */
  datatype Progress = Progress(p: Params, acc: Params)

  /** What `train` changes: the parameters, and the order of the two arrays it shuffles. */
  datatype Trained = Trained(p: Params, data: seq<A.Mat>, res: seq<A.Mat>)

  /** A gradient function: the gradients for parameters q at an example x with target y. */
  type GradFn = (Params, A.Mat, A.Mat) -> Result<Params>

  /**
   * All the schedule relies on about the gradients: when they exist they have the shapes of
   * the parameters. The lemmas about the schedule hold for every such gradient function.
   */
  ghost predicate KeepsShapes(net: Net, grad: GradFn)
  {
    forall q, x, y :: Ready(net, q) && grad(q, x, y).Success? ==> SameShapes(q, grad(q, x, y).value)
  }

  /** The gradient function of `train`: `backpropagate` on the current weights and biases. */
  function Backpropagation(net: Net): (grad: GradFn)
    ensures KeepsShapes(net, grad)
    ensures forall q, x, y :: Ready(net, q) ==> grad(q, x, y) == Backprop(net, q, x, y)
  {
    (q: Params, x: A.Mat, y: A.Mat) => if Ready(net, q) then Backprop(net, q, x, y) else Failure(IndexOutOfRange)
  }

  lemma SameShapesTrans(p: Params, q: Params, s: Params)
    requires SameShapes(p, q) && SameShapes(q, s)
    ensures SameShapes(p, s) && SameShapes(s, p)
  {
  }

  lemma ShapedAlike(layers: seq<nat>, p: Params, q: Params)
    requires Shaped(layers, p) && SameShapes(p, q)
    ensures Shaped(layers, q)
  {
  }

  /** Every matrix of g is a zero matrix: the accumulators after `new Matrix(..)` or `clear()`. */
  predicate Cleared(g: Params)
  {
    (forall j :: 0 <= j < |g.weights| ==> g.weights[j] == A.Zeros(g.weights[j].rows, g.weights[j].cols)) &&
    (forall j :: 0 <= j < |g.biases| ==> g.biases[j] == A.Zeros(g.biases[j].rows, g.biases[j].cols))
  }

  /** Zero matrices of the shapes of p. */
  function ZerosLike(p: Params): (z: Params)
    ensures SameShapes(p, z) && Cleared(z)
  {
    Params(seq(|p.weights|, j requires 0 <= j < |p.weights| => A.Zeros(p.weights[j].rows, p.weights[j].cols)),
           seq(|p.biases|, j requires 0 <= j < |p.biases| => A.Zeros(p.biases[j].rows, p.biases[j].cols)))
  }

  /** The accumulators after `add(gradient[j], delta[j], gradient[j])` for every layer j. */
  function AddAll(acc: Params, g: Params): (s: Params)
    requires SameShapes(acc, g)
    ensures SameShapes(acc, s)
  {
    Params(seq(|acc.weights|, j requires 0 <= j < |acc.weights| => A.Plus(acc.weights[j], g.weights[j])),
           seq(|acc.biases|, j requires 0 <= j < |acc.biases| => A.Plus(acc.biases[j], g.biases[j])))
  }

  /** The parameters after `scl(gradient, gradient, lr)` and `sub(w, gradient, w)` on every layer. */
  function Descend(p: Params, acc: Params, lr: real): (q: Params)
    requires SameShapes(p, acc)
    ensures SameShapes(p, q)
  {
    Params(seq(|p.weights|, j requires 0 <= j < |p.weights| => A.Minus(p.weights[j], A.Scaled(lr, acc.weights[j]))),
           seq(|p.biases|, j requires 0 <= j < |p.biases| => A.Minus(p.biases[j], A.Scaled(lr, acc.biases[j]))))
  }

  /** Layer j of an update and of the cleared accumulators. */
  lemma DescendLayerAt(p: Params, acc: Params, lr: real, j: nat)
    requires SameShapes(p, acc) && j < |p.weights| && j < |p.biases|
    ensures Descend(p, acc, lr).weights[j] == A.Minus(p.weights[j], A.Scaled(lr, acc.weights[j]))
    ensures Descend(p, acc, lr).biases[j] == A.Minus(p.biases[j], A.Scaled(lr, acc.biases[j]))
    ensures ZerosLike(acc).weights[j] == A.Zeros(acc.weights[j].rows, acc.weights[j].cols)
    ensures ZerosLike(acc).biases[j] == A.Zeros(acc.biases[j].rows, acc.biases[j].cols)
  {
  }

  /** An update moves every weight and bias by minus the learning rate times its accumulated gradient. */
  lemma DescendAt(p: Params, acc: Params, lr: real)
    requires SameShapes(p, acc)
    ensures var q := Descend(p, acc, lr);
      (forall j :: 0 <= j < |p.weights| ==> A.IsDescent(q.weights[j], p.weights[j], acc.weights[j], lr)) &&
      (forall j :: 0 <= j < |p.biases| ==> A.IsDescent(q.biases[j], p.biases[j], acc.biases[j], lr))
  {
    var q := Descend(p, acc, lr);
    forall j | 0 <= j < |p.weights|
      ensures A.IsDescent(q.weights[j], p.weights[j], acc.weights[j], lr)
    {
      A.Descent(p.weights[j], acc.weights[j], lr);
    }
    forall j | 0 <= j < |p.biases|
      ensures A.IsDescent(q.biases[j], p.biases[j], acc.biases[j], lr)
    {
      A.Descent(p.biases[j], acc.biases[j], lr);
    }
  }

  /**
   * Whether a batch closes after example i of n: `i > 0 && i % batches == 0 || i == n - 1`.
   * The remainder is taken only when i > 0, and then throws for batches == 0. Java's `%`
   * truncates, Dafny's is Euclidean, but both are zero exactly when batches divides i.
   */
  function UpdateAfter(i: nat, n: nat, batches: int): (r: Result<bool>)
    ensures r.Failure? <==> i > 0 && batches == 0
    ensures r.Failure? ==> r.error == DivisionByZero
    ensures r.Success? && i == n - 1 ==> r.value
  {
    if i > 0 && batches == 0 then Failure(DivisionByZero)
    else Success((i > 0 && i % batches == 0) || i == n - 1)
  }

  /** The number of batches that close after one of the examples 0 .. k - 1 of n. */
  function Updates(k: nat, n: nat, batches: int): nat
    requires batches != 0
  {
    if k == 0 then 0 else Updates(k - 1, n, batches) + if UpdateAfter(k - 1, n, batches).value then 1 else 0
  }

  /**
   * Before the last example, a batch closes after examples batches, 2 * batches, ...: the first
   * batch holds batches + 1 examples, every later one batches.
   */
  lemma {:induction false} BatchBoundaries(k: nat, n: nat, batches: int)
    requires batches > 0 && k < n
    ensures Updates(k, n, batches) == if k == 0 then 0 else (k - 1) / batches
  {
    if k > 1 {
      BatchBoundaries(k - 1, n, batches);
      FlatIndex.DivStep(batches, k - 1);
    }
  }

  /**
   * One pass of the loop body over example i of n: backpropagate, add the gradients to the
   * accumulators and, if the batch closes, descend and clear.
   */
  function Step(net: Net, grad: GradFn, st: Progress, x: A.Mat, y: A.Mat, i: nat, n: nat, batches: int, lr: real): (r: Result<Progress>)
    requires KeepsShapes(net, grad)
    requires Ready(net, st.p) && SameShapes(st.p, st.acc)
    ensures r.Success? ==> Ready(net, r.value.p) && SameShapes(st.p, r.value.p) && SameShapes(r.value.p, r.value.acc)
    ensures r.Failure? <==> grad(st.p, x, y).Failure? || (i > 0 && batches == 0)
  {
    var g :- grad(st.p, x, y);
    SameShapesTrans(st.acc, st.p, g);
    var acc := AddAll(st.acc, g);
    SameShapesTrans(st.p, st.acc, acc);
    var update :- UpdateAfter(i, n, batches);
    if update then
      var q := Descend(st.p, acc, lr);
      ShapedAlike(net.layers, st.p, q);
      SameShapesTrans(q, st.p, acc);
      SameShapesTrans(q, acc, ZerosLike(acc));
      Success(Progress(q, ZerosLike(acc)))
    else
      Success(Progress(st.p, acc))
  }

  /** The state after the examples 0 .. i - 1 of one epoch, from the parameters p0. */
  function RunTo(net: Net, grad: GradFn, p0: Params, data: seq<A.Mat>, res: seq<A.Mat>, batches: int, lr: real, i: nat): (r: Result<Progress>)
    requires KeepsShapes(net, grad)
    requires Ready(net, p0) && i <= |data|
    ensures r.Success? ==> Ready(net, r.value.p) && SameShapes(p0, r.value.p) && SameShapes(r.value.p, r.value.acc)
    decreases i
  {
    if i == 0 then
      Success(Progress(p0, ZerosLike(p0)))
    else
      var st :- RunTo(net, grad, p0, data, res, batches, lr, i - 1);
      if i - 1 >= |res| then Failure(IndexOutOfRange)
      else
        var r := Step(net, grad, st, data[i - 1], res[i - 1], i - 1, |data|, batches, lr);
        if r.Success? then SameShapesTrans(p0, st.p, r.value.p); r else r
  }

  /** Once an example throws, the epoch throws the same exception. */
  lemma FailurePersists(net: Net, grad: GradFn, p0: Params, data: seq<A.Mat>, res: seq<A.Mat>, batches: int, lr: real, i: nat, k: nat)
    requires KeepsShapes(net, grad)
    requires Ready(net, p0) && i <= k <= |data|
    requires RunTo(net, grad, p0, data, res, batches, lr, i).Failure?
    ensures RunTo(net, grad, p0, data, res, batches, lr, k) == RunTo(net, grad, p0, data, res, batches, lr, i)
  {
    var j := i;
    while j < k
      invariant i <= j <= k
      invariant RunTo(net, grad, p0, data, res, batches, lr, j) == RunTo(net, grad, p0, data, res, batches, lr, i)
    {
      RunToUnfold(net, grad, p0, data, res, batches, lr, j + 1);
      j := j + 1;
    }
  }

  /** One epoch: the joint shuffle, then every example in the new order. */
  function Epoch(net: Net, grad: GradFn, t: Trained, draw: nat -> nat, batches: int, lr: real): (r: Result<Trained>)
    requires KeepsShapes(net, grad)
    requires Ready(net, t.p) && Mnist.Draws(draw)
    ensures r.Success? ==> Ready(net, r.value.p) && SameShapes(t.p, r.value.p)
    ensures r.Success? ==> |r.value.data| == |t.data| && |r.value.res| == |t.res|
  {
    var shuffled :- Mnist.ShuffleBoth(t.data, t.res, draw);
    var st :- RunTo(net, grad, t.p, shuffled.0, shuffled.1, batches, lr, |shuffled.0|);
    Success(Trained(st.p, shuffled.0, shuffled.1))
  }

  /** Every draw of every epoch's shuffle lies in [0, i). */
  ghost predicate DrawsEach(pick: (nat, nat) -> nat)
  {
    forall e: nat, i: nat :: 0 < i ==> pick(e, i) < i
  }

  /** The draws of the shuffle of epoch e. */
  function Draw(pick: (nat, nat) -> nat, e: nat): (draw: nat -> nat)
    ensures forall i: nat :: draw(i) == pick(e, i)
  {
    i => pick(e, i)
  }

  /** The epochs e .. epochs - 1 of `train(data, res, epochs, batches, lr)`. */
  function Epochs(net: Net, grad: GradFn, t: Trained, e: nat, epochs: int, pick: (nat, nat) -> nat, batches: int, lr: real): (r: Result<Trained>)
    requires KeepsShapes(net, grad)
    requires Ready(net, t.p) && DrawsEach(pick)
    ensures r.Success? ==> Ready(net, r.value.p) && SameShapes(t.p, r.value.p)
    ensures r.Success? ==> |r.value.data| == |t.data| && |r.value.res| == |t.res|
    decreases epochs - e
  {
    if e >= epochs then Success(t)
    else
      var t' :- Epoch(net, grad, t, Draw(pick, e), batches, lr);
      var r := Epochs(net, grad, t', e + 1, epochs, pick, batches, lr);
      if r.Success? then SameShapesTrans(t.p, t'.p, r.value.p); r else r
  }

  /** Without examples no batch ever closes: the parameters, and the targets, stay as they are. */
  lemma {:induction false} NoDataNoChange(net: Net, grad: GradFn, t: Trained, e: nat, epochs: int, pick: (nat, nat) -> nat, batches: int, lr: real)
    requires KeepsShapes(net, grad)
    requires Ready(net, t.p) && DrawsEach(pick) && |t.data| == 0
    ensures Epochs(net, grad, t, e, epochs, pick, batches, lr) == Success(t)
    decreases epochs - e
  {
    if e < epochs {
      assert Epoch(net, grad, t, Draw(pick, e), batches, lr) == Success(t);
      NoDataNoChange(net, grad, t, e + 1, epochs, pick, batches, lr);
    }
  }

  /** x is an input of the network and y a target its output fits in, whatever the parameters. */
  predicate Fits(net: Net, x: A.Mat, y: A.Mat)
    requires |net.layers| >= 1
  {
    var top := net.layers[|net.layers| - 1];
    IsInput(net, x) && (top == 0 || (top <= y.rows && 1 <= y.cols))
  }

  /** Backpropagation succeeds on every example that fits, as soon as there are two layers. */
  lemma FitsBackprop(net: Net, p: Params, x: A.Mat, y: A.Mat)
    requires Ready(net, p) && |net.layers| >= 2 && Fits(net, x, y)
    ensures Backprop(net, p, x, y).Success?
  {
    assert A.Covers(Output(net, p, x), y);
  }

  /**
   * With batches == 0 and at least two examples, the first epoch evaluates `1 % 0` and throws
   * an ArithmeticException, even when every example fits.
   */
  lemma ZeroBatchesThrow(net: Net, grad: GradFn, t: Trained, epochs: int, pick: (nat, nat) -> nat, lr: real)
    requires KeepsShapes(net, grad) && Ready(net, t.p) && DrawsEach(pick)
    requires 2 <= |t.data| <= |t.res| && 0 < epochs
    requires forall k :: 0 <= k < |t.data| ==> grad(t.p, t.data[k], t.res[k]).Success?
    ensures Epochs(net, grad, t, 0, epochs, pick, 0, lr) == Failure(DivisionByZero)
  {
    var n, draw := |t.data|, Draw(pick, 0);
    var data, res := Mnist.ShuffleSeq(t.data, draw), Mnist.ShuffleSeq(t.res[..n], draw) + t.res[n..];
    assert Mnist.ShuffleBoth(t.data, t.res, draw) == Success((data, res));
    forall k | 0 <= k < n
      ensures grad(t.p, data[k], res[k]).Success?
    {
      Mnist.ShuffleKeepsPairs(t.data, t.res[..n], draw, k);
    }
    var st0 := Progress(t.p, ZerosLike(t.p));
    var g0 := grad(t.p, data[0], res[0]).value;
    assert UpdateAfter(0, n, 0) == Success(false);
    var st1 := Progress(t.p, AddAll(st0.acc, g0));
    assert RunTo(net, grad, t.p, data, res, 0, lr, 1) == Success(st1);
    assert RunTo(net, grad, t.p, data, res, 0, lr, 2) == Failure(DivisionByZero);
    FailurePersists(net, grad, t.p, data, res, 0, lr, 2, n);
    assert Epoch(net, grad, t, draw, 0, lr) == Failure(DivisionByZero);
  }

  /** In particular `train` itself throws with batches == 0 once two examples fit the network. */
  lemma ZeroBatchesThrowInTrain(net: Net, t: Trained, epochs: int, pick: (nat, nat) -> nat, lr: real)
    requires Ready(net, t.p) && DrawsEach(pick) && |net.layers| >= 2
    requires 2 <= |t.data| <= |t.res| && 0 < epochs
    requires forall k :: 0 <= k < |t.data| ==> Fits(net, t.data[k], t.res[k])
    ensures Epochs(net, Backpropagation(net), t, 0, epochs, pick, 0, lr) == Failure(DivisionByZero)
  {
    var grad := Backpropagation(net);
    forall k | 0 <= k < |t.data|
      ensures grad(t.p, t.data[k], t.res[k]).Success?
    {
      FitsBackprop(net, t.p, t.data[k], t.res[k]);
    }
    ZeroBatchesThrow(net, grad, t, epochs, pick, lr);
  }

  /**
   * The gradients of the examples lo .. hi - 1, all taken at the same parameters p, added to acc
   * in order; the exceptions are those of the loop body.
   */
  function GradSum(net: Net, grad: GradFn, p: Params, data: seq<A.Mat>, res: seq<A.Mat>, acc: Params, lo: nat, hi: nat): (r: Result<Params>)
    requires KeepsShapes(net, grad)
    requires Ready(net, p) && SameShapes(p, acc) && lo <= hi <= |data|
    ensures r.Success? ==> SameShapes(p, r.value)
    decreases hi - lo
  {
    if hi == lo then Success(acc)
    else
      var s :- GradSum(net, grad, p, data, res, acc, lo, hi - 1);
      if hi - 1 >= |res| then Failure(IndexOutOfRange)
      else
        var g :- grad(p, data[hi - 1], res[hi - 1]);
        SameShapesTrans(s, p, g);
        SameShapesTrans(p, s, AddAll(s, g));
        Success(AddAll(s, g))
  }

  /** The epoch state that holds the parameters p and the accumulators of a gradient sum. */
  function Holding(p: Params, sum: Result<Params>): Result<Progress>
  {
    if sum.Success? then Success(Progress(p, sum.value)) else Failure(sum.error)
  }

  lemma RunToUnfold(net: Net, grad: GradFn, p0: Params, data: seq<A.Mat>, res: seq<A.Mat>, batches: int, lr: real, k: nat)
    requires KeepsShapes(net, grad)
    requires Ready(net, p0) && 0 < k <= |data|
    ensures var prev := RunTo(net, grad, p0, data, res, batches, lr, k - 1);
      RunTo(net, grad, p0, data, res, batches, lr, k) ==
        if prev.Failure? then prev
        else if k - 1 >= |res| then Failure(IndexOutOfRange)
        else Step(net, grad, prev.value, data[k - 1], res[k - 1], k - 1, |data|, batches, lr)
  {
  }

  lemma GradSumUnfold(net: Net, grad: GradFn, p: Params, data: seq<A.Mat>, res: seq<A.Mat>, acc: Params, lo: nat, hi: nat)
    requires KeepsShapes(net, grad)
    requires Ready(net, p) && SameShapes(p, acc) && lo < hi <= |data|
    ensures var prev := GradSum(net, grad, p, data, res, acc, lo, hi - 1);
      GradSum(net, grad, p, data, res, acc, lo, hi) ==
        if prev.Failure? then prev
        else if hi - 1 >= |res| then Failure(IndexOutOfRange)
        else
          var g := grad(p, data[hi - 1], res[hi - 1]);
          if g.Failure? then Failure(g.error) else (SameShapesTrans(prev.value, p, g.value); Success(AddAll(prev.value, g.value)))
  {
  }

  /** One example inside a batch: adding its gradients keeps the state equal to the gradient sum. */
  lemma WithinBatchStep(net: Net, grad: GradFn, p0: Params, data: seq<A.Mat>, res: seq<A.Mat>, batches: int, lr: real, lo: nat, k: nat, st: Progress)
    requires KeepsShapes(net, grad)
    requires Ready(net, p0) && Ready(net, st.p) && SameShapes(st.p, st.acc) && lo < k <= |data|
    requires UpdateAfter(k - 1, |data|, batches) == Success(false)
    requires RunTo(net, grad, p0, data, res, batches, lr, k - 1) == Holding(st.p, GradSum(net, grad, st.p, data, res, st.acc, lo, k - 1))
    ensures RunTo(net, grad, p0, data, res, batches, lr, k) == Holding(st.p, GradSum(net, grad, st.p, data, res, st.acc, lo, k))
  {
    RunToUnfold(net, grad, p0, data, res, batches, lr, k);
    GradSumUnfold(net, grad, st.p, data, res, st.acc, lo, k);
    var prev := RunTo(net, grad, p0, data, res, batches, lr, k - 1);
    var sum := GradSum(net, grad, st.p, data, res, st.acc, lo, k - 1);
    if prev.Success? && k - 1 < |res| {
      var s := sum.value;
      var g := grad(st.p, data[k - 1], res[k - 1]);
      assert prev.value == Progress(st.p, s);
      if g.Success? {
        assert RunTo(net, grad, p0, data, res, batches, lr, k) == Success(Progress(st.p, AddAll(s, g.value)));
      }
    }
  }

  /** Inside a batch the parameters stay put and the accumulators collect the gradients. */
  lemma WithinBatch(net: Net, grad: GradFn, p0: Params, data: seq<A.Mat>, res: seq<A.Mat>, batches: int, lr: real, lo: nat, k: nat, st: Progress)
    requires KeepsShapes(net, grad)
    requires Ready(net, p0) && lo <= k <= |data|
    requires RunTo(net, grad, p0, data, res, batches, lr, lo) == Success(st)
    requires forall i :: lo <= i < k ==> UpdateAfter(i, |data|, batches) == Success(false)
    ensures Ready(net, st.p) && SameShapes(st.p, st.acc)
    ensures RunTo(net, grad, p0, data, res, batches, lr, k) == Holding(st.p, GradSum(net, grad, st.p, data, res, st.acc, lo, k))
  {
    assert GradSum(net, grad, st.p, data, res, st.acc, lo, lo) == Success(st.acc);
    var j := lo;
    while j < k
      invariant lo <= j <= k
      invariant RunTo(net, grad, p0, data, res, batches, lr, j) == Holding(st.p, GradSum(net, grad, st.p, data, res, st.acc, lo, j))
    {
      WithinBatchStep(net, grad, p0, data, res, batches, lr, lo, j + 1, st);
      j := j + 1;
    }
  }

  /**
   * When a batch closes after example k, every weight and bias becomes itself minus lr times the
   * sum of the gradients since the last update (not divided by the batch size), all taken at the
   * same parameters, and the accumulators become zero.
   */
  lemma BatchUpdate(net: Net, grad: GradFn, p0: Params, data: seq<A.Mat>, res: seq<A.Mat>, batches: int, lr: real, lo: nat, k: nat, st: Progress)
    requires KeepsShapes(net, grad)
    requires Ready(net, p0) && lo <= k < |data|
    requires RunTo(net, grad, p0, data, res, batches, lr, lo) == Success(st)
    requires forall i :: lo <= i < k ==> UpdateAfter(i, |data|, batches) == Success(false)
    requires UpdateAfter(k, |data|, batches) == Success(true)
    requires RunTo(net, grad, p0, data, res, batches, lr, k + 1).Success?
    ensures GradSum(net, grad, st.p, data, res, st.acc, lo, k + 1).Success?
    ensures var s := GradSum(net, grad, st.p, data, res, st.acc, lo, k + 1).value;
      RunTo(net, grad, p0, data, res, batches, lr, k + 1).value == Progress(Descend(st.p, s, lr), ZerosLike(s))
  {
    WithinBatch(net, grad, p0, data, res, batches, lr, lo, k, st);
  }
}
