# MNIST neural network, modelled in Dafny

This project models the numeric core of a small Java program that trains a fully connected
feed-forward neural network on the MNIST handwritten-digit database. It covers four parts:

- **The mutable `Matrix` class** (`src/utils/Matrix.java`). A matrix holds `rows`, `cols` and a
  row-major `double[]`. Its instance and static operations write into a destination matrix, or
  into a new one when the destination is `null`, and throw `RuntimeException`s on bad shapes or
  indices.
- **`NeuralNetwork`** (`src/net/NeuralNetwork.java`), which covers:
  - construction, activation strategies and random initialisation;
  - the forward pass `process`;
  - single-example `backpropagate`;
  - mini-batch gradient descent `train`.
- **The helpers of `MNIST`** (`src/utils/MNIST.java`):
  - the joint in-place shuffle of inputs and targets;
  - the magic-number check;
  - the IDX label and image decoders, working over the bytes of a file;
  - `renderImage` and `repeat`.
- **The strategy objects** `Cost`, `Activation` and `Derivative`.

The modules are:

| module | file | what it holds |
|---|---|---|
| `MatrixAlgebra` | `matrix_algebra.dfy` | Matrix values with exact `real` entries. There is one function per Java static operation; it returns the result or the exception thrown. Laws of the products and of transposition. |
| `Matrices` | `matrix.dfy` | The class `Matrix` over an `array<real>`. Every instance and static method is proved against `MatrixAlgebra` through the ghost view `Entries()`. |
| `Propagation` | `propagation.dfy` | The mathematics of `process` and `backpropagate`: activations, weighted sums, error terms, gradients. |
| `Training` | `training.dfy` | `train` as functions: one example step, the batch boundaries, one epoch, all epochs. Lemmas on what batches do. |
| `Network` | `neural_network.dfy` | The class `NeuralNetwork`. Its imperative methods are proved against `Propagation` and `Training`. |
| `Mnist` | `mnist.dfy` | Shuffle (array method and its sequence specification), IDX decoding through a `ByteBuffer` model, rendering. |
| `Costs`, `Activations`, `Derivatives` | `cost.dfy`, `activation.dfy`, `derivative.dfy` | The scalar strategies. |
| `Results`, `FlatIndex` | `results.dfy`, `flat_index.dfy` | Exceptions as values; arithmetic of the index `i * cols + j`. |

Each Java exception the core raises is a value of `Results.Error`:

| Error | Java exception |
|---|---|
| `OutOfBound` | "Out of matrix bound" |
| `SizeMismatch` | the shape checks |
| `InvalidArraySize` | the size check of the matrix constructor |
| `IndexOutOfRange` | `ArrayIndexOutOfBoundsException` |
| `NegativeArraySize` | `NegativeArraySizeException` |
| `DivisionByZero` | `ArithmeticException` |
| `BufferUnderflow` | `BufferUnderflowException` |
| `NotLabelFile`, `NotImageFile`, `MagicMismatch` | the messages of `assertMagicNumber` |

An operation that may throw returns a `Result` (a value) or an `Outcome` (for a `void` method).

Four behaviours of the code are easy to misread, and the model follows the code in each:

- **`shuffle` is Sattolo's variant of Fisher–Yates.** `nextInt(i)` draws from `[0, i)`, so each step swaps position i with a strictly earlier position. The last cell always moves (`Mnist.LastCellMoves`), and for two or more elements the identity order never comes out.
- **The first batch is one example larger.** The test `i > 0 && i % batches == 0` closes the first batch after `batches + 1` examples and every later one after `batches` (`Training.BatchBoundaries`).
- **`batches == 0` throws.** The remainder `i % batches` throws `ArithmeticException` at the second example (`Training.ZeroBatchesThrowInTrain`).
- **`transpose()` fails on every non-square matrix that is not a vector.** The static `transpose` rejects every non-square matrix, and the instance method calls it for everything but vectors (`Matrices.Matrix.Transpose`).

## Model

| member | source | states |
|---|---|---|
| Activations.Identity | src/utils/Activation.java:8-13 | the identity activation returns its input unchanged |
| Activations.ReLU | src/utils/Activation.java:28-33 | ReLU(v) is the larger of 0 and v: never negative, never below v, v on the non-negative inputs and 0 on the non-positive ones |
| Activations.LeakyReLU | src/utils/Activation.java:38-43 | LeakyReLU(v) is never below v, is v or 0.01 v, and is positive exactly when v is |
| Activations.ReLUIdempotent | src/utils/Activation.java:30-32 | applying ReLU twice is applying it once |
| Activations.LeakyReLUPiecewise | src/utils/Activation.java:40-42 | max(0.01 v, v) is v on non-negative inputs and 0.01 v on negative ones |
| Activations.LeakyReLUKeepsSign | src/utils/Activation.java:40-42 | LeakyReLU is positive, negative or zero exactly when its input is |
| Activations.Monotone | src/utils/Activation.java:8-43 | Identity, ReLU and LeakyReLU are monotone |
| Activations.LeakyReLUBelowReLU | src/utils/Activation.java:28-43 | LeakyReLU never exceeds ReLU, and the two agree iff the input is non-negative |
| Derivatives.Identity | src/utils/Derivative.java:8-13 | the slope 1 of the identity activation: Identity activation(v) == d * v |
| Derivatives.ReLU | src/utils/Derivative.java:28-33 | the slope of ReLU: ReLU(v) == d * v, d is 0 or 1, and 1 exactly from 0 upwards |
| Derivatives.LeakyReLU | src/utils/Derivative.java:35-40 | the slope of LeakyReLU: LeakyReLU(v) == d * v, and d lies in (0, 1] |
| Derivatives.Sigmoid | src/utils/Derivative.java:18-23 | s(v)(1 - s(v)) is at most 1/4, and positive when the sigmoid value s(v) lies in (0, 1) |
| Derivatives.SmoothReLU | src/utils/Derivative.java:42-47 | the derivative of SmoothReLU is the sigmoid activation itself |
| Costs.QuadraticGradient | src/utils/Cost.java:7-9 | pro(sub(out, res), vec(sum, d)) succeeds when res and sum cover out, and entry (i, j) is (out - res)(i, j) * d(sum(i, j)) |
| Costs.D | src/utils/Cost.java:5-17 | cost.d succeeds iff the target (and for QUADRATIC the sums) cover the output, else throws the bounds error; the result has the output's shape and holds the quadratic gradient or the difference out - res |
| Costs.QuadraticWithIdentityIsCrossEntropy | src/utils/Cost.java:5-17 | with the identity derivative the two costs give the same gradient |
| Costs.CrossEntropyIgnoresSum | src/utils/Cost.java:14-16 | the cross-entropy gradient depends on neither the sums nor the derivative |
| Costs.LargerTargetAccepted | src/utils/Cost.java:5-17 | a target at least as large as the output is always accepted |
| Costs.SmallerTargetRejected | src/utils/Cost.java:5-17 | a non-empty output with a target missing a row or column throws "Out of matrix bound" |
| MatrixAlgebra.Zeros | src/utils/Matrix.java:18-22 | a new r-by-c matrix has every entry 0 |
| MatrixAlgebra.Filled | src/utils/Matrix.java:62-70 | the r-by-c matrix with every entry x |
| MatrixAlgebra.FilledAt | src/utils/Matrix.java:62-70 | every in-range entry of a filled matrix is the fill value |
| MatrixAlgebra.ZerosAreFilled | src/utils/Matrix.java:54-70 | clearing a matrix is filling it with 0 |
| MatrixAlgebra.IdentityMat | src/utils/Matrix.java:319-327 | 1 on the diagonal and 0 elsewhere |
| MatrixAlgebra.Updated | src/utils/Matrix.java:40-45 | after set, entry (row, col) is the new value and every other entry is kept |
| MatrixAlgebra.TransposeOnto | src/utils/Matrix.java:82-93 | the destination after the loop of the static transpose: d(j, i) = m(i, j) inside m's block, everything else kept |
| MatrixAlgebra.TransposeOntoSquare | src/utils/Matrix.java:82-93 | onto a destination of m's square shape the loop yields exactly the transpose |
| MatrixAlgebra.ZipWith | src/utils/Matrix.java:106-121 | the matrix of a's shape with entry op(a(i, j), b(i, j)) |
| MatrixAlgebra.Descent | src/net/NeuralNetwork.java:192-197 | scl then sub yields a - s g entry by entry |
| MatrixAlgebra.Product | src/utils/Matrix.java:202-217 | entry (i, j) of a . b is the sum over k of a(i, k) b(k, j) |
| MatrixAlgebra.ProductTA | src/utils/Matrix.java:229-241 | entry (i, j) is the sum down the shared rows of a(k, i) b(k, j) |
| MatrixAlgebra.ProductTB | src/utils/Matrix.java:251-264 | entry (i, j) is the sum along the shared columns of a(i, k) b(j, k) |
| MatrixAlgebra.Transposed | src/utils/Matrix.java:72-93 | dimensions swapped and entry (i, j) is a(j, i) |
| MatrixAlgebra.ColColAsRowCol | src/utils/Matrix.java:229-241 | the column-column sum equals the row-column sum against any matrix holding a's columns as rows |
| MatrixAlgebra.RowRowAsRowCol | src/utils/Matrix.java:251-264 | the row-row sum equals the row-column sum against any matrix holding b's rows as columns |
| MatrixAlgebra.ColColIsRowColOfTranspose | src/utils/Matrix.java:229-241 | the inner sum of multiplyTransposeA is an inner sum of the transpose times b |
| MatrixAlgebra.RowRowIsRowColOfTranspose | src/utils/Matrix.java:251-264 | the inner sum of multiplyTransposeB is an inner sum of a times the transpose |
| MatrixAlgebra.ProductTAIsProductOfTranspose | src/utils/Matrix.java:229-241 | multiplyTransposeA computes aᵀ . b |
| MatrixAlgebra.ProductTBIsProductWithTranspose | src/utils/Matrix.java:251-264 | multiplyTransposeB computes a . bᵀ |
| MatrixAlgebra.AffineImage | src/net/NeuralNetwork.java:97-108 | vec(add(dot(w, a), b), f) is f(w . a + b) neuron by neuron |
| MatrixAlgebra.OuterProduct | src/utils/Matrix.java:244-264 | for column vectors, entry (i, j) of u . vᵀ is u(i) v(j) |
| MatrixAlgebra.OuterProducts | src/utils/Matrix.java:244-264 | u . vᵀ of two column vectors is their outer product |
| MatrixAlgebra.TransposeTwice | src/utils/Matrix.java:72-93 | transposing twice gives back the matrix |
| MatrixAlgebra.VectorTransposeKeepsEntries | src/utils/Matrix.java:72-80 | a vector and its transpose share the row-major entries, which justifies returning the same array |
| MatrixAlgebra.HadamardWithOnes | src/utils/Matrix.java:279-293 | the entrywise product with the all-ones matrix is the identity |
| MatrixAlgebra.IdentityProduct | src/utils/Matrix.java:319-327 | getIdentity times a is a |
| MatrixAlgebra.IdentityRowCol | src/utils/Matrix.java:319-327 | a partial inner sum against the identity picks a(i, j) once i is reached |
| MatrixAlgebra.FirstMaxUnique | src/utils/Matrix.java:376-390 | at most one position is the first maximum, so max's answer is determined |
| MatrixAlgebra.Add | src/utils/Matrix.java:106-121 | add succeeds iff the operands have one shape and a given dst has it too, else throws the size error; entry (i, j) is a(i, j) + b(i, j) |
| MatrixAlgebra.Sub | src/utils/Matrix.java:136-150 | with a null dst sub succeeds iff b covers a, else throws the bounds error; with a given dst iff all three shapes agree, else the size error; entry (i, j) is a(i, j) - b(i, j) |
| MatrixAlgebra.Pro | src/utils/Matrix.java:279-293 | checked as sub; entry (i, j) is a(i, j) * b(i, j) |
| MatrixAlgebra.Scl | src/utils/Matrix.java:180-193 | succeeds iff a given dst has src's shape, else the size error; entry (i, j) is val * src(i, j) |
| MatrixAlgebra.Vec | src/utils/Matrix.java:346-374 | succeeds iff a given dst has m's shape, else the size error; entry (i, j) is f(m(i, j)) |
| MatrixAlgebra.HadamardDivision | src/utils/Matrix.java:306-317 | succeeds iff a, b and dst share one shape, else the size error; entry (i, j) is a(i, j) / b(i, j) |
| MatrixAlgebra.Dot | src/utils/Matrix.java:202-217 | dot succeeds iff the inner dimensions agree and a given dst has the product's shape, else the size error; the result is rows(a) by cols(b) with entry (i, j) the sum over k of a(i, k) b(k, j) |
| MatrixAlgebra.MultiplyTransposeA | src/utils/Matrix.java:229-241 | succeeds iff a and b have the same rows and dst is cols(a) by cols(b), else the size error; entry (i, j) is the sum down the rows of a(k, i) b(k, j) |
| MatrixAlgebra.MultiplyTransposeB | src/utils/Matrix.java:251-264 | succeeds iff a and b have the same columns and dst is rows(a) by rows(b), else the size error; entry (i, j) is the sum along the columns of a(i, k) b(j, k) |
| MatrixAlgebra.NullDestinationSkipsShapeCheck | src/utils/Matrix.java:106-150 | add rejects differing shapes whatever dst is; sub and pro accept a larger second operand with a null dst and reject it with a given dst |
| MatrixAlgebra.NullDestinationSmallerOperand | src/utils/Matrix.java:136-150 | with a null dst a smaller second operand fails on bounds |
| Matrices.Matrix.Wrap | src/utils/Matrix.java:9-16 | the object holds the given array and dimensions |
| Matrices.Matrix.Zero | src/utils/Matrix.java:18-22 | a new zero-filled rows-by-cols matrix over a fresh array |
| Matrices.Matrix.WithinRange | src/utils/Matrix.java:36-38 | a position within range addresses a cell of the row-major array: its column is below cols and row * cols + column lies in [0, rows * cols) |
| Matrices.Matrix.Get | src/utils/Matrix.java:47-52 | returns entry (row, column) iff within range, else throws "Out of matrix bound" |
| Matrices.Matrix.Set | src/utils/Matrix.java:40-45 | changes exactly entry (row, column) when within range; otherwise throws and changes nothing |
| Matrices.Matrix.Fill | src/utils/Matrix.java:62-70 | every entry becomes a |
| Matrices.Matrix.Clear | src/utils/Matrix.java:54-60 | every entry becomes 0 |
| Matrices.Matrix.Transpose | src/utils/Matrix.java:72-80 | succeeds iff a vector or square; a vector is returned over the same array, a square matrix as a fresh copy, with the transposed entries |
| Matrices.Matrix.Add | src/utils/Matrix.java:95-100 | a fresh matrix holding this + m, or the exception of the static add |
| Matrices.Matrix.AddSelf | src/utils/Matrix.java:102-104 | this becomes this + m; on an exception nothing changes |
| Matrices.Matrix.Sub | src/utils/Matrix.java:125-130 | a fresh matrix holding this - m, or the exception of the static sub |
| Matrices.Matrix.SubtractSelf | src/utils/Matrix.java:132-134 | this becomes this - m; on an exception nothing changes |
| Matrices.Matrix.GetMultipliedEntry | src/utils/Matrix.java:152-154 | entry (row, column) of this . m, under the static method's bounds conditions; a matrix without columns yields 0 for any row and column |
| Matrices.Matrix.Multiply | src/utils/Matrix.java:169-174 | a fresh matrix scalar . this; cannot throw |
| Matrices.Matrix.MultiplySelf | src/utils/Matrix.java:176-178 | this becomes scalar . this |
| Matrices.Matrix.Dot | src/utils/Matrix.java:195-200 | a fresh matrix this . m, or SizeMismatch |
| Matrices.Matrix.MultiplyTransposeSelf | src/utils/Matrix.java:222-227 | a fresh matrix thisᵀ . m, or the exception |
| Matrices.Matrix.MultiplyTransposeM | src/utils/Matrix.java:244-249 | a fresh matrix this . mᵀ, or the exception |
| Matrices.Matrix.HadamardProduct | src/utils/Matrix.java:268-273 | a fresh matrix holding the entrywise product |
| Matrices.Matrix.HadamardProductSelf | src/utils/Matrix.java:275-277 | this becomes the entrywise product; on an exception nothing changes |
| Matrices.Matrix.HadamardDivision | src/utils/Matrix.java:295-300 | a fresh matrix holding the entrywise quotient |
| Matrices.Matrix.HadamardDivisionSelf | src/utils/Matrix.java:302-304 | this becomes the entrywise quotient; on an exception nothing changes |
| Matrices.Matrix.Vectorize | src/utils/Matrix.java:335-340 | a fresh matrix with f applied to every entry |
| Matrices.Matrix.VectorizeSelf | src/utils/Matrix.java:342-344 | f applied to every entry in place |
| Matrices.Matrix.Equals | src/utils/Matrix.java:392-405 | true iff same dimensions and same entries |
| Matrices.FromValues | src/utils/Matrix.java:9-16 | succeeds iff values.length == rows * cols, else InvalidArraySize |
| Matrices.ZipInto | src/utils/Matrix.java:106-121 | the shared double loop leaves dst = op(a, b) entrywise, even when dst is a or b |
| Matrices.ZipRow | src/utils/Matrix.java:115-119 | one row of the double loop: that row is written, earlier rows kept, later ones untouched |
| Matrices.ZipEntry | src/utils/Matrix.java:117 | one entry of dst is written, read before write |
| Matrices.Add | src/utils/Matrix.java:106-121 | the static add returns dst (or a new matrix) holding a + b, or the exception; a given dst is untouched on failure |
| Matrices.Sub | src/utils/Matrix.java:136-150 | the static sub, with its shape check only when dst is given |
| Matrices.Scl | src/utils/Matrix.java:180-193 | every entry of src times val, into dst or a new matrix |
| Matrices.Pro | src/utils/Matrix.java:279-293 | the entrywise product, checked like sub |
| Matrices.HadamardDivision | src/utils/Matrix.java:306-317 | the entrywise quotient into dst |
| Matrices.Vec | src/utils/Matrix.java:346-374 | f applied to every entry, for both the Activation and the Derivative overload |
| Matrices.GetMultipliedEntry | src/utils/Matrix.java:156-167 | the inner sum over a's columns, throwing on the first out-of-range get; 0 when a has no columns |
| Matrices.Dot | src/utils/Matrix.java:202-217 | succeeds iff the shapes agree; the product is promised when dst shares storage with neither operand |
| Matrices.DotRow | src/utils/Matrix.java:212-214 | one row of the product written, earlier rows kept |
| Matrices.ColumnTotal | src/utils/Matrix.java:234-237 | the inner loop of multiplyTransposeA sums a(k, i) b(k, j) |
| Matrices.RowTotal | src/utils/Matrix.java:257-260 | the inner loop of multiplyTransposeB sums a(i, k) b(j, k) |
| Matrices.MultiplyTransposeA | src/utils/Matrix.java:229-241 | succeeds iff the shapes agree and then dst holds aᵀ . b |
| Matrices.MultiplyTransposeB | src/utils/Matrix.java:251-264 | succeeds iff the shapes agree and then dst holds a . bᵀ |
| Matrices.Transpose | src/utils/Matrix.java:82-93 | rejects a non-square m without writing; a dst too small throws on bounds; otherwise dst receives the transpose |
| Matrices.GetIdentity | src/utils/Matrix.java:319-327 | a fresh identity matrix |
| Matrices.GetZero | src/utils/Matrix.java:329-333 | a fresh square zero matrix |
| Matrices.Max | src/utils/Matrix.java:376-390 | the position of the first largest entry in row-major order; (0, 0) for an empty matrix |
| Propagation.Act | src/net/NeuralNetwork.java:95-111 | the activations of layer n have one entry per neuron of that layer |
| Propagation.Sum | src/net/NeuralNetwork.java:127-131 | the weighted sums of layer n + 1 have one entry per neuron of that layer |
| Propagation.Output | src/net/NeuralNetwork.java:95-111 | the output has one entry per output neuron |
| Propagation.LayerEntries | src/net/NeuralNetwork.java:97-108 | each layer's activations are act(w . a + b) neuron by neuron |
| Propagation.ActStep | src/net/NeuralNetwork.java:127-134 | one layer of the forward pass, with the shapes of its weights and biases |
| Propagation.Delta | src/net/NeuralNetwork.java:135-145 | the error term of each layer has one entry per neuron |
| Propagation.WeightGradient | src/net/NeuralNetwork.java:137-144 | each weight gradient has the shape of its weight matrix |
| Propagation.Gradients | src/net/NeuralNetwork.java:117-146 | the gradients have the shapes of the weights and biases |
| Propagation.GradientsFrom | src/net/NeuralNetwork.java:139-146 | the gradients of the layers from lo up, one per layer |
| Propagation.GradientsFromCons | src/net/NeuralNetwork.java:139-145 | the downward loop prepends the gradients of layer lo to those above it |
| Propagation.GradientsFromAt | src/net/NeuralNetwork.java:139-146 | position i - lo holds the weight gradient and the error term of layer i |
| Propagation.GradientsShaped | src/net/NeuralNetwork.java:117-146 | every gradient has the shape of the weight or bias it belongs to |
| Propagation.Backprop | src/net/NeuralNetwork.java:117-146 | backpropagate succeeds iff there are at least two layers, the input has the input layer's shape and the target covers the output; otherwise it throws the matching exception; the gradients have the parameters' shapes |
| Propagation.WeightGradientIsOuterProduct | src/net/NeuralNetwork.java:137-144 | each weight gradient is the error term times the activations below, transposed |
| Propagation.OutputGradientIsCostDerivative | src/net/NeuralNetwork.java:135-136 | the output bias gradient is cost.d of the output against the target |
| Propagation.HiddenDeltaUsesTranspose | src/net/NeuralNetwork.java:139-143 | a hidden error term is (w_{n+1}ᵀ . delta_{n+1}) entrywise times der(z_n) |
| Training.Backpropagation | src/net/NeuralNetwork.java:177 | the gradient function of train is backpropagate and keeps shapes |
| Training.ZerosLike | src/net/NeuralNetwork.java:163-170 | the accumulators have the parameters' shapes and are all zero |
| Training.AddAll | src/net/NeuralNetwork.java:181-184 | adding gradients keeps the accumulators' shapes |
| Training.Descend | src/net/NeuralNetwork.java:189-202 | an update keeps the parameters' shapes |
| Training.DescendAt | src/net/NeuralNetwork.java:189-202 | an update moves every weight and bias by minus the learning rate times its accumulated gradient |
| Training.UpdateAfter | src/net/NeuralNetwork.java:187 | the batch test throws iff i > 0 and batches == 0, and always closes a batch at the last example |
| Training.BatchBoundaries | src/net/NeuralNetwork.java:187 | before the last example, batches close after examples batches, 2 batches, ... |
| Training.Step | src/net/NeuralNetwork.java:173-203 | one example keeps the network ready and the shapes, and throws iff backpropagation throws or the batch test divides by zero |
| Training.RunTo | src/net/NeuralNetwork.java:173-204 | the state after the first i examples keeps the network ready and the shapes |
| Training.FailurePersists | src/net/NeuralNetwork.java:173-204 | once an example throws, the epoch throws the same exception |
| Training.Epoch | src/net/NeuralNetwork.java:155-204 | one epoch keeps the network ready, the shapes and the lengths of the two arrays |
| Training.Epochs | src/net/NeuralNetwork.java:152-209 | all epochs keep the network ready, the shapes and the array lengths |
| Training.NoDataNoChange | src/net/NeuralNetwork.java:152-209 | without examples, training changes nothing |
| Training.FitsBackprop | src/net/NeuralNetwork.java:117-146 | backpropagate succeeds on every example that fits the network |
| Training.ZeroBatchesThrow | src/net/NeuralNetwork.java:187 | with batches == 0 and at least two good examples, training throws ArithmeticException |
| Training.ZeroBatchesThrowInTrain | src/net/NeuralNetwork.java:152-209 | the same for train itself, whenever two examples fit the network |
| Training.GradSum | src/net/NeuralNetwork.java:173-184 | the running gradient sum keeps the parameters' shapes |
| Training.WithinBatch | src/net/NeuralNetwork.java:173-187 | inside a batch the parameters stay put and the accumulators collect the gradients |
| Training.WithinBatchStep | src/net/NeuralNetwork.java:177-187 | one example inside a batch adds its gradient to the sum |
| Training.BatchUpdate | src/net/NeuralNetwork.java:186-202 | at a batch boundary the parameters descend by the batch's gradient sum and the accumulators are cleared |
| Network.NeuralNetwork.constructor | src/net/NeuralNetwork.java:49-55 | stores the sizes and the cost, with no layers allocated yet |
| Network.NeuralNetwork.Activate | src/net/NeuralNetwork.java:60-63 | sets the strategies and nothing else |
| Network.NeuralNetwork.Initialize | src/net/NeuralNetwork.java:68-90 | every layer gets shaped weights and biases, biases drawn and weights drawn then divided by sqrt(fan-in) |
| Network.NeuralNetwork.InitialLayer | src/net/NeuralNetwork.java:74-88 | layer i drawn as initialize does |
| Network.NeuralNetwork.Process | src/net/NeuralNetwork.java:95-111 | returns the network's output iff the input has the input layer's shape, else SizeMismatch |
| Network.NeuralNetwork.Backpropagate | src/net/NeuralNetwork.java:117-146 | returns exactly Propagation.Backprop, including its exceptions |
| Network.NeuralNetwork.Backward | src/net/NeuralNetwork.java:135-146 | the downward loop produces the gradients of every layer |
| Network.NeuralNetwork.BackStep | src/net/NeuralNetwork.java:140-144 | one downward step yields the error term and weight gradient of layer i |
| Network.NeuralNetwork.Forward | src/net/NeuralNetwork.java:123-134 | the weighted sums and activations of every layer, or SizeMismatch iff the input is misshaped |
| Network.NeuralNetwork.Train | src/net/NeuralNetwork.java:152-209 | succeeds iff Training.Epochs does; then the parameters and both arrays are those it computes |
| Network.NeuralNetwork.TrainEpoch | src/net/NeuralNetwork.java:155-204 | one epoch as Training.Epoch computes it |
| Network.NeuralNetwork.TrainExamples | src/net/NeuralNetwork.java:173-204 | the example loop as Training.RunTo computes it |
| Network.NeuralNetwork.NewAccumulators | src/net/NeuralNetwork.java:163-170 | zero matrices of the parameters' shapes |
| Network.NeuralNetwork.TrainStep | src/net/NeuralNetwork.java:177-203 | one example as Training.Step computes it |
| Network.NeuralNetwork.Update | src/net/NeuralNetwork.java:189-202 | the parameters descend by the accumulated gradients and the accumulators are cleared |
| Network.AddInto | src/net/NeuralNetwork.java:181-184 | every accumulator gains its layer's gradient |
| Network.AddLayer | src/net/NeuralNetwork.java:182-183 | add(gradient, delta, gradient) on one layer is the entrywise sum |
| Network.DescendLayer | src/net/NeuralNetwork.java:192-197 | scl then sub on one layer is w - lr g |
| Network.Create | src/net/NeuralNetwork.java:49-55 | an empty sizes array throws NegativeArraySize; otherwise a new network with no layers allocated |
| Mnist.AssertMagicNumber | src/utils/MNIST.java:94-105 | passes iff the numbers agree; otherwise the error names a label file, an image file, or both numbers |
| Mnist.Swap | src/utils/MNIST.java:71-76 | cells i and r exchange, all others kept |
| Mnist.Shuffled | src/utils/MNIST.java:69-77 | the loop steps i .. 1 keep the length |
| Mnist.ShuffleSeq | src/utils/MNIST.java:67-78 | the whole loop keeps the length |
| Mnist.ShuffleBoth | src/utils/MNIST.java:67-78 | shuffle of two arrays succeeds iff a has at most one cell or b is at least as long, else IndexOutOfRange |
| Mnist.Shuffle | src/utils/MNIST.java:67-78 | the in-place method: a becomes its shuffle, b's first |a| cells the same shuffle, b's tail untouched; a short b throws before any write |
| Mnist.SwapStep | src/utils/MNIST.java:71-76 | the writes of one step swap the same two cells in both arrays |
| Mnist.ShuffledPermutes | src/utils/MNIST.java:69-77 | the loop steps keep the multiset of elements |
| Mnist.SwapPermutes | src/utils/MNIST.java:71-76 | one swap keeps the multiset of elements |
| Mnist.ShuffledFollowsIndices | src/utils/MNIST.java:69-77 | the steps move cells by an index map that depends only on the draws |
| Mnist.Permutation | src/utils/MNIST.java:67-78 | the index map of a shuffle of n cells |
| Mnist.ShuffleIsPermutation | src/utils/MNIST.java:67-78 | the shuffle permutes the elements; cell k comes from cell Permutation[k]; that map is a permutation of 0 .. n - 1 |
| Mnist.ShuffleKeepsPairs | src/utils/MNIST.java:67-78 | after shuffling, input k and target k come from one common original index |
| Mnist.ShuffledKeepsAbove | src/utils/MNIST.java:69-77 | steps i .. 1 leave the cells above i alone |
| Mnist.LastCellMoves | src/utils/MNIST.java:69-70 | the last cell receives the cell of the first draw, which lies below it |
| Mnist.Signed | src/utils/MNIST.java:42 | get() yields the byte as a signed value in [-128, 128) |
| Mnist.UnsignedUndoesSigned | src/utils/MNIST.java:42 | & 0xFF recovers the file byte, and signed bytes are distinct |
| Mnist.Int32At | src/utils/MNIST.java:36-38 | getInt yields a signed 32-bit value |
| Mnist.BigEndian | src/utils/MNIST.java:36-38 | the four bytes storing a 32-bit int |
| Mnist.Int32RoundTrip | src/utils/MNIST.java:36-38 | getInt reads back what BigEndian writes |
| Mnist.DecodeLabels | src/utils/MNIST.java:32-47 | a decoded label file has the label magic number, the stated count and labels in 0 .. 255; decoding succeeds iff the magic matches, the count is non-negative and the file holds 8 + count bytes; otherwise it throws the magic error for a wrong magic, NegativeArraySize for a negative count, and BufferUnderflow for a truncated header or label block |
| Mnist.EncodeLabels | src/utils/MNIST.java:32-47 | a label file is 8 header bytes plus one byte per label |
| Mnist.LabelsRoundTrip | src/utils/MNIST.java:32-47 | getLabels returns the labels a file was written with |
| Mnist.Image | src/utils/MNIST.java:80-92 | an image is r rows of c pixels, each pixel an unsigned byte in [0, 255] |
| Mnist.Images | src/utils/MNIST.java:59-61 | n images read one after the other, each r rows of c pixels in [0, 255] |
| Mnist.DecodeImages | src/utils/MNIST.java:49-92 | a decoded image file has the image magic number, the stated count (none if negative), the stated number of rows per image, rows of the stated width, and every pixel in [0, 255]; decoding succeeds iff the magic matches and the pixels fit; otherwise it throws the magic error, NegativeArraySize for negative rows (or negative columns with rows present) when there is an image, or BufferUnderflow for a truncated file |
| Mnist.DecodePixels | src/utils/MNIST.java:57-61 | the image loop yields the stated count of images, each with the stated rows and columns, every pixel in [0, 255]; it succeeds iff there is no image, the images have no rows, or the dimensions are non-negative and the file holds their n * rows * cols bytes; it throws NegativeArraySize exactly for a negative dimension it allocates, otherwise BufferUnderflow |
| Mnist.Pixels | src/utils/MNIST.java:49-65 | the pixel block of an image file has one byte per pixel |
| Mnist.EncodeImages | src/utils/MNIST.java:49-65 | an image file is 16 header bytes plus the pixels |
| Mnist.ImageHeader | src/utils/MNIST.java:52-56 | the header reads back as magic, count, rows and columns |
| Mnist.ImageBodyRoundTrip | src/utils/MNIST.java:57-61 | the pixel block decodes to the images it was made from |
| Mnist.ImagesRoundTrip | src/utils/MNIST.java:49-65 | getImages returns the images a file was written with |
| Mnist.SwappedFilesRejected | src/utils/MNIST.java:94-105 | a label file given to getImages, or an image file given to getLabels, is rejected by its magic number |
| Mnist.ByteCursor.Wrap | src/utils/MNIST.java:112-114 | a buffer over the file bytes at position 0 |
| Mnist.ByteCursor.Get | src/utils/MNIST.java:42 | the next byte as a signed byte and one step on, or BufferUnderflow with the position kept |
| Mnist.ByteCursor.GetInt | src/utils/MNIST.java:36-38 | the next four bytes as a big-endian int and four steps on, or BufferUnderflow |
| Mnist.ReadRow | src/utils/MNIST.java:87-92 | numCols unsigned bytes, or NegativeArraySize / BufferUnderflow |
| Mnist.ReadImage | src/utils/MNIST.java:80-85 | numRows rows read one by one, or the matching exception |
| Mnist.GetLabels | src/utils/MNIST.java:32-47 | the imperative reader returns exactly DecodeLabels of the file |
| Mnist.GetImages | src/utils/MNIST.java:49-65 | the imperative reader returns exactly DecodeImages of the file |
| Mnist.ReadImages | src/utils/MNIST.java:57-61 | the image loop returns exactly DecodePixels |
| Mnist.PixelChar | src/utils/MNIST.java:141-149 | a pixel is drawn as one of four characters |
| Mnist.PixelShades | src/utils/MNIST.java:141-149 | a brighter pixel is never drawn lighter; only 0 is blank; 'X' exactly from 170 |
| Mnist.Shades | src/utils/MNIST.java:140-150 | one character per pixel of the row |
| Mnist.RenderAppend | src/utils/MNIST.java:138-152 | rendering distributes over concatenating rows |
| Mnist.RenderLines | src/utils/MNIST.java:135-155 | one text line per image row, each three characters wider than the row |
| Mnist.RenderImage | src/utils/MNIST.java:135-155 | the imperative renderer returns Render(image) |
| Mnist.Repeat | src/utils/MNIST.java:157-162 | s written n times (nothing for n <= 0): length |s| * n and character k is s[k mod |s|] |

## Left out

- File I/O is not modelled. This covers `loadFile`, `loadFileToByteBuffer` and the `RandomAccessFile`/`FileChannel` reads. The decoders take the bytes of the file as a parameter.
- `MNIST.test` and `src/main/HandwrittenDigitReader.java` are not modelled. They are the console driver and printing.
- `Matrix.toString`, `getRows`, `getColumns` and `getValues` are not modelled as methods. The getters are the fields `rows`, `cols` and `values`, read directly.
- `train` does not return its float. The elapsed time (`System.nanoTime`) and the per-epoch `println` are left out; `Network.NeuralNetwork.Train` returns only whether an exception escaped.
- Floating point is replaced by exact `real` arithmetic. IEEE-754 rounding, NaN and infinities are not modelled. Java's `float` learning rate and the `double` entries become `real`.
- Matrices.HadamardDivision: Java divides by zero without throwing and yields an infinity or NaN. Here every divisor entry is required to be non-zero, so all the hadamardDivision members have a precondition that Java does not have.
- `Sigmoid`, `SmoothReLU` and `Tanh` are not defined. Sigmoid and SmoothReLU are built from `Math.pow` and `Math.log`; Tanh from `Math.tanh` and `Math.cosh`. Their derivatives Sigmoid and SmoothReLU are modelled with the sigmoid function as a parameter. Tanh's derivative is not modelled.
- `java.util.Random` is replaced by oracles:
  - `nextGaussian` becomes the draw functions `biasDraw` and `weightDraw` of `Initialize`, and `Math.sqrt` becomes the `root` parameter;
  - `nextInt(i)` becomes `pick(e, i)`, assumed to lie in `[0, i)`.
  - The order in which one shared generator hands out values is not modelled.
- Network.NeuralNetwork.Train: on an exception, the contract gives the exception but says nothing about the weights and arrays. Java leaves them partly updated.
- Training: the lemmas are stated for any shape-keeping gradient function, and `Train` instantiates them with `Training.Backpropagation`. Convergence of gradient descent is not stated.
- Network.NeuralNetwork.TrainExamples: it takes the shuffled arrays' contents as sequences. The example loop only reads them.
- `NeuralNetwork` keeps its weights and biases as matrix values, not as shared `Matrix` objects. In-place updates of one weight matrix seen through another reference are not modelled. The class `Matrices.Matrix` models aliasing of a single matrix operation.
- Matrices.Dot, Matrices.MultiplyTransposeA, Matrices.MultiplyTransposeB: the product is promised only when dst shares storage with neither operand. When it does, the Java loop reads entries it has already overwritten, and the model promises only the success or failure.
- Matrices.Transpose: the transpose is promised only when dst shares storage with neither operand. Java accepts `transpose(m, m)` for a square m, and its loop writes dst(j, i) before it reads m(j, i). Step (i, j) with i < j runs first and copies m(i, j) into m(j, i); step (j, i) then copies that value back into m(i, j). The call therefore leaves m symmetric instead of transposed: both mirror entries keep the value from above the diagonal (row < column). The model promises only the success or failure for that call.
- Network.NeuralNetwork.Process, Network.NeuralNetwork.Backpropagate, Network.NeuralNetwork.Forward, Network.NeuralNetwork.Train, Network.NeuralNetwork.TrainEpoch, Network.NeuralNetwork.TrainExamples: they require an activated and initialized network (`Ready`). Using the network before `initialize()` throws `NullPointerException` on the null weights (src/net/NeuralNetwork.java:98, :169). Using it before `activate()`, or with strategy arrays shorter than the layers, throws `NullPointerException` or `ArrayIndexOutOfBoundsException` (src/net/NeuralNetwork.java:107, :132, :135, :140). These misuse errors are not modelled.
- Negative dimensions are not modelled. Matrix sizes are naturals, so the model has no `NegativeArraySizeException` from `new Matrix(rows, cols)` when `rows * cols < 0` (src/utils/Matrix.java:18-22). It also leaves out the matrices Java builds with negative dimensions and a non-negative product: two negative dimensions, or a negative `size` in `getIdentity` and `getZero` (src/utils/Matrix.java:319-331). The same holds for `new Matrix(values, rows, cols)`, which accepts negative dimensions whose product equals the array length. The MNIST decoders keep their negative-size errors, because they read the sizes from the file.
- Integer overflow of the Java `int` index arithmetic is not modelled, for example `rows * cols` on huge matrices.
