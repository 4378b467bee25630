/**
 * Matrix values: the mathematics behind src/utils/Matrix.java with exact `real` entries.
 *
 * A matrix value is a row count, a column count and the row-major sequence of its entries,
 * exactly the `rows`, `cols` and `double[] values` of the Java class. The functions named
 * after the Java static operations (Add, Sub, Scl, Pro, Dot, Vec, HadamardDivision,
 * MultiplyTransposeA, MultiplyTransposeB) return what that operation returns, including the
 * exception it throws; the class Matrix in module Matrices is proved against them.
 */
module MatrixAlgebra {
  import opened Results
  import FlatIndex

  datatype RowMajor = RowMajor(rows: nat, cols: nat, vals: seq<real>)

  /** The class invariant of Matrix: `values.length == rows * cols`. */
  type Mat = m: RowMajor | |m.vals| == m.rows * m.cols witness RowMajor(0, 0, [])

  datatype Shape = Shape(rows: nat, cols: nat)

  function ShapeOf(m: Mat): Shape { Shape(m.rows, m.cols) }

  /** Entry (i, j), stored at `i * cols + j`. */
  function Get(m: Mat, i: int, j: int): real
    requires 0 <= i < m.rows && 0 <= j < m.cols
  {
    FlatIndex.InRange(m.rows, m.cols, i, j);
    m.vals[i * m.cols + j]
  }

  /** Row-major entries of the r-by-c matrix whose entry (i, j) is f(i, j). */
  function Cells(r: nat, c: nat, f: (int, int) --> real): (s: seq<real>)
    requires forall i, j :: 0 <= i < r && 0 <= j < c ==> f.requires(i, j)
    ensures |s| == r * c
  {
    seq(r * c, k requires 0 <= k < r * c => (FlatIndex.Split(r, c, k); f(k / c, k % c)))
  }

  lemma CellsAt(r: nat, c: nat, f: (int, int) --> real)
    requires forall i, j :: 0 <= i < r && 0 <= j < c ==> f.requires(i, j)
    ensures forall i, j :: 0 <= i < r && 0 <= j < c ==> Get(RowMajor(r, c, Cells(r, c, f)), i, j) == f(i, j)
  {
    forall i, j | 0 <= i < r && 0 <= j < c
      ensures Get(RowMajor(r, c, Cells(r, c, f)), i, j) == f(i, j)
    {
      FlatIndex.InRange(r, c, i, j);
      FlatIndex.DivMod(c, i, j);
    }
  }

  /** The r-by-c matrix with entry f(i, j) at (i, j). */
  function Tabulate(r: nat, c: nat, f: (int, int) --> real): (m: Mat)
    requires forall i, j :: 0 <= i < r && 0 <= j < c ==> f.requires(i, j)
    ensures m.rows == r && m.cols == c
    ensures forall i, j :: 0 <= i < r && 0 <= j < c ==> Get(m, i, j) == f(i, j)
  {
    CellsAt(r, c, f);
    RowMajor(r, c, Cells(r, c, f))
  }

  /** Two matrices of one shape with the same entries are the same value. */
  lemma Ext(a: Mat, b: Mat)
    requires a.rows == b.rows && a.cols == b.cols
    requires forall i, j :: 0 <= i < a.rows && 0 <= j < a.cols ==> Get(a, i, j) == Get(b, i, j)
    ensures a == b
  {
    forall k | 0 <= k < |a.vals|
      ensures a.vals[k] == b.vals[k]
    {
      FlatIndex.Split(a.rows, a.cols, k);
      assert Get(a, k / a.cols, k % a.cols) == a.vals[k];
    }
  }

  /*** Generators ***/

  /** `new Matrix(rows, cols)`: Java zero-fills a new double[]. */
  function Zeros(r: nat, c: nat): (m: Mat)
    ensures m.rows == r && m.cols == c
    ensures forall k :: 0 <= k < |m.vals| ==> m.vals[k] == 0.0
  {
    RowMajor(r, c, seq(r * c, _ => 0.0))
  }

  /** The r-by-c matrix with every entry equal to x. */
  function Filled(r: nat, c: nat, x: real): (m: Mat)
    ensures m.rows == r && m.cols == c
    ensures forall k :: 0 <= k < |m.vals| ==> m.vals[k] == x
  {
    RowMajor(r, c, seq(r * c, _ => x))
  }

  /** Every entry of Filled(r, c, x) is x. */
  lemma FilledAt(r: nat, c: nat, x: real, i: int, j: int)
    requires 0 <= i < r && 0 <= j < c
    ensures Get(Filled(r, c, x), i, j) == x
  {
    FlatIndex.InRange(r, c, i, j);
  }

  /** A new Java matrix is zero-filled, which is filling it with 0. */
  lemma ZerosAreFilled(r: nat, c: nat)
    ensures Zeros(r, c) == Filled(r, c, 0.0)
  {
    assert Zeros(r, c).vals == Filled(r, c, 0.0).vals;
  }

  /** The n-by-n identity matrix of `getIdentity`. */
  function IdentityMat(n: nat): (m: Mat)
    ensures m.rows == n && m.cols == n
    ensures forall i, j :: 0 <= i < n && 0 <= j < n ==> Get(m, i, j) == if i == j then 1.0 else 0.0
  {
    Tabulate(n, n, (i, j) => if i == j then 1.0 else 0.0)
  }

  /*** Single-entry update and transposition onto a destination ***/

  lemma UpdatedAt(m: Mat, row: int, col: int, v: real, key: int, u: Mat)
    requires 0 <= row < m.rows && 0 <= col < m.cols
    requires key == row * m.cols + col && 0 <= key < |m.vals|
    requires u == RowMajor(m.rows, m.cols, m.vals[key := v])
    ensures Get(u, row, col) == v
    ensures forall i, j :: 0 <= i < m.rows && 0 <= j < m.cols && (i != row || j != col) ==> Get(u, i, j) == Get(m, i, j)
  {
    forall i, j | 0 <= i < m.rows && 0 <= j < m.cols && (i != row || j != col)
      ensures Get(u, i, j) == Get(m, i, j)
    {
      FlatIndex.InRange(m.rows, m.cols, i, j);
      var k := i * m.cols + j;
      if k == key {
        FlatIndex.Injective(m.cols, i, j, row, col);
      }
      assert u.vals[k] == m.vals[k];
    }
  }

  /** m after `set(row, col, v)`: entry (row, col) is v and every other entry is kept. */
  function Updated(m: Mat, row: int, col: int, v: real): (u: Mat)
    requires 0 <= row < m.rows && 0 <= col < m.cols
    ensures ShapeOf(u) == ShapeOf(m)
    ensures Get(u, row, col) == v
    ensures forall i, j :: 0 <= i < m.rows && 0 <= j < m.cols && (i != row || j != col) ==> Get(u, i, j) == Get(m, i, j)
  {
    FlatIndex.InRange(m.rows, m.cols, row, col);
    var key := row * m.cols + col;
    var u: Mat := RowMajor(m.rows, m.cols, m.vals[key := v]);
    UpdatedAt(m, row, col, v, key, u);
    u
  }

  /**
   * d after the loop of the static `transpose(m, dst)` with a square m of order n that fits in
   * d: d(j, i) = m(i, j) for i, j < n, and entries of d outside that block are kept.
   */
  function TransposeOnto(d: Mat, m: Mat): (t: Mat)
    requires m.rows == m.cols && m.rows <= d.rows && m.rows <= d.cols
    ensures ShapeOf(t) == ShapeOf(d)
    ensures forall p, q :: 0 <= p < d.rows && 0 <= q < d.cols ==>
              Get(t, p, q) == if p < m.rows && q < m.rows then Get(m, q, p) else Get(d, p, q)
  {
    Tabulate(d.rows, d.cols, (p, q) requires 0 <= p < d.rows && 0 <= q < d.cols =>
      if p < m.rows && q < m.rows then Get(m, q, p) else Get(d, p, q))
  }

  /** Onto a destination of the same square shape, the loop yields exactly the transpose. */
  lemma TransposeOntoSquare(d: Mat, m: Mat)
    requires m.rows == m.cols && ShapeOf(d) == ShapeOf(m)
    ensures TransposeOnto(d, m) == Transposed(m)
  {
    Ext(TransposeOnto(d, m), Transposed(m));
  }

  /*** Entrywise operations ***/

  /** The scalar operation applied at each entry by add, sub, pro, hadamardDivision, scl and vec. */
  datatype Op = AddOp | SubOp | MulOp | DivOp | ScaleOp(s: real) | MapOp(f: real -> real)

  function Apply(op: Op, x: real, y: real): real
    requires op.DivOp? ==> y != 0.0
  {
    match op
    case AddOp => x + y
    case SubOp => x - y
    case MulOp => x * y
    case DivOp => x / y
    case ScaleOp(s) => s * x
    case MapOp(f) => f(x)
  }

  /** b has an entry at every position of a (vacuous when a has no entries). */
  predicate Covers(a: Mat, b: Mat)
  {
    a.rows == 0 || a.cols == 0 || (a.rows <= b.rows && a.cols <= b.cols)
  }

  /** No entry of b is zero: the divisor condition of hadamardDivision over exact reals. */
  predicate NonZero(b: Mat)
  {
    forall i, j :: 0 <= i < b.rows && 0 <= j < b.cols ==> Get(b, i, j) != 0.0
  }

  /** The matrix of a's shape with entry op(a(i, j), b(i, j)). */
  function ZipWith(a: Mat, b: Mat, op: Op): (m: Mat)
    requires Covers(a, b)
    requires op.DivOp? ==> NonZero(b)
    ensures m.rows == a.rows && m.cols == a.cols
    ensures forall i, j :: 0 <= i < a.rows && 0 <= j < a.cols ==>
              Get(m, i, j) == Apply(op, Get(a, i, j), Get(b, i, j))
  {
    Tabulate(a.rows, a.cols,
      (i, j) requires 0 <= i < a.rows && 0 <= j < a.cols && Covers(a, b) && (op.DivOp? ==> NonZero(b)) =>
        Apply(op, Get(a, i, j), Get(b, i, j)))
  }

  function Plus(a: Mat, b: Mat): Mat
    requires ShapeOf(a) == ShapeOf(b)
  {
    ZipWith(a, b, AddOp)
  }

  function Minus(a: Mat, b: Mat): Mat
    requires Covers(a, b)
  {
    ZipWith(a, b, SubOp)
  }

  function Hadamard(a: Mat, b: Mat): Mat
    requires Covers(a, b)
  {
    ZipWith(a, b, MulOp)
  }

  function Quotient(a: Mat, b: Mat): Mat
    requires ShapeOf(a) == ShapeOf(b) && NonZero(b)
  {
    ZipWith(a, b, DivOp)
  }

  function Scaled(s: real, a: Mat): Mat
  {
    ZipWith(a, a, ScaleOp(s))
  }

  function Mapped(f: real -> real, a: Mat): Mat
  {
    ZipWith(a, a, MapOp(f))
  }

  /** d has a's shape and entry a(i, j) - s * g(i, j): a gradient-descent step on a with gradient g. */
  predicate IsDescent(d: Mat, a: Mat, g: Mat, s: real)
  {
    ShapeOf(d) == ShapeOf(a) && ShapeOf(g) == ShapeOf(a) &&
    forall i, j :: 0 <= i < a.rows && 0 <= j < a.cols ==> Get(d, i, j) == Get(a, i, j) - s * Get(g, i, j)
  }

  lemma Descent(a: Mat, g: Mat, s: real)
    requires ShapeOf(a) == ShapeOf(g)
    ensures IsDescent(Minus(a, Scaled(s, g)), a, g, s)
  {
  }

  /*** Products ***/

  /** Sum over k < n of a(i, k) * b(k, j), accumulated from k = 0 upwards like getMultipliedEntry. */
  function RowCol(a: Mat, b: Mat, i: int, j: int, n: nat): real
    requires 0 <= i < a.rows && 0 <= j < b.cols && n <= a.cols && n <= b.rows
  {
    if n == 0 then 0.0 else RowCol(a, b, i, j, n - 1) + Get(a, i, n - 1) * Get(b, n - 1, j)
  }

  /** Sum over k < n of a(k, i) * b(k, j): the inner loop of multiplyTransposeA. */
  function ColCol(a: Mat, b: Mat, i: int, j: int, n: nat): real
    requires 0 <= i < a.cols && 0 <= j < b.cols && n <= a.rows && n <= b.rows
  {
    if n == 0 then 0.0 else ColCol(a, b, i, j, n - 1) + Get(a, n - 1, i) * Get(b, n - 1, j)
  }

  /** Sum over k < n of a(i, k) * b(j, k): the inner loop of multiplyTransposeB. */
  function RowRow(a: Mat, b: Mat, i: int, j: int, n: nat): real
    requires 0 <= i < a.rows && 0 <= j < b.rows && n <= a.cols && n <= b.cols
  {
    if n == 0 then 0.0 else RowRow(a, b, i, j, n - 1) + Get(a, i, n - 1) * Get(b, j, n - 1)
  }

  /** The matrix product a · b. */
  function Product(a: Mat, b: Mat): (m: Mat)
    requires a.cols == b.rows
    ensures m.rows == a.rows && m.cols == b.cols
    ensures forall i, j :: 0 <= i < a.rows && 0 <= j < b.cols ==> Get(m, i, j) == RowCol(a, b, i, j, a.cols)
  {
    Tabulate(a.rows, b.cols, (i, j) requires 0 <= i < a.rows && 0 <= j < b.cols => RowCol(a, b, i, j, a.cols))
  }

  /** aᵀ · b computed without forming aᵀ. */
  function ProductTA(a: Mat, b: Mat): (m: Mat)
    requires a.rows == b.rows
    ensures m.rows == a.cols && m.cols == b.cols
    ensures forall i, j :: 0 <= i < a.cols && 0 <= j < b.cols ==> Get(m, i, j) == ColCol(a, b, i, j, a.rows)
  {
    Tabulate(a.cols, b.cols, (i, j) requires 0 <= i < a.cols && 0 <= j < b.cols => ColCol(a, b, i, j, a.rows))
  }

  /** a · bᵀ computed without forming bᵀ. */
  function ProductTB(a: Mat, b: Mat): (m: Mat)
    requires a.cols == b.cols
    ensures m.rows == a.rows && m.cols == b.rows
    ensures forall i, j :: 0 <= i < a.rows && 0 <= j < b.rows ==> Get(m, i, j) == RowRow(a, b, i, j, a.cols)
  {
    Tabulate(a.rows, b.rows, (i, j) requires 0 <= i < a.rows && 0 <= j < b.rows => RowRow(a, b, i, j, a.cols))
  }

  function Transposed(a: Mat): (m: Mat)
    ensures m.rows == a.cols && m.cols == a.rows
    ensures forall i, j :: 0 <= i < a.cols && 0 <= j < a.rows ==> Get(m, i, j) == Get(a, j, i)
  {
    Tabulate(a.cols, a.rows, (i, j) requires 0 <= i < a.cols && 0 <= j < a.rows => Get(a, j, i))
  }

  /*** Laws of the products and of transposition ***/

  /** ColCol over a is RowCol over any t whose row i holds column i of a. */
  lemma {:induction false} ColColAsRowCol(a: Mat, b: Mat, t: Mat, i: int, j: int, n: nat)
    requires 0 <= i < a.cols && 0 <= j < b.cols && n <= a.rows && n <= b.rows && i < t.rows && n <= t.cols
    requires forall k :: 0 <= k < n ==> Get(t, i, k) == Get(a, k, i)
    ensures ColCol(a, b, i, j, n) == RowCol(t, b, i, j, n)
  {
    if n > 0 {
      ColColAsRowCol(a, b, t, i, j, n - 1);
      ColColStep(a, b, t, i, j, n);
    }
  }

  lemma ColColStep(a: Mat, b: Mat, t: Mat, i: int, j: int, n: nat)
    requires 0 <= i < a.cols && 0 <= j < b.cols && 0 < n <= a.rows && n <= b.rows && i < t.rows && n <= t.cols
    requires Get(t, i, n - 1) == Get(a, n - 1, i)
    requires ColCol(a, b, i, j, n - 1) == RowCol(t, b, i, j, n - 1)
    ensures ColCol(a, b, i, j, n) == RowCol(t, b, i, j, n)
  {
  }

  /** RowRow against b is RowCol against any t whose column j holds row j of b. */
  lemma {:induction false} RowRowAsRowCol(a: Mat, b: Mat, t: Mat, i: int, j: int, n: nat)
    requires 0 <= i < a.rows && 0 <= j < b.rows && n <= a.cols && n <= b.cols && j < t.cols && n <= t.rows
    requires forall k :: 0 <= k < n ==> Get(t, k, j) == Get(b, j, k)
    ensures RowRow(a, b, i, j, n) == RowCol(a, t, i, j, n)
  {
    if n > 0 {
      RowRowAsRowCol(a, b, t, i, j, n - 1);
      RowRowStep(a, b, t, i, j, n);
    }
  }

  lemma RowRowStep(a: Mat, b: Mat, t: Mat, i: int, j: int, n: nat)
    requires 0 <= i < a.rows && 0 <= j < b.rows && 0 < n <= a.cols && n <= b.cols && j < t.cols && n <= t.rows
    requires Get(t, n - 1, j) == Get(b, j, n - 1)
    requires RowRow(a, b, i, j, n - 1) == RowCol(a, t, i, j, n - 1)
    ensures RowRow(a, b, i, j, n) == RowCol(a, t, i, j, n)
  {
  }

  lemma ColColIsRowColOfTranspose(a: Mat, b: Mat, i: int, j: int, n: nat)
    requires 0 <= i < a.cols && 0 <= j < b.cols && n <= a.rows && n <= b.rows
    ensures ColCol(a, b, i, j, n) == RowCol(Transposed(a), b, i, j, n)
  {
    ColColAsRowCol(a, b, Transposed(a), i, j, n);
  }

  lemma RowRowIsRowColOfTranspose(a: Mat, b: Mat, i: int, j: int, n: nat)
    requires 0 <= i < a.rows && 0 <= j < b.rows && n <= a.cols && n <= b.cols
    ensures RowRow(a, b, i, j, n) == RowCol(a, Transposed(b), i, j, n)
  {
    RowRowAsRowCol(a, b, Transposed(b), i, j, n);
  }

  /** multiplyTransposeA computes aᵀ · b. */
  lemma ProductTAIsProductOfTranspose(a: Mat, b: Mat)
    requires a.rows == b.rows
    ensures ProductTA(a, b) == Product(Transposed(a), b)
  {
    var l, r := ProductTA(a, b), Product(Transposed(a), b);
    forall i, j | 0 <= i < l.rows && 0 <= j < l.cols
      ensures Get(l, i, j) == Get(r, i, j)
    {
      ColColIsRowColOfTranspose(a, b, i, j, a.rows);
    }
    Ext(l, r);
  }

  /** multiplyTransposeB computes a · bᵀ. */
  lemma ProductTBIsProductWithTranspose(a: Mat, b: Mat)
    requires a.cols == b.cols
    ensures ProductTB(a, b) == Product(a, Transposed(b))
  {
    var l, r := ProductTB(a, b), Product(a, Transposed(b));
    forall i, j | 0 <= i < l.rows && 0 <= j < l.cols
      ensures Get(l, i, j) == Get(r, i, j)
    {
      RowRowIsRowColOfTranspose(a, b, i, j, a.cols);
    }
    Ext(l, r);
  }

  /** t is f(w · a + b) entry by entry, for a column vector a: the outputs of a layer of neurons. */
  predicate IsAffineImage(t: Mat, f: real -> real, w: Mat, a: Mat, b: Mat)
    requires w.cols == a.rows && a.cols == 1 && b.rows == w.rows && b.cols == 1
  {
    t.rows == w.rows && t.cols == 1 &&
    forall j :: 0 <= j < w.rows ==> Get(t, j, 0) == f(RowCol(w, a, j, 0, w.cols) + Get(b, j, 0))
  }

  lemma AffineImage(f: real -> real, w: Mat, a: Mat, b: Mat)
    requires w.cols == a.rows && a.cols == 1 && b.rows == w.rows && b.cols == 1
    ensures IsAffineImage(Mapped(f, Plus(Product(w, a), b)), f, w, a, b)
  {
  }

  /** With a one-entry inner dimension, a · bᵀ is the outer product of two column vectors. */
  lemma OuterProduct(u: Mat, v: Mat, i: int, j: int)
    requires u.cols == 1 && v.cols == 1 && 0 <= i < u.rows && 0 <= j < v.rows
    ensures Get(ProductTB(u, v), i, j) == Get(u, i, 0) * Get(v, j, 0)
  {
    assert RowRow(u, v, i, j, 1) == RowRow(u, v, i, j, 0) + Get(u, i, 0) * Get(v, j, 0);
  }

  /** w is the outer product u . vᵀ of the column vectors u and v. */
  predicate IsOuterProduct(w: Mat, u: Mat, v: Mat)
  {
    u.cols == 1 && v.cols == 1 && w.rows == u.rows && w.cols == v.rows &&
    forall i, j :: 0 <= i < u.rows && 0 <= j < v.rows ==> Get(w, i, j) == Get(u, i, 0) * Get(v, j, 0)
  }

  lemma OuterProducts(u: Mat, v: Mat)
    requires u.cols == 1 && v.cols == 1
    ensures IsOuterProduct(ProductTB(u, v), u, v)
  {
    forall i, j | 0 <= i < u.rows && 0 <= j < v.rows
      ensures Get(ProductTB(u, v), i, j) == Get(u, i, 0) * Get(v, j, 0)
    {
      OuterProduct(u, v, i, j);
    }
  }

  lemma TransposeTwice(a: Mat)
    ensures Transposed(Transposed(a)) == a
  {
    Ext(Transposed(Transposed(a)), a);
  }

  /**
   * A row or column vector and its transpose have the same row-major entries, which is why
   * `transpose()` may hand back the same `values` array with the dimensions swapped.
   */
  lemma VectorTransposeKeepsEntries(a: Mat)
    requires a.rows == 1 || a.cols == 1
    ensures Transposed(a) == RowMajor(a.cols, a.rows, a.vals)
  {
    var t: Mat := RowMajor(a.cols, a.rows, a.vals);
    forall i, j | 0 <= i < a.cols && 0 <= j < a.rows
      ensures Get(t, i, j) == Get(a, j, i)
    {
      if a.rows == 1 {
        assert j == 0 && i * a.rows + j == j * a.cols + i;
      } else {
        assert i == 0 && i * a.rows + j == j * a.cols + i;
      }
    }
    Ext(Transposed(a), t);
  }

  /** The Hadamard product with the all-ones matrix of the same shape is the identity. */
  lemma HadamardWithOnes(a: Mat)
    ensures Hadamard(a, Filled(a.rows, a.cols, 1.0)) == a
  {
    var ones := Filled(a.rows, a.cols, 1.0);
    forall i, j | 0 <= i < a.rows && 0 <= j < a.cols
      ensures Get(Hadamard(a, ones), i, j) == Get(a, i, j)
    {
      FilledAt(a.rows, a.cols, 1.0, i, j);
    }
    Ext(Hadamard(a, ones), a);
  }

  /** Multiplying by the identity from the left changes nothing. */
  lemma IdentityProduct(a: Mat)
    ensures Product(IdentityMat(a.rows), a) == a
  {
    var p := Product(IdentityMat(a.rows), a);
    forall i, j | 0 <= i < a.rows && 0 <= j < a.cols
      ensures Get(p, i, j) == Get(a, i, j)
    {
      IdentityRowCol(a, i, j, a.rows);
    }
    Ext(p, a);
  }

  lemma {:induction false} IdentityRowCol(a: Mat, i: int, j: int, n: nat)
    requires 0 <= i < a.rows && 0 <= j < a.cols && n <= a.rows
    ensures RowCol(IdentityMat(a.rows), a, i, j, n) == if i < n then Get(a, i, j) else 0.0
  {
    if n > 0 {
      IdentityRowCol(a, i, j, n - 1);
    }
  }

  /*** The position reported by max ***/

  /** (i, j) holds a largest entry of m, and every entry before it in row-major order is smaller. */
  predicate IsFirstMax(m: Mat, i: int, j: int)
  {
    0 <= i < m.rows && 0 <= j < m.cols
    && (forall p, q :: 0 <= p < m.rows && 0 <= q < m.cols ==> Get(m, p, q) <= Get(m, i, j))
    && (forall p, q :: 0 <= p < m.rows && 0 <= q < m.cols && (p < i || (p == i && q < j)) ==> Get(m, p, q) < Get(m, i, j))
  }

  /** At most one position is the first maximum, so the answer of max is determined by the entries. */
  lemma FirstMaxUnique(m: Mat, i: int, j: int, i': int, j': int)
    requires IsFirstMax(m, i, j) && IsFirstMax(m, i', j')
    ensures i == i' && j == j'
  {
    assert Get(m, i, j) <= Get(m, i', j') && Get(m, i', j') <= Get(m, i, j);
  }

  /*** The Java static operations, with the exceptions they throw ***/

  /** The shape of an optional destination; None stands for a null `dst`. */
  function Dst(m: Option<Mat>): Option<Shape>
  {
    if m.None? then None else Some(ShapeOf(m.value))
  }

  /** `add(src1, src2, dst)`: the operands are always compared; dst only when given. */
  function Add(a: Mat, b: Mat, dst: Option<Shape>): (r: Result<Mat>)
    ensures r.Success? <==> ShapeOf(a) == ShapeOf(b) && (dst.None? || dst.value == ShapeOf(a))
    ensures r.Failure? ==> r.error == SizeMismatch
    ensures r.Success? ==> (
      ShapeOf(r.value) == ShapeOf(a) == ShapeOf(b) &&
      forall i, j :: 0 <= i < a.rows && 0 <= j < a.cols ==> Get(r.value, i, j) == Get(a, i, j) + Get(b, i, j))
  {
    if ShapeOf(a) != ShapeOf(b) then Failure(SizeMismatch)
    else if dst.Some? && dst.value != ShapeOf(a) then Failure(SizeMismatch)
    else Success(Plus(a, b))
  }

  /**
   * `sub(a, b, dst)`: shapes are compared only when dst is given. With a null dst the loop
   * runs over a's shape and b.get throws once it leaves b.
   */
  function Sub(a: Mat, b: Mat, dst: Option<Shape>): (r: Result<Mat>)
    ensures r.Success? <==> if dst.None? then Covers(a, b) else ShapeOf(a) == ShapeOf(b) && dst.value == ShapeOf(a)
    ensures r.Failure? ==> r.error == if dst.None? then OutOfBound else SizeMismatch
    ensures r.Success? ==> (
      ShapeOf(r.value) == ShapeOf(a) && Covers(a, b) &&
      forall i, j :: 0 <= i < a.rows && 0 <= j < a.cols ==> Get(r.value, i, j) == Get(a, i, j) - Get(b, i, j))
  {
    if dst.None? then
      if Covers(a, b) then Success(Minus(a, b)) else Failure(OutOfBound)
    else if ShapeOf(a) != ShapeOf(b) || dst.value != ShapeOf(a) then Failure(SizeMismatch)
    else Success(Minus(a, b))
  }

  /** `pro(a, b, dst)`: the Hadamard product, with the same checks as sub. */
  function Pro(a: Mat, b: Mat, dst: Option<Shape>): (r: Result<Mat>)
    ensures r.Success? <==> if dst.None? then Covers(a, b) else ShapeOf(a) == ShapeOf(b) && dst.value == ShapeOf(a)
    ensures r.Failure? ==> r.error == if dst.None? then OutOfBound else SizeMismatch
    ensures r.Success? ==> (
      ShapeOf(r.value) == ShapeOf(a) && Covers(a, b) &&
      forall i, j :: 0 <= i < a.rows && 0 <= j < a.cols ==> Get(r.value, i, j) == Get(a, i, j) * Get(b, i, j))
  {
    if dst.None? then
      if Covers(a, b) then Success(Hadamard(a, b)) else Failure(OutOfBound)
    else if ShapeOf(a) != ShapeOf(b) || dst.value != ShapeOf(a) then Failure(SizeMismatch)
    else Success(Hadamard(a, b))
  }

  /** `scl(src, dst, val)`. */
  function Scl(a: Mat, dst: Option<Shape>, s: real): (r: Result<Mat>)
    ensures r.Success? <==> dst.None? || dst.value == ShapeOf(a)
    ensures r.Failure? ==> r.error == SizeMismatch
    ensures r.Success? ==> (
      ShapeOf(r.value) == ShapeOf(a) &&
      forall i, j :: 0 <= i < a.rows && 0 <= j < a.cols ==> Get(r.value, i, j) == s * Get(a, i, j))
  {
    if dst.Some? && dst.value != ShapeOf(a) then Failure(SizeMismatch) else Success(Scaled(s, a))
  }

  /** `vec(m, dst, f)` for an Activation or a Derivative f. */
  function Vec(a: Mat, dst: Option<Shape>, f: real -> real): (r: Result<Mat>)
    ensures r.Success? <==> dst.None? || dst.value == ShapeOf(a)
    ensures r.Failure? ==> r.error == SizeMismatch
    ensures r.Success? ==> (
      ShapeOf(r.value) == ShapeOf(a) &&
      forall i, j :: 0 <= i < a.rows && 0 <= j < a.cols ==> Get(r.value, i, j) == f(Get(a, i, j)))
  {
    if dst.Some? && dst.value != ShapeOf(a) then Failure(SizeMismatch) else Success(Mapped(f, a))
  }

  /** `hadamardDivision(a, b, dst)`; dst is dereferenced, so it is never null. */
  function HadamardDivision(a: Mat, b: Mat, dst: Shape): (r: Result<Mat>)
    requires NonZero(b)
    ensures r.Success? <==> ShapeOf(a) == ShapeOf(b) && dst == ShapeOf(a)
    ensures r.Failure? ==> r.error == SizeMismatch
    ensures r.Success? ==> (
      ShapeOf(r.value) == ShapeOf(a) == ShapeOf(b) &&
      forall i, j :: 0 <= i < a.rows && 0 <= j < a.cols ==> Get(r.value, i, j) == Get(a, i, j) / Get(b, i, j))
  {
    if ShapeOf(a) != ShapeOf(b) || dst != ShapeOf(a) then Failure(SizeMismatch)
    else Success(Quotient(a, b))
  }

  /** `dot(src1, src2, dst)`. */
  function Dot(a: Mat, b: Mat, dst: Option<Shape>): (r: Result<Mat>)
    ensures r.Success? <==> a.cols == b.rows && (dst.None? || dst.value == Shape(a.rows, b.cols))
    ensures r.Failure? ==> r.error == SizeMismatch
    ensures r.Success? ==> (
      ShapeOf(r.value) == Shape(a.rows, b.cols) && a.cols == b.rows &&
      forall i, j :: 0 <= i < a.rows && 0 <= j < b.cols ==> Get(r.value, i, j) == RowCol(a, b, i, j, a.cols))
  {
    if a.cols != b.rows then Failure(SizeMismatch)
    else if dst.Some? && dst.value != Shape(a.rows, b.cols) then Failure(SizeMismatch)
    else Success(Product(a, b))
  }

  /** `multiplyTransposeA(a, b, dst)`. */
  function MultiplyTransposeA(a: Mat, b: Mat, dst: Shape): (r: Result<Mat>)
    ensures r.Success? <==> a.rows == b.rows && dst == Shape(a.cols, b.cols)
    ensures r.Failure? ==> r.error == SizeMismatch
    ensures r.Success? ==> (
      ShapeOf(r.value) == Shape(a.cols, b.cols) && a.rows == b.rows &&
      forall i, j :: 0 <= i < a.cols && 0 <= j < b.cols ==> Get(r.value, i, j) == ColCol(a, b, i, j, a.rows))
  {
    if a.rows != b.rows || dst != Shape(a.cols, b.cols) then Failure(SizeMismatch)
    else Success(ProductTA(a, b))
  }

  /** `multiplyTransposeB(a, b, dst)`. */
  function MultiplyTransposeB(a: Mat, b: Mat, dst: Shape): (r: Result<Mat>)
    ensures r.Success? <==> a.cols == b.cols && dst == Shape(a.rows, b.rows)
    ensures r.Failure? ==> r.error == SizeMismatch
    ensures r.Success? ==> (
      ShapeOf(r.value) == Shape(a.rows, b.rows) && a.cols == b.cols &&
      forall i, j :: 0 <= i < a.rows && 0 <= j < b.rows ==> Get(r.value, i, j) == RowRow(a, b, i, j, a.cols))
  {
    if a.cols != b.cols || dst != Shape(a.rows, b.rows) then Failure(SizeMismatch)
    else Success(ProductTB(a, b))
  }

  /*** The irregular shape checks ***/

  /**
   * add rejects operands of different shapes whatever dst is, while sub and pro let a larger
   * second operand through when dst is null and reject it when dst is given.
   */
  lemma NullDestinationSkipsShapeCheck(a: Mat, b: Mat)
    requires a.rows <= b.rows && a.cols <= b.cols && ShapeOf(a) != ShapeOf(b)
    ensures Add(a, b, None).Failure? && Add(a, b, Some(ShapeOf(a))).Failure?
    ensures Sub(a, b, None) == Success(Minus(a, b)) && Sub(a, b, Some(ShapeOf(a))) == Failure(SizeMismatch)
    ensures Pro(a, b, None) == Success(Hadamard(a, b)) && Pro(a, b, Some(ShapeOf(a))) == Failure(SizeMismatch)
  {
  }

  /** With a null dst, a second operand missing a row or a column that a reads fails on bounds. */
  lemma NullDestinationSmallerOperand(a: Mat, b: Mat)
    requires a.rows > 0 && a.cols > 0 && (b.rows < a.rows || b.cols < a.cols)
    ensures Sub(a, b, None) == Failure(OutOfBound) && Pro(a, b, None) == Failure(OutOfBound)
  {
  }
}
