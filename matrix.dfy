/**
 * The mutable matrix of src/utils/Matrix.java.
 *
 * A Matrix object holds its dimensions and a `double[]` of row-major entries, which the
 * operations overwrite in place. Here the entries are exact reals, the array is a Dafny
 * `array<real>`, and every operation is proved against the value-level definitions of module
 * MatrixAlgebra through the ghost view `Entries()`. A Java RuntimeException becomes the
 * Failure (or Fail) of the operation's result, carrying the error that names the exception.
 *
 * Java overloads a static operation and an instance method under one name (`add`, `sub`,
 * `dot`, `transpose`, `hadamardDivision`, `getMultipliedEntry`); the static ones are the
 * module-level methods below and the instance ones are members of the class.
 */
module Matrices {
  import opened Results
  import A = MatrixAlgebra
  import FlatIndex

  class Matrix {
    const rows: nat
    const cols: nat
    const values: array<real>

    /** `values.length == rows * cols`; no field is ever reassigned, so this holds for good. */
    predicate Valid()
    {
      values.Length == rows * cols
    }

    /** The matrix value currently stored. */
    ghost function Entries(): (m: A.Mat)
      requires Valid()
      reads values
      ensures m.rows == rows && m.cols == cols
    {
      A.RowMajor(rows, cols, values[..])
    }

    /** `new Matrix(values, rows, cols)` once its size check has passed; see FromValues. */
    constructor Wrap(values: array<real>, rows: nat, cols: nat)
      requires values.Length == rows * cols
      ensures this.values == values && this.rows == rows && this.cols == cols && Valid()
    {
      this.values := values;
      this.rows := rows;
      this.cols := cols;
    }

    /** `new Matrix(rows, cols)`: a fresh zero-filled array. */
    constructor Zero(rows: nat, cols: nat)
      ensures this.rows == rows && this.cols == cols && Valid() && fresh(values)
      ensures Entries() == A.Zeros(rows, cols)
    {
      this.rows := rows;
      this.cols := cols;
      values := new real[rows * cols](_ => 0.0);
      new;
      assert values[..] == A.Zeros(rows, cols).vals;
    }

    /** A position inside the matrix addresses a cell of the row-major array. */
    predicate WithinRange(row: int, column: int)
      ensures WithinRange(row, column) ==> 0 <= column < cols && 0 <= row * cols + column < rows * cols
    {
      if row < rows && row >= 0 && column < cols && column >= 0 then
        FlatIndex.InRange(rows, cols, row, column); true
      else false
    }

    /** `get(row, column)`: the entry, or "Out of matrix bound". */
    method Get(row: int, column: int) returns (r: Result<real>)
      requires Valid()
      ensures r.Success? <==> WithinRange(row, column)
      ensures r.Success? ==> r.value == A.Get(Entries(), row, column)
      ensures r.Failure? ==> r.error == OutOfBound
    {
      if WithinRange(row, column) {
        FlatIndex.InRange(rows, cols, row, column);
        return Success(values[row * cols + column]);
      }
      return Failure(OutOfBound);
    }

    /** `set(row, column, value)`: changes that one entry, or throws and changes nothing. */
    method Set(row: int, column: int, value: real) returns (o: Outcome)
      requires Valid()
      modifies values
      ensures o.Pass? <==> WithinRange(row, column)
      ensures o.Pass? ==> Entries() == A.Updated(old(Entries()), row, column, value)
      ensures o.Fail? ==> o.error == OutOfBound && unchanged(values)
    {
      if WithinRange(row, column) {
        FlatIndex.InRange(rows, cols, row, column);
        values[row * cols + column] := value;
        assert values[..] == old(values[..])[row * cols + column := value];
        return Pass;
      }
      return Fail(OutOfBound);
    }

    /** `fill(a)`: every entry becomes a, set row by row. */
    method Fill(a: real)
      requires Valid()
      modifies values
      ensures Entries() == A.Filled(rows, cols, a)
    {
      ghost var start := Entries();
      var i := 0;
      while i < rows
        invariant 0 <= i <= rows
        invariant forall p, q :: 0 <= p < rows && 0 <= q < cols ==>
                    A.Get(Entries(), p, q) == if p < i then a else A.Get(start, p, q)
      {
        var j := 0;
        while j < cols
          invariant 0 <= j <= cols
          invariant forall p, q :: 0 <= p < rows && 0 <= q < cols ==>
                      A.Get(Entries(), p, q) == if p < i || (p == i && q < j) then a else A.Get(start, p, q)
        {
          var o := Set(i, j, a);
          j := j + 1;
        }
        i := i + 1;
      }
      forall p, q | 0 <= p < rows && 0 <= q < cols
        ensures A.Get(Entries(), p, q) == A.Get(A.Filled(rows, cols, a), p, q)
      {
        A.FilledAt(rows, cols, a, p, q);
      }
      A.Ext(Entries(), A.Filled(rows, cols, a));
    }

    /** `clear()`: every entry becomes 0, exactly as `fill(0)` would set it. */
    method Clear()
      requires Valid()
      modifies values
      ensures Entries() == A.Zeros(rows, cols)
    {
      Fill(0.0);
      A.ZerosAreFilled(rows, cols);
    }

    /**
     * `transpose()`: a row or column vector is returned as a new matrix over the same array
     * with the dimensions swapped; otherwise a new cols-by-rows matrix is filled by the static
     * transpose, which rejects a matrix that is not square.
     */
    method Transpose() returns (r: Result<Matrix>)
      requires Valid()
      ensures r.Success? <==> rows == 1 || cols == 1 || rows == cols
      ensures r.Failure? ==> r.error == SizeMismatch
      ensures r.Success? ==> fresh(r.value) && r.value.Valid() && r.value.Entries() == A.Transposed(Entries())
      ensures r.Success? && (rows == 1 || cols == 1) ==> r.value.values == values
      ensures r.Success? && rows != 1 && cols != 1 ==> fresh(r.value.values)
    {
      if rows == 1 || cols == 1 {
        var t := new Matrix.Wrap(values, cols, rows);
        A.VectorTransposeKeepsEntries(Entries());
        return Success(t);
      }
      var t := new Matrix.Zero(cols, rows);
      var o := _default.Transpose(this, t);
      if o.Fail? {
        return Failure(o.error);
      }
      if rows > 0 {
        A.TransposeOntoSquare(A.Zeros(cols, rows), Entries());
      } else {
        A.Ext(t.Entries(), A.Transposed(Entries()));
      }
      return Success(t);
    }

    /** `add(m)`: this + m into a new matrix. */
    method Add(m: Matrix) returns (r: Result<Matrix>)
      requires Valid() && m.Valid()
      ensures r.Success? ==> fresh(r.value) && fresh(r.value.values) && r.value.Valid()
      ensures View(r) == A.Add(Entries(), m.Entries(), Some(A.Shape(rows, cols)))
    {
      var newMatrix := new Matrix.Zero(rows, cols);
      r := _default.Add(this, m, newMatrix);
    }

    /** `addSelf(m)`: this := this + m. */
    method AddSelf(m: Matrix) returns (o: Outcome)
      requires Valid() && m.Valid()
      modifies values
      ensures A.Add(old(Entries()), old(m.Entries()), Some(A.Shape(rows, cols)))
              == if o.Pass? then Success(Entries()) else Failure(o.error)
      ensures o.Fail? ==> unchanged(values)
    {
      var r := _default.Add(this, m, this);
      o := if r.Success? then Pass else Fail(r.error);
    }

    /** `sub(m)`: this - m into a new matrix, so the shapes are always compared. */
    method Sub(m: Matrix) returns (r: Result<Matrix>)
      requires Valid() && m.Valid()
      ensures r.Success? ==> fresh(r.value) && fresh(r.value.values) && r.value.Valid()
      ensures View(r) == A.Sub(Entries(), m.Entries(), Some(A.Shape(rows, cols)))
    {
      var newMatrix := new Matrix.Zero(rows, cols);
      r := _default.Sub(this, m, newMatrix);
    }

    /** `subtractSelf(m)`: this := this - m. */
    method SubtractSelf(m: Matrix) returns (o: Outcome)
      requires Valid() && m.Valid()
      modifies values
      ensures A.Sub(old(Entries()), old(m.Entries()), Some(A.Shape(rows, cols)))
              == if o.Pass? then Success(Entries()) else Failure(o.error)
      ensures o.Fail? ==> unchanged(values)
    {
      var r := _default.Sub(this, m, this);
      o := if r.Success? then Pass else Fail(r.error);
    }

    /** `getMultipliedEntry(m, row, column)`: entry (row, column) of this · m. */
    method GetMultipliedEntry(m: Matrix, row: int, column: int) returns (r: Result<real>)
      requires Valid() && m.Valid()
      ensures r.Success? <==> cols == 0 || (0 <= row < rows && 0 <= column < m.cols && cols <= m.rows)
      ensures r.Failure? ==> r.error == OutOfBound
      ensures r.Success? && 0 <= row < rows && 0 <= column < m.cols ==>
                r.value == A.RowCol(Entries(), m.Entries(), row, column, cols)
      ensures cols == 0 ==> r == Success(0.0)
    {
      r := _default.GetMultipliedEntry(this, m, row, column);
    }

    /** `multiply(scalar)`: scalar · this into a new matrix; it cannot throw. */
    method Multiply(scalar: real) returns (p: Matrix)
      requires Valid()
      ensures fresh(p) && fresh(p.values) && p.Valid()
      ensures p.Entries() == A.Scaled(scalar, Entries())
    {
      p := new Matrix.Zero(rows, cols);
      var r := _default.Scl(this, p, scalar);
    }

    /** `multiplySelf(scalar)`: this := scalar · this. */
    method MultiplySelf(scalar: real)
      requires Valid()
      modifies values
      ensures Entries() == A.Scaled(scalar, old(Entries()))
    {
      var r := _default.Scl(this, this, scalar);
    }

    /** `dot(m)`: this · m into a new rows-by-m.cols matrix. */
    method Dot(m: Matrix) returns (r: Result<Matrix>)
      requires Valid() && m.Valid()
      ensures r.Success? ==> fresh(r.value) && fresh(r.value.values) && r.value.Valid()
      ensures View(r) == A.Dot(Entries(), m.Entries(), Some(A.Shape(rows, m.cols)))
    {
      var newMatrix := new Matrix.Zero(rows, m.cols);
      r := _default.Dot(this, m, newMatrix);
    }

    /** `multiplyTransposeSelf(m)`: thisᵀ · m into a new cols-by-m.cols matrix. */
    method MultiplyTransposeSelf(m: Matrix) returns (r: Result<Matrix>)
      requires Valid() && m.Valid()
      ensures r.Success? ==> fresh(r.value) && fresh(r.value.values) && r.value.Valid()
      ensures View(r) == A.MultiplyTransposeA(Entries(), m.Entries(), A.Shape(cols, m.cols))
    {
      var newMatrix := new Matrix.Zero(cols, m.cols);
      var o := _default.MultiplyTransposeA(this, m, newMatrix);
      r := if o.Pass? then Success(newMatrix) else Failure(o.error);
    }

    /** `multiplyTransposeM(m)`: this · mᵀ into a new rows-by-m.rows matrix. */
    method MultiplyTransposeM(m: Matrix) returns (r: Result<Matrix>)
      requires Valid() && m.Valid()
      ensures r.Success? ==> fresh(r.value) && fresh(r.value.values) && r.value.Valid()
      ensures View(r) == A.MultiplyTransposeB(Entries(), m.Entries(), A.Shape(rows, m.rows))
    {
      var newMatrix := new Matrix.Zero(rows, m.rows);
      var o := _default.MultiplyTransposeB(this, m, newMatrix);
      r := if o.Pass? then Success(newMatrix) else Failure(o.error);
    }

    /** `hadamardProduct(m)`: the entrywise product into a new matrix. */
    method HadamardProduct(m: Matrix) returns (r: Result<Matrix>)
      requires Valid() && m.Valid()
      ensures r.Success? ==> fresh(r.value) && fresh(r.value.values) && r.value.Valid()
      ensures View(r) == A.Pro(Entries(), m.Entries(), Some(A.Shape(rows, cols)))
    {
      var newMatrix := new Matrix.Zero(rows, cols);
      r := _default.Pro(this, m, newMatrix);
    }

    /** `hadamardProductSelf(m)`: this := this ⊙ m. */
    method HadamardProductSelf(m: Matrix) returns (o: Outcome)
      requires Valid() && m.Valid()
      modifies values
      ensures A.Pro(old(Entries()), old(m.Entries()), Some(A.Shape(rows, cols)))
              == if o.Pass? then Success(Entries()) else Failure(o.error)
      ensures o.Fail? ==> unchanged(values)
    {
      var r := _default.Pro(this, m, this);
      o := if r.Success? then Pass else Fail(r.error);
    }

    /** `hadamardDivision(m)`: the entrywise quotient into a new matrix. */
    method HadamardDivision(m: Matrix) returns (r: Result<Matrix>)
      requires Valid() && m.Valid() && A.NonZero(m.Entries())
      ensures r.Success? ==> fresh(r.value) && fresh(r.value.values) && r.value.Valid()
      ensures View(r) == A.HadamardDivision(Entries(), m.Entries(), A.Shape(rows, cols))
    {
      var newMatrix := new Matrix.Zero(rows, cols);
      var o := _default.HadamardDivision(this, m, newMatrix);
      r := if o.Pass? then Success(newMatrix) else Failure(o.error);
    }

    /** `hadamardDivisionSelf(m)`: this := this ⊘ m. */
    method HadamardDivisionSelf(m: Matrix) returns (o: Outcome)
      requires Valid() && m.Valid() && A.NonZero(m.Entries())
      modifies values
      ensures A.HadamardDivision(old(Entries()), old(m.Entries()), A.Shape(rows, cols))
              == if o.Pass? then Success(Entries()) else Failure(o.error)
      ensures o.Fail? ==> unchanged(values)
    {
      o := _default.HadamardDivision(this, m, this);
    }

    /** `vectorize(f)`: f applied to every entry, into a new matrix; it cannot throw. */
    method Vectorize(f: real -> real) returns (v: Matrix)
      requires Valid()
      ensures fresh(v) && fresh(v.values) && v.Valid()
      ensures v.Entries() == A.Mapped(f, Entries())
    {
      v := new Matrix.Zero(rows, cols);
      var r := _default.Vec(this, v, f);
    }

    /** `vectorizeSelf(f)`: f applied to every entry in place. */
    method VectorizeSelf(f: real -> real)
      requires Valid()
      modifies values
      ensures Entries() == A.Mapped(f, old(Entries()))
    {
      var r := _default.Vec(this, this, f);
    }

    /** `equals(m)`: same dimensions and the same entries, compared one by one. */
    method Equals(m: Matrix) returns (b: bool)
      requires Valid() && m.Valid()
      ensures b <==> rows == m.rows && cols == m.cols && Entries() == m.Entries()
    {
      if rows != m.rows || cols != m.cols {
        return false;
      }
      var i := 0;
      while i < rows
        invariant 0 <= i <= rows
        invariant forall p, q :: 0 <= p < i && 0 <= q < cols ==> A.Get(Entries(), p, q) == A.Get(m.Entries(), p, q)
      {
        var j := 0;
        while j < cols
          invariant 0 <= j <= cols
          invariant forall p, q :: 0 <= p < rows && 0 <= q < cols && (p < i || (p == i && q < j)) ==>
                      A.Get(Entries(), p, q) == A.Get(m.Entries(), p, q)
        {
          FlatIndex.InRange(rows, cols, i, j);
          if values[i * cols + j] != m.values[i * cols + j] {
            assert A.Get(Entries(), i, j) != A.Get(m.Entries(), i, j);
            return false;
          }
          j := j + 1;
        }
        i := i + 1;
      }
      A.Ext(Entries(), m.Entries());
      return true;
    }
  }

  /*** Results of the static operations ***/

  /** The value an operation returned, or the exception it threw. */
  ghost function View(r: Result<Matrix>): Result<A.Mat>
    requires r.Success? ==> r.value.Valid()
    reads if r.Success? then {r.value.values} else {}
  {
    if r.Success? then Success(r.value.Entries()) else Failure(r.error)
  }

  /** The shape of a destination argument; None stands for `null`. */
  function DstShape(dst: Matrix?): Option<A.Shape>
  {
    if dst == null then None else Some(A.Shape(dst.rows, dst.cols))
  }

  /** A returned matrix is dst itself, or a new matrix when dst was null. */
  twostate predicate Produced(new r: Result<Matrix>, dst: Matrix?)
  {
    r.Success? ==> r.value.Valid() && (if dst == null then fresh(r.value.values) && fresh(r.value) else r.value == dst)
  }

  /** dst (when given) shares its storage with neither operand. */
  predicate Separate(a: Matrix, b: Matrix, dst: Matrix?)
  {
    dst == null || (dst.values != a.values && dst.values != b.values)
  }

  /** `new Matrix(values, rows, cols)`: rejects an array whose length is not rows * cols. */
  method FromValues(values: array<real>, rows: nat, cols: nat) returns (r: Result<Matrix>)
    ensures r.Success? <==> values.Length == rows * cols
    ensures r.Failure? ==> r.error == InvalidArraySize
    ensures r.Success? ==> fresh(r.value) && r.value.values == values && r.value.rows == rows && r.value.cols == cols
  {
    if values.Length != rows * cols {
      return Failure(InvalidArraySize);
    }
    var m := new Matrix.Wrap(values, rows, cols);
    return Success(m);
  }

  /**
   * The double loop shared by add, sub, scl, pro, vec and hadamardDivision:
   * `dst.set(i, j, op(a.get(i, j), b.get(i, j)))` for every (i, j) of a, row by row.
   * dst may be a or b itself; b then has a's shape, so each entry is read before it is written.
   */
  method ZipInto(a: Matrix, b: Matrix, dst: Matrix, op: A.Op)
    requires a.Valid() && b.Valid() && dst.Valid()
    requires dst.rows == a.rows && dst.cols == a.cols
    requires A.Covers(a.Entries(), b.Entries())
    requires op.DivOp? ==> A.NonZero(b.Entries())
    requires b.values == dst.values ==> b.rows == a.rows && b.cols == a.cols
    modifies dst.values
    ensures dst.Entries() == A.ZipWith(old(a.Entries()), old(b.Entries()), op)
  {
    ghost var E, F, O := a.Entries(), b.Entries(), dst.values[..];
    ghost var R := A.ZipWith(E, F, op);
    assert a.values == dst.values ==> O == E.vals;
    assert b.values == dst.values ==> O == F.vals;
    var c := a.cols;
    var i := 0;
    while i < a.rows
      invariant 0 <= i <= a.rows
      invariant i * c <= dst.values.Length == |R.vals| == |O|
      invariant a.values != dst.values ==> a.values[..] == E.vals
      invariant b.values != dst.values ==> b.values[..] == F.vals
      invariant forall k :: 0 <= k < i * c ==> dst.values[k] == R.vals[k]
      invariant forall k :: i * c <= k < dst.values.Length ==> dst.values[k] == O[k]
    {
      FlatIndex.MulMono(i + 1, a.rows, c);
      assert (i + 1) * c == i * c + c;
      ZipRow(a, b, dst, op, i, E, F, O);
      i := i + 1;
    }
    assert dst.values[..] == R.vals;
  }

  /**
   * One pass of the outer loop of ZipInto: row i of dst. The entries of a and b not yet
   * overwritten still hold E and F, whichever of them dst shares its storage with.
   */
  method ZipRow(a: Matrix, b: Matrix, dst: Matrix, op: A.Op, i: nat, ghost E: A.Mat, ghost F: A.Mat, ghost O: seq<real>)
    requires a.Valid() && b.Valid() && dst.Valid()
    requires dst.rows == a.rows && dst.cols == a.cols && i < a.rows
    requires E.rows == a.rows && E.cols == a.cols && F.rows == b.rows && F.cols == b.cols
    requires A.Covers(E, F) && (op.DivOp? ==> A.NonZero(F))
    requires b.values == dst.values ==> b.rows == a.rows && b.cols == a.cols
    requires i * dst.cols + dst.cols <= dst.values.Length == |O|
    requires a.values != dst.values ==> a.values[..] == E.vals
    requires b.values != dst.values ==> b.values[..] == F.vals
    requires a.values == dst.values ==> O == E.vals
    requires b.values == dst.values ==> O == F.vals
    requires forall k :: i * dst.cols <= k < dst.values.Length ==> dst.values[k] == O[k]
    modifies dst.values
    ensures forall k :: 0 <= k < i * dst.cols ==> dst.values[k] == old(dst.values[k])
    ensures forall k :: i * dst.cols <= k < i * dst.cols + dst.cols ==> dst.values[k] == A.ZipWith(E, F, op).vals[k]
    ensures forall k :: i * dst.cols + dst.cols <= k < dst.values.Length ==> dst.values[k] == O[k]
  {
    ghost var R := A.ZipWith(E, F, op);
    var c := a.cols;
    var j := 0;
    while j < c
      invariant 0 <= j <= c
      invariant a.values != dst.values ==> a.values[..] == E.vals
      invariant b.values != dst.values ==> b.values[..] == F.vals
      invariant forall k :: 0 <= k < i * c ==> dst.values[k] == old(dst.values[k])
      invariant forall k :: i * c <= k < i * c + j ==> dst.values[k] == R.vals[k]
      invariant forall k :: i * c + j <= k < dst.values.Length ==> dst.values[k] == O[k]
    {
      ZipEntry(a, b, dst, op, i, j, E, F, O);
      j := j + 1;
    }
  }

  /** The body of the double loop: dst(i, j) := op(a(i, j), b(i, j)), reading before writing. */
  method ZipEntry(a: Matrix, b: Matrix, dst: Matrix, op: A.Op, i: nat, j: nat, ghost E: A.Mat, ghost F: A.Mat, ghost O: seq<real>)
    requires a.Valid() && b.Valid() && dst.Valid()
    requires dst.rows == a.rows && dst.cols == a.cols && i < a.rows && j < a.cols
    requires E.rows == a.rows && E.cols == a.cols && F.rows == b.rows && F.cols == b.cols
    requires A.Covers(E, F) && (op.DivOp? ==> A.NonZero(F))
    requires b.values == dst.values ==> b.rows == a.rows && b.cols == a.cols
    requires dst.values.Length == |O|
    requires a.values != dst.values ==> a.values[..] == E.vals
    requires b.values != dst.values ==> b.values[..] == F.vals
    requires a.values == dst.values ==> O == E.vals
    requires b.values == dst.values ==> O == F.vals
    requires forall k :: i * dst.cols + j <= k < dst.values.Length ==> dst.values[k] == O[k]
    modifies dst.values
    ensures 0 <= i * dst.cols + j < dst.values.Length
    ensures dst.values[..] == old(dst.values[..])[i * dst.cols + j := A.ZipWith(E, F, op).vals[i * dst.cols + j]]
  {
    var c := a.cols;
    FlatIndex.InRange(a.rows, c, i, j);
    FlatIndex.InRange(b.rows, b.cols, i, j);
    var x := a.values[i * c + j];
    var y := b.values[i * b.cols + j];
    assert x == E.vals[i * c + j] by {
      if a.values == dst.values { assert dst.values[i * c + j] == O[i * c + j]; }
    }
    assert y == F.vals[i * b.cols + j] by {
      if b.values == dst.values { assert dst.values[i * c + j] == O[i * c + j]; }
    }
    assert x == A.Get(E, i, j) && y == A.Get(F, i, j);
    dst.values[i * c + j] := A.Apply(op, x, y);
  }

  /** `add(src1, src2, dst)`; a null dst is replaced by a new matrix. */
  method Add(src1: Matrix, src2: Matrix, dst: Matrix?) returns (r: Result<Matrix>)
    requires src1.Valid() && src2.Valid() && (dst != null ==> dst.Valid())
    modifies if dst == null then {} else {dst.values}
    ensures Produced(r, dst)
    ensures View(r) == A.Add(old(src1.Entries()), old(src2.Entries()), DstShape(dst))
    ensures r.Failure? && dst != null ==> unchanged(dst.values)
  {
    if src1.rows != src2.rows || src1.cols != src2.cols {
      return Failure(SizeMismatch);
    }
    var out: Matrix;
    if dst == null {
      out := new Matrix.Zero(src1.rows, src1.cols);
    } else if src1.rows != dst.rows || src1.cols != dst.cols {
      return Failure(SizeMismatch);
    } else {
      out := dst;
    }
    ZipInto(src1, src2, out, A.AddOp);
    return Success(out);
  }

  /**
   * `sub(a, b, dst)`. Shapes are compared only when dst is given; with a null dst, b.get throws
   * as soon as the loop leaves b, and the new matrix it was filling is lost.
   */
  method Sub(a: Matrix, b: Matrix, dst: Matrix?) returns (r: Result<Matrix>)
    requires a.Valid() && b.Valid() && (dst != null ==> dst.Valid())
    modifies if dst == null then {} else {dst.values}
    ensures Produced(r, dst)
    ensures View(r) == A.Sub(old(a.Entries()), old(b.Entries()), DstShape(dst))
    ensures r.Failure? && dst != null ==> unchanged(dst.values)
  {
    var out: Matrix;
    if dst == null {
      out := new Matrix.Zero(a.rows, a.cols);
      if !(a.rows == 0 || a.cols == 0 || (a.rows <= b.rows && a.cols <= b.cols)) {
        return Failure(OutOfBound);
      }
    } else if a.rows != b.rows || a.cols != b.cols || a.rows != dst.rows || a.cols != dst.cols {
      return Failure(SizeMismatch);
    } else {
      out := dst;
    }
    ZipInto(a, b, out, A.SubOp);
    return Success(out);
  }

  /** `scl(src, dst, val)`: every entry multiplied by val. */
  method Scl(src: Matrix, dst: Matrix?, val: real) returns (r: Result<Matrix>)
    requires src.Valid() && (dst != null ==> dst.Valid())
    modifies if dst == null then {} else {dst.values}
    ensures Produced(r, dst)
    ensures View(r) == A.Scl(old(src.Entries()), DstShape(dst), val)
    ensures r.Failure? && dst != null ==> unchanged(dst.values)
  {
    var out: Matrix;
    if dst == null {
      out := new Matrix.Zero(src.rows, src.cols);
    } else if src.rows != dst.rows || src.cols != dst.cols {
      return Failure(SizeMismatch);
    } else {
      out := dst;
    }
    ZipInto(src, src, out, A.ScaleOp(val));
    return Success(out);
  }

  /** `pro(a, b, dst)`: the Hadamard (entrywise) product, checked like sub. */
  method Pro(a: Matrix, b: Matrix, dst: Matrix?) returns (r: Result<Matrix>)
    requires a.Valid() && b.Valid() && (dst != null ==> dst.Valid())
    modifies if dst == null then {} else {dst.values}
    ensures Produced(r, dst)
    ensures View(r) == A.Pro(old(a.Entries()), old(b.Entries()), DstShape(dst))
    ensures r.Failure? && dst != null ==> unchanged(dst.values)
  {
    var out: Matrix;
    if dst == null {
      out := new Matrix.Zero(a.rows, a.cols);
      if !(a.rows == 0 || a.cols == 0 || (a.rows <= b.rows && a.cols <= b.cols)) {
        return Failure(OutOfBound);
      }
    } else if a.rows != b.rows || a.cols != b.cols || a.rows != dst.rows || a.cols != dst.cols {
      return Failure(SizeMismatch);
    } else {
      out := dst;
    }
    ZipInto(a, b, out, A.MulOp);
    return Success(out);
  }

  /**
   * `hadamardDivision(a, b, dst)`: entrywise a / b. Java divides doubles and never throws on a
   * zero divisor; over exact reals the divisor entries are required to be non-zero.
   */
  method HadamardDivision(a: Matrix, b: Matrix, dst: Matrix) returns (o: Outcome)
    requires a.Valid() && b.Valid() && dst.Valid()
    requires A.NonZero(b.Entries())
    modifies dst.values
    ensures A.HadamardDivision(old(a.Entries()), old(b.Entries()), A.Shape(dst.rows, dst.cols))
            == if o.Pass? then Success(dst.Entries()) else Failure(o.error)
    ensures o.Fail? ==> unchanged(dst.values)
  {
    if a.rows != b.rows || a.cols != b.cols || a.rows != dst.rows || a.cols != dst.cols {
      return Fail(SizeMismatch);
    }
    ZipInto(a, b, dst, A.DivOp);
    return Pass;
  }

  /** `vec(m, dst, f)`, both the Activation and the Derivative overload: f applied to every entry. */
  method Vec(m: Matrix, dst: Matrix?, f: real -> real) returns (r: Result<Matrix>)
    requires m.Valid() && (dst != null ==> dst.Valid())
    modifies if dst == null then {} else {dst.values}
    ensures Produced(r, dst)
    ensures View(r) == A.Vec(old(m.Entries()), DstShape(dst), f)
    ensures r.Failure? && dst != null ==> unchanged(dst.values)
  {
    var out: Matrix;
    if dst == null {
      out := new Matrix.Zero(m.rows, m.cols);
    } else if m.rows != dst.rows || m.cols != dst.cols {
      return Failure(SizeMismatch);
    } else {
      out := dst;
    }
    ZipInto(m, m, out, A.MapOp(f));
    return Success(out);
  }

  /**
   * `getMultipliedEntry(a, b, row, column)`: the sum over i < a.cols of a(row, i) * b(i, column),
   * each entry read with get. The bounds check at the top of the Java method is commented out,
   * so the first out-of-range get throws, and nothing is read when a has no columns.
   */
  method GetMultipliedEntry(a: Matrix, b: Matrix, row: int, column: int) returns (r: Result<real>)
    requires a.Valid() && b.Valid()
    ensures r.Success? <==> a.cols == 0 || (0 <= row < a.rows && 0 <= column < b.cols && a.cols <= b.rows)
    ensures r.Failure? ==> r.error == OutOfBound
    ensures r.Success? && 0 <= row < a.rows && 0 <= column < b.cols ==>
              r.value == A.RowCol(a.Entries(), b.Entries(), row, column, a.cols)
    ensures a.cols == 0 ==> r == Success(0.0)
  {
    ghost var ea, eb := a.Entries(), b.Entries();
    var sum := 0.0;
    var i := 0;
    while i < a.cols
      invariant 0 <= i <= a.cols
      invariant i == 0 ==> sum == 0.0
      invariant i > 0 ==> 0 <= row < a.rows && 0 <= column < b.cols && i <= b.rows && sum == A.RowCol(ea, eb, row, column, i)
    {
      var t := Term(a, b, row, column, i);
      if t.Failure? {
        return Failure(t.error);
      }
      assert A.RowCol(ea, eb, row, column, i + 1) == sum + t.value;
      sum := sum + t.value;
      i := i + 1;
    }
    return Success(sum);
  }

  /** One step of getMultipliedEntry's loop: `a.get(row, i) * b.get(i, column)`, either get throwing. */
  method Term(a: Matrix, b: Matrix, row: int, column: int, i: int) returns (r: Result<real>)
    requires a.Valid() && b.Valid()
    ensures r.Success? <==> 0 <= row < a.rows && 0 <= i < a.cols && 0 <= i < b.rows && 0 <= column < b.cols
    ensures r.Failure? ==> r.error == OutOfBound
    ensures r.Success? ==> r.value == A.Get(a.Entries(), row, i) * A.Get(b.Entries(), i, column)
  {
    var x :- a.Get(row, i);
    var y :- b.Get(i, column);
    return Success(x * y);
  }

  /**
   * `dot(src1, src2, dst)`: the matrix product, entry by entry with getMultipliedEntry.
   * The entries are read from the operands while dst is written, so the product is promised
   * only when dst shares storage with neither operand.
   */
  method Dot(src1: Matrix, src2: Matrix, dst: Matrix?) returns (r: Result<Matrix>)
    requires src1.Valid() && src2.Valid() && (dst != null ==> dst.Valid())
    modifies if dst == null then {} else {dst.values}
    ensures Produced(r, dst)
    ensures r.Success? <==> A.Dot(old(src1.Entries()), old(src2.Entries()), DstShape(dst)).Success?
    ensures r.Failure? ==> r.error == SizeMismatch && (dst != null ==> unchanged(dst.values))
    ensures Separate(src1, src2, dst) ==> View(r) == A.Dot(old(src1.Entries()), old(src2.Entries()), DstShape(dst))
  {
    if src1.cols != src2.rows {
      return Failure(SizeMismatch);
    }
    var out: Matrix;
    if dst == null {
      out := new Matrix.Zero(src1.rows, src2.cols);
    } else if dst.rows != src1.rows || dst.cols != src2.cols {
      return Failure(SizeMismatch);
    } else {
      out := dst;
    }
    ghost var E, F := src1.Entries(), src2.Entries();
    ghost var P := A.Product(E, F);
    ghost var sep := out.values != src1.values && out.values != src2.values;
    assert Separate(src1, src2, dst) ==> sep;
    var c := out.cols;
    var i := 0;
    while i < src1.rows
      invariant 0 <= i <= src1.rows
      invariant i * c <= out.values.Length == |P.vals|
      invariant sep ==> src1.Entries() == E && src2.Entries() == F
      invariant sep ==> forall k :: 0 <= k < i * c ==> out.values[k] == P.vals[k]
    {
      FlatIndex.MulMono(i + 1, src1.rows, c);
      assert (i + 1) * c == i * c + c;
      DotRow(src1, src2, out, i, P, sep);
      i := i + 1;
    }
    assert sep ==> out.values[..] == P.vals;
    return Success(out);
  }

  /** One pass of the outer loop of dot: row i of dst, entry by entry with getMultipliedEntry. */
  method DotRow(src1: Matrix, src2: Matrix, out: Matrix, i: nat, ghost P: A.Mat, ghost sep: bool)
    requires src1.Valid() && src2.Valid() && out.Valid()
    requires src1.cols == src2.rows && out.rows == src1.rows && out.cols == src2.cols && i < src1.rows
    requires i * out.cols + out.cols <= out.values.Length == |P.vals|
    requires sep ==> out.values != src1.values && out.values != src2.values
    requires sep ==> P == A.Product(src1.Entries(), src2.Entries())
    modifies out.values
    ensures forall k :: 0 <= k < i * out.cols ==> out.values[k] == old(out.values[k])
    ensures sep ==> forall k :: i * out.cols <= k < i * out.cols + out.cols ==> out.values[k] == P.vals[k]
  {
    var c := out.cols;
    var j := 0;
    while j < c
      invariant 0 <= j <= c
      invariant forall k :: 0 <= k < i * c ==> out.values[k] == old(out.values[k])
      invariant sep ==> forall k :: i * c <= k < i * c + j ==> out.values[k] == P.vals[k]
    {
      var x := GetMultipliedEntry(src1, src2, i, j);
      FlatIndex.InRange(src1.rows, c, i, j);
      assert sep ==> x.value == A.Get(P, i, j);
      out.values[i * c + j] := x.value;
      j := j + 1;
    }
  }

  /** The innermost loop of multiplyTransposeA: the sum over k of a(k, i) * b(k, j). */
  method ColumnTotal(a: Matrix, b: Matrix, i: nat, j: nat) returns (total: real)
    requires a.Valid() && b.Valid() && a.rows == b.rows && i < a.cols && j < b.cols
    ensures total == A.ColCol(a.Entries(), b.Entries(), i, j, a.rows)
  {
    total := 0.0;
    var k := 0;
    while k < a.rows
      invariant 0 <= k <= a.rows
      invariant total == A.ColCol(a.Entries(), b.Entries(), i, j, k)
    {
      FlatIndex.InRange(a.rows, a.cols, k, i);
      FlatIndex.InRange(b.rows, b.cols, k, j);
      total := total + a.values[k * a.cols + i] * b.values[k * b.cols + j];
      k := k + 1;
    }
  }

  /** The innermost loop of multiplyTransposeB: the sum over k of a(i, k) * b(j, k). */
  method RowTotal(a: Matrix, b: Matrix, i: nat, j: nat) returns (total: real)
    requires a.Valid() && b.Valid() && a.cols == b.cols && i < a.rows && j < b.rows
    ensures total == A.RowRow(a.Entries(), b.Entries(), i, j, a.cols)
  {
    total := 0.0;
    var k := 0;
    while k < a.cols
      invariant 0 <= k <= a.cols
      invariant total == A.RowRow(a.Entries(), b.Entries(), i, j, k)
    {
      FlatIndex.InRange(a.rows, a.cols, i, k);
      FlatIndex.InRange(b.rows, b.cols, j, k);
      total := total + a.values[i * a.cols + k] * b.values[j * b.cols + k];
      k := k + 1;
    }
  }

  /** `multiplyTransposeA(a, b, dst)`: aᵀ · b, each entry summed down the shared rows. */
  method MultiplyTransposeA(a: Matrix, b: Matrix, dst: Matrix) returns (o: Outcome)
    requires a.Valid() && b.Valid() && dst.Valid()
    modifies dst.values
    ensures o.Pass? <==> A.MultiplyTransposeA(old(a.Entries()), old(b.Entries()), A.Shape(dst.rows, dst.cols)).Success?
    ensures o.Fail? ==> o.error == SizeMismatch && unchanged(dst.values)
    ensures o.Pass? && Separate(a, b, dst) ==>
              A.MultiplyTransposeA(old(a.Entries()), old(b.Entries()), A.Shape(dst.rows, dst.cols)) == Success(dst.Entries())
  {
    if a.rows != b.rows || dst.rows != a.cols || dst.cols != b.cols {
      return Fail(SizeMismatch);
    }
    ghost var E, F := a.Entries(), b.Entries();
    ghost var P := A.ProductTA(E, F);
    ghost var sep := Separate(a, b, dst);
    var c := dst.cols;
    var i := 0;
    while i < a.cols
      invariant 0 <= i <= a.cols
      invariant i * c <= dst.values.Length == |P.vals|
      invariant sep ==> forall k :: 0 <= k < i * c ==> dst.values[k] == P.vals[k]
    {
      FlatIndex.MulMono(i + 1, a.cols, c);
      assert (i + 1) * c == i * c + c;
      var j := 0;
      while j < c
        invariant 0 <= j <= c
        invariant i * c + j <= dst.values.Length
        invariant sep ==> forall k :: 0 <= k < i * c + j ==> dst.values[k] == P.vals[k]
      {
        var total := ColumnTotal(a, b, i, j);
        FlatIndex.InRange(a.cols, c, i, j);
        assert sep ==> total == A.Get(P, i, j);
        dst.values[i * c + j] := total;
        j := j + 1;
      }
      i := i + 1;
    }
    assert sep ==> dst.values[..] == P.vals;
    return Pass;
  }

  /** `multiplyTransposeB(a, b, dst)`: a · bᵀ, each entry summed along the shared columns. */
  method MultiplyTransposeB(a: Matrix, b: Matrix, dst: Matrix) returns (o: Outcome)
    requires a.Valid() && b.Valid() && dst.Valid()
    modifies dst.values
    ensures o.Pass? <==> A.MultiplyTransposeB(old(a.Entries()), old(b.Entries()), A.Shape(dst.rows, dst.cols)).Success?
    ensures o.Fail? ==> o.error == SizeMismatch && unchanged(dst.values)
    ensures o.Pass? && Separate(a, b, dst) ==>
              A.MultiplyTransposeB(old(a.Entries()), old(b.Entries()), A.Shape(dst.rows, dst.cols)) == Success(dst.Entries())
  {
    if a.cols != b.cols || dst.rows != a.rows || dst.cols != b.rows {
      return Fail(SizeMismatch);
    }
    ghost var E, F := a.Entries(), b.Entries();
    ghost var P := A.ProductTB(E, F);
    ghost var sep := Separate(a, b, dst);
    var c := dst.cols;
    var i := 0;
    while i < a.rows
      invariant 0 <= i <= a.rows
      invariant i * c <= dst.values.Length == |P.vals|
      invariant sep ==> forall k :: 0 <= k < i * c ==> dst.values[k] == P.vals[k]
    {
      FlatIndex.MulMono(i + 1, a.rows, c);
      assert (i + 1) * c == i * c + c;
      var j := 0;
      while j < c
        invariant 0 <= j <= c
        invariant i * c + j <= dst.values.Length
        invariant sep ==> forall k :: 0 <= k < i * c + j ==> dst.values[k] == P.vals[k]
      {
        var total := RowTotal(a, b, i, j);
        FlatIndex.InRange(a.rows, c, i, j);
        assert sep ==> total == A.Get(P, i, j);
        dst.values[i * c + j] := total;
        j := j + 1;
      }
      i := i + 1;
    }
    assert sep ==> dst.values[..] == P.vals;
    return Pass;
  }

  /**
   * The static `transpose(m, dst)`: rejects a non-square m, then sets dst(j, i) to m(i, j) for
   * every (i, j) of m, row by row. dst itself is not checked: a dst too small for m throws
   * "Out of matrix bound" from set once the loop leaves it, after the writes made so far.
   */
  method Transpose(m: Matrix, dst: Matrix) returns (o: Outcome)
    requires m.Valid() && dst.Valid()
    modifies dst.values
    ensures o.Pass? <==> m.rows == m.cols && (m.rows == 0 || (m.rows <= dst.rows && m.rows <= dst.cols))
    ensures m.rows != m.cols ==> o == Fail(SizeMismatch) && unchanged(dst.values)
    ensures o.Fail? && m.rows == m.cols ==> o.error == OutOfBound
    ensures o.Pass? && dst.values != m.values && m.rows > 0 ==>
              dst.Entries() == A.TransposeOnto(old(dst.Entries()), old(m.Entries()))
    ensures o.Pass? && m.rows == 0 ==> unchanged(dst.values)
  {
    if m.rows != m.cols || m.cols != m.rows {
      return Fail(SizeMismatch);
    }
    var n := m.rows;
    ghost var D, M := dst.Entries(), m.Entries();
    ghost var sep := dst.values != m.values;
    ghost var T := D;
    var i := 0;
    while i < n
      invariant 0 <= i <= n
      invariant i > 0 ==> n <= dst.rows && i <= dst.cols
      invariant n == 0 ==> unchanged(dst.values)
      invariant dst.Entries() == T
      invariant sep ==> forall p, q :: 0 <= p < dst.rows && 0 <= q < dst.cols ==>
                  A.Get(T, p, q) == if p < n && q < i then A.Get(M, q, p) else A.Get(D, p, q)
    {
      var j := 0;
      while j < n
        invariant 0 <= j <= n
        invariant j > 0 ==> j <= dst.rows && i < dst.cols
        invariant i > 0 ==> n <= dst.rows && i <= dst.cols
        invariant dst.Entries() == T
        invariant sep ==> forall p, q :: 0 <= p < dst.rows && 0 <= q < dst.cols ==>
                    A.Get(T, p, q) == if p < n && (q < i || (q == i && p < j)) then A.Get(M, q, p) else A.Get(D, p, q)
      {
        FlatIndex.InRange(n, n, i, j);
        var x := m.values[i * n + j];
        assert sep ==> x == A.Get(M, i, j);
        var o := dst.Set(j, i, x);
        if o.Fail? {
          return o;
        }
        T := A.Updated(T, j, i, x);
        j := j + 1;
      }
      i := i + 1;
    }
    if sep && n > 0 {
      A.Ext(dst.Entries(), A.TransposeOnto(D, M));
    }
    return Pass;
  }

  /** `getIdentity(size)`: a new zero matrix with 1 set down the diagonal. */
  method GetIdentity(size: nat) returns (m: Matrix)
    ensures fresh(m) && fresh(m.values) && m.Valid()
    ensures m.Entries() == A.IdentityMat(size)
  {
    m := new Matrix.Zero(size, size);
    forall p, q | 0 <= p < size && 0 <= q < size
      ensures A.Get(m.Entries(), p, q) == 0.0
    {
      FlatIndex.InRange(size, size, p, q);
    }
    var i := 0;
    while i < size
      invariant 0 <= i <= size
      invariant forall p, q :: 0 <= p < size && 0 <= q < size ==>
                  A.Get(m.Entries(), p, q) == if p == q && p < i then 1.0 else 0.0
    {
      var o := m.Set(i, i, 1.0);
      i := i + 1;
    }
    A.Ext(m.Entries(), A.IdentityMat(size));
  }

  /** `getZero(size)`: a new size-by-size zero matrix. */
  method GetZero(size: nat) returns (m: Matrix)
    ensures fresh(m) && fresh(m.values) && m.Valid()
    ensures m.Entries() == A.Zeros(size, size)
  {
    m := new Matrix.Zero(size, size);
  }

  /**
   * `max(src)`: the position of the first largest entry in row-major order, found by a strict
   * comparison against the best so far (which starts at negative infinity); {0, 0} when src
   * has no entries.
   */
  method Max(src: Matrix) returns (row: int, col: int)
    requires src.Valid()
    ensures src.rows == 0 || src.cols == 0 ==> row == 0 && col == 0
    ensures src.rows > 0 && src.cols > 0 ==> A.IsFirstMax(src.Entries(), row, col)
  {
    ghost var E := src.Entries();
    var best: Option<real> := None;
    row, col := 0, 0;
    var i := 0;
    while i < src.rows
      invariant 0 <= i <= src.rows
      invariant best.None? ==> row == 0 && col == 0 && (i == 0 || src.cols == 0)
      invariant best.Some? ==> 0 <= row < i && 0 <= col < src.cols && best.value == A.Get(E, row, col)
      invariant best.Some? ==> forall p, q :: 0 <= p < i && 0 <= q < src.cols ==> A.Get(E, p, q) <= best.value
      invariant best.Some? ==> forall p, q :: 0 <= p < i && 0 <= q < src.cols && (p < row || (p == row && q < col)) ==>
                  A.Get(E, p, q) < best.value
    {
      var j := 0;
      while j < src.cols
        invariant 0 <= j <= src.cols
        invariant best.None? ==> row == 0 && col == 0 && ((i == 0 && j == 0) || src.cols == 0)
        invariant best.Some? ==> 0 <= row <= i && 0 <= col < src.cols && (row < i || col < j) && best.value == A.Get(E, row, col)
        invariant best.Some? ==> forall p, q :: 0 <= p < src.rows && 0 <= q < src.cols && (p < i || (p == i && q < j)) ==>
                    A.Get(E, p, q) <= best.value
        invariant best.Some? ==> forall p, q :: 0 <= p < src.rows && 0 <= q < src.cols && (p < row || (p == row && q < col)) ==>
                    A.Get(E, p, q) < best.value
      {
        FlatIndex.InRange(src.rows, src.cols, i, j);
        var v := src.values[i * src.cols + j];
        if best.None? || v > best.value {
          best := Some(v);
          row, col := i, j;
        }
        j := j + 1;
      }
      i := i + 1;
    }
  }
}
