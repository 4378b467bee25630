/** Facts about the row-major index `i * cols + j` used by every matrix in this model. */
module FlatIndex {
  lemma MulMono(a: int, b: int, c: nat)
    requires a <= b
    ensures a * c <= b * c
  {
    var d := b - a;
    assert b * c == a * c + d * c;
  }

  lemma InRange(r: nat, c: nat, i: int, j: int)
    requires 0 <= i < r && 0 <= j < c
    ensures 0 <= i * c + j < r * c
  {
    MulMono(i + 1, r, c);
    MulMono(0, i, c);
    assert (i + 1) * c == i * c + c;
  }

  lemma DivUnique(k: int, c: nat, q: int, m: int)
    requires 0 <= m < c && k == q * c + m
    ensures k / c == q && k % c == m
  {
    var q', m' := k / c, k % c;
    assert k == q' * c + m';
    assert (q' + 1) * c == q' * c + c;
    assert (q + 1) * c == q * c + c;
    if q' < q {
      MulMono(q' + 1, q, c);
    } else if q < q' {
      MulMono(q + 1, q', c);
    }
  }

  lemma DivMod(c: nat, i: int, j: int)
    requires 0 <= j < c
    ensures (i * c + j) / c == i && (i * c + j) % c == j
  {
    DivUnique(i * c + j, c, i, j);
  }

  lemma Split(r: nat, c: nat, k: int)
    requires 0 <= k < r * c
    ensures c > 0 && 0 <= k / c < r && 0 <= k % c < c && k == (k / c) * c + k % c
  {
    if c > 0 {
      var q := k / c;
      assert k == q * c + k % c;
      if q >= r {
        MulMono(r, q, c);
      }
      if q < 0 {
        MulMono(q, -1, c);
      }
    }
  }

  /** Stepping k up by one raises k / c by one exactly when c divides the new k. */
  lemma DivStep(c: nat, k: int)
    requires c > 0 && k >= 1
    ensures k / c == (k - 1) / c + (if k % c == 0 then 1 else 0)
  {
    var q, m := (k - 1) / c, (k - 1) % c;
    DivMod(c, q, m);
    if m == c - 1 {
      assert k == (q + 1) * c + 0;
      DivMod(c, q + 1, 0);
    } else {
      DivMod(c, q, m + 1);
    }
  }

  lemma Injective(c: nat, i: int, j: int, p: int, q: int)
    requires 0 <= j < c && 0 <= q < c && i * c + j == p * c + q
    ensures i == p && j == q
  {
    DivMod(c, i, j);
    DivMod(c, p, q);
  }

  /** The offset of entry (i, j) of block k, for n blocks of r-by-c entries laid end to end. */
  lemma InRange3(n: nat, r: nat, c: nat, k: int, i: int, j: int)
    requires 0 <= k < n && 0 <= i < r && 0 <= j < c
    ensures 0 <= i * c + j < r * c
    ensures 0 <= k * (r * c) + (i * c + j) < n * (r * c)
  {
    InRange(r, c, i, j);
    InRange(n, r * c, k, i * c + j);
  }
}
