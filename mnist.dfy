/**
 * The helpers of src/utils/MNIST.java: the joint shuffle of inputs and targets, the magic
 * number check, the decoders of the IDX label and image files of the MNIST database (over the
 * bytes of the file, already in memory), and the text rendering of an image.
 *
 * `java.util.Random` is replaced by an oracle: `pick(i)` is the value `nextInt(i)` returns.
 */
module Mnist {
  import opened Results
  import FlatIndex

  const LabelFileMagic: int := 2049
  const ImageFileMagic: int := 2051

  /*** assertMagicNumber ***/

  /** Returns normally iff the numbers agree; otherwise the message depends on the expected one. */
  function AssertMagicNumber(expected: int, magic: int): (o: Outcome)
    ensures o.Pass? <==> expected == magic
    ensures o.Fail? && expected == LabelFileMagic ==> o.error == NotLabelFile
    ensures o.Fail? && expected == ImageFileMagic ==> o.error == NotImageFile
    ensures o.Fail? && expected != LabelFileMagic && expected != ImageFileMagic ==> o.error == MagicMismatch(expected, magic)
  {
    if expected == magic then Pass
    else if expected == LabelFileMagic then Fail(NotLabelFile)
    else if expected == ImageFileMagic then Fail(NotImageFile)
    else Fail(MagicMismatch(expected, magic))
  }

  /*** shuffle ***/

  /** `nextInt(i)` draws from [0, i). */
  ghost predicate Draws(pick: nat -> nat)
  {
    forall i: nat :: 0 < i ==> pick(i) < i
  }

  /** One step of the loop: the cells i and r exchange their contents. */
  function Swap<T>(s: seq<T>, i: nat, r: nat): (t: seq<T>)
    requires i < |s| && r < |s|
    ensures |t| == |s| && t[i] == s[r] && t[r] == s[i]
    ensures forall k :: 0 <= k < |s| && k != i && k != r ==> t[k] == s[k]
  {
    s[i := s[r]][r := s[i]]
  }

  /** The steps i, i - 1, ..., 1 of the loop, step k swapping cell k with cell pick(k). */
  function Shuffled<T>(s: seq<T>, pick: nat -> nat, i: nat): (t: seq<T>)
    requires Draws(pick) && (i < |s| || i == 0)
    ensures |t| == |s|
    decreases i
  {
    if i == 0 then s else Shuffled(Swap(s, i, pick(i)), pick, i - 1)
  }

  /** The whole loop `for (i = length - 1; i > 0; i--)` on one array. */
  function ShuffleSeq<T>(s: seq<T>, pick: nat -> nat): (t: seq<T>)
    requires Draws(pick)
    ensures |t| == |s|
  {
    if |s| <= 1 then s else Shuffled(s, pick, |s| - 1)
  }

  /** Both arrays after `shuffle(a, b)`, or the exception it throws on a b shorter than a. */
  function ShuffleBoth<T>(a: seq<T>, b: seq<T>, pick: nat -> nat): (r: Result<(seq<T>, seq<T>)>)
    requires Draws(pick)
    ensures r.Success? <==> |a| <= 1 || |a| <= |b|
    ensures r.Failure? ==> r.error == IndexOutOfRange
    ensures r.Success? ==> |r.value.0| == |a| && |r.value.1| == |b|
  {
    if |a| <= 1 then Success((a, b))
    else if |a| > |b| then Failure(IndexOutOfRange)
    else Success((ShuffleSeq(a, pick), ShuffleSeq(b[..|a|], pick) + b[|a|..]))
  }

  /**
   * `shuffle(a, b)`: the same Sattolo-style swaps on a and on b. b may be longer than a (its
   * extra cells are never touched); a shorter b throws on its first access, before any write.
   */
  method Shuffle<T>(a: array<T>, b: array<T>, pick: nat -> nat) returns (o: Outcome)
    requires Draws(pick)
    modifies a, b
    ensures o.Pass? <==> a.Length <= 1 || a.Length <= b.Length
    ensures o.Fail? ==> o.error == IndexOutOfRange && a[..] == old(a[..]) && b[..] == old(b[..])
    ensures o.Pass? ==> a[..] == ShuffleSeq(old(a[..]), pick)
    ensures o.Pass? && a.Length <= b.Length ==> b[..] == ShuffleSeq(old(b[..a.Length]), pick) + old(b[a.Length..])
    ensures o.Pass? && a.Length > b.Length ==> b[..] == old(b[..])
    ensures o.Pass? ==> ShuffleBoth(old(a[..]), old(b[..]), pick) == Success((a[..], b[..]))
  {
    var n := a.Length;
    if n <= 1 {
      if n <= b.Length {
        assert b[..] == b[..n] + b[n..];
      }
      return Pass;
    }
    ghost var A0, B0 := a[..], b[..];
    var i := n - 1;
    while i > 0
      invariant 0 <= i <= n - 1
      invariant Shuffled(a[..], pick, i) == Shuffled(A0, pick, n - 1)
      invariant i == n - 1 ==> a[..] == A0 && b[..] == B0
      invariant i < n - 1 ==> n <= b.Length
      invariant n <= b.Length ==> Shuffled(b[..n], pick, i) == Shuffled(B0[..n], pick, n - 1) && b[n..] == B0[n..]
    {
      var r := pick(i);
      if i >= b.Length {
        assert a[..] == old(a[..]) && b[..] == old(b[..]);
        return Fail(IndexOutOfRange);
      }
      SwapStep(a, b, i, r, n);
      i := i - 1;
    }
    assert b[..] == b[..n] + b[n..];
    return Pass;
  }

  /** The writes of one loop step: cells i and r exchange in a and in the first n cells of b. */
  method SwapStep<T>(a: array<T>, b: array<T>, i: nat, r: nat, n: nat)
    requires i < n == a.Length && n <= b.Length && r < n
    modifies a, b
    ensures a[..] == Swap(old(a[..]), i, r)
    ensures b[..n] == Swap(old(b[..n]), i, r) && b[n..] == old(b[n..])
  {
    var tempA, tempB := a[i], b[i];
    a[i] := a[r];
    b[i] := b[r];
    a[r] := tempA;
    b[r] := tempB;
  }

  /** Shuffling keeps every element: the result is a permutation of the input. */
  lemma {:induction false} ShuffledPermutes<T>(s: seq<T>, pick: nat -> nat, i: nat)
    requires Draws(pick) && (i < |s| || i == 0)
    ensures multiset(Shuffled(s, pick, i)) == multiset(s)
    decreases i
  {
    if i > 0 {
      SwapPermutes(s, i, pick(i));
      ShuffledPermutes(Swap(s, i, pick(i)), pick, i - 1);
    }
  }

  /** One swap keeps every element. */
  lemma SwapPermutes<T>(s: seq<T>, i: nat, r: nat)
    requires i < |s| && r < |s|
    ensures multiset(Swap(s, i, r)) == multiset(s)
  {
    calc {
      multiset(s[i := s[r]][r := s[i]]);
      multiset(s[i := s[r]]) - multiset{s[i := s[r]][r]} + multiset{s[i]};
      multiset(s) - multiset{s[i]} + multiset{s[r]} - multiset{s[r]} + multiset{s[i]};
      multiset(s);
    }
  }

  /** The indices 0 .. n - 1 in order. */
  function Iota(n: nat): (s: seq<nat>)
    ensures |s| == n && forall k :: 0 <= k < n ==> s[k] == k
  {
    seq(n, k => k)
  }

  /**
   * Shuffling moves cells by an index map that depends only on the draws: if cell k of s holds
   * cell ix[k] of t, the same holds after the same swaps are applied to both s and ix.
   */
  lemma {:induction false} ShuffledFollowsIndices<T>(s: seq<T>, t: seq<T>, ix: seq<nat>, pick: nat -> nat, i: nat)
    requires Draws(pick) && (i < |s| || i == 0) && |ix| == |s|
    requires forall k :: 0 <= k < |ix| ==> ix[k] < |t| && s[k] == t[ix[k]]
    ensures forall k :: 0 <= k < |s| ==> 0 <= Shuffled(ix, pick, i)[k] < |t| && Shuffled(s, pick, i)[k] == t[Shuffled(ix, pick, i)[k]]
    decreases i
  {
    if i > 0 {
      var r := pick(i);
      var s', ix' := Swap(s, i, r), Swap(ix, i, r);
      assert forall k :: 0 <= k < |ix'| ==> ix'[k] < |t| && s'[k] == t[ix'[k]];
      ShuffledFollowsIndices(s', t, ix', pick, i - 1);
    }
  }

  /** The index permutation a shuffle of n cells applies, for given draws. */
  function Permutation(n: nat, pick: nat -> nat): (p: seq<nat>)
    requires Draws(pick)
    ensures |p| == n
  {
    ShuffleSeq(Iota(n), pick)
  }

  /**
   * Cell k of a shuffled sequence is cell Permutation(|s|, pick)[k] of the input, and that map
   * is a permutation of 0 .. |s| - 1. Since the map does not depend on the contents, the two
   * arrays `shuffle` handles with one set of draws keep each input next to its target.
   */
  lemma ShuffleIsPermutation<T>(s: seq<T>, pick: nat -> nat)
    requires Draws(pick)
    ensures multiset(ShuffleSeq(s, pick)) == multiset(s)
    ensures multiset(Permutation(|s|, pick)) == multiset(Iota(|s|))
    ensures forall k :: 0 <= k < |s| ==> Permutation(|s|, pick)[k] < |s| && ShuffleSeq(s, pick)[k] == s[Permutation(|s|, pick)[k]]
  {
    if |s| > 1 {
      ShuffledPermutes(s, pick, |s| - 1);
      ShuffledPermutes(Iota(|s|), pick, |s| - 1);
      ShuffledFollowsIndices(s, s, Iota(|s|), pick, |s| - 1);
    }
  }

  /** Corollary for `shuffle(a, b)`: entry k of both results comes from one common input index. */
  lemma ShuffleKeepsPairs<T, U>(a: seq<T>, b: seq<U>, pick: nat -> nat, k: int)
    requires Draws(pick) && |a| == |b| && 0 <= k < |a|
    ensures exists p :: 0 <= p < |a| && ShuffleSeq(a, pick)[k] == a[p] && ShuffleSeq(b, pick)[k] == b[p]
  {
    ShuffleIsPermutation(a, pick);
    ShuffleIsPermutation(b, pick);
    var p := Permutation(|a|, pick)[k];
    assert ShuffleSeq(a, pick)[k] == a[p] && ShuffleSeq(b, pick)[k] == b[p];
  }

  /** Step k only writes cells k and pick(k) < k: the steps i, ..., 1 leave the cells above i alone. */
  lemma {:induction false} ShuffledKeepsAbove<T>(s: seq<T>, pick: nat -> nat, i: nat)
    requires Draws(pick) && (i < |s| || i == 0)
    ensures forall k :: i < k < |s| ==> Shuffled(s, pick, i)[k] == s[k]
    decreases i
  {
    if i > 0 {
      ShuffledKeepsAbove(Swap(s, i, pick(i)), pick, i - 1);
    }
  }

  /**
   * Because `nextInt(i)` never returns i, the shuffle never leaves the last cell in place: the
   * last element of the result is the one the first draw picked, and it came from below.
   */
  lemma LastCellMoves<T>(s: seq<T>, pick: nat -> nat)
    requires Draws(pick) && |s| >= 2
    ensures ShuffleSeq(s, pick)[|s| - 1] == s[pick(|s| - 1)]
    ensures Permutation(|s|, pick)[|s| - 1] == pick(|s| - 1) < |s| - 1
  {
    var n := |s|;
    ShuffledKeepsAbove(Swap(s, n - 1, pick(n - 1)), pick, n - 2);
    ShuffledKeepsAbove(Swap(Iota(n), n - 1, pick(n - 1)), pick, n - 2);
  }

  /*** the IDX files, read through a java.nio.ByteBuffer ***/

  /** A byte of the file, written as its unsigned value `b & 0xFF`. */
  type Byte = x: int | 0 <= x < 256

  /** `ByteBuffer.get()` yields the byte as a signed Java `byte`. */
  function Signed(b: Byte): (v: int)
    ensures -128 <= v < 128 && (v == b || v == b - 256)
  {
    if b < 128 then b else b - 256
  }

  /** `v & 0xFF` on the 32-bit two's complement form of v; the remainder is Euclidean. */
  function Unsigned(v: int): Byte
  {
    v % 256
  }

  /** The unsigned conversion the readers apply after each `get()` recovers the byte of the file. */
  lemma UnsignedUndoesSigned(b: Byte)
    ensures Unsigned(Signed(b)) == b
    ensures forall b': Byte :: Signed(b') == Signed(b) ==> b' == b
  {
    assert (b - 256) % 256 == b;
  }

  const TwoTo31: int := 0x8000_0000
  const TwoTo32: int := 0x1_0000_0000

  /** `ByteBuffer.getInt()` at offset p: four bytes, big-endian (the default order), as a signed 32-bit int. */
  function Int32At(bytes: seq<Byte>, p: nat): (v: int)
    requires p + 4 <= |bytes|
    ensures -TwoTo31 <= v < TwoTo31
  {
    var u: int := ((bytes[p] as int * 256 + bytes[p + 1]) * 256 + bytes[p + 2]) * 256 + bytes[p + 3];
    if u < TwoTo31 then u else u - TwoTo32
  }

  /** The four bytes an IDX file stores for the 32-bit int v. */
  function BigEndian(v: int): (bs: seq<Byte>)
    requires -TwoTo31 <= v < TwoTo31
    ensures |bs| == 4
  {
    var u := if v < 0 then v + TwoTo32 else v;
    var q1 := u / 256;
    var q2 := q1 / 256;
    [q2 / 256, q2 % 256, q1 % 256, u % 256]
  }

  lemma BigEndianDigits(v: int)
    requires -TwoTo31 <= v < TwoTo31
    ensures var bs := BigEndian(v); var u := ((bs[0] as int * 256 + bs[1]) * 256 + bs[2]) * 256 + bs[3];
      u == (if v < 0 then v + TwoTo32 else v)
  {
    var u := if v < 0 then v + TwoTo32 else v;
    var q1 := u / 256;
    var q2 := q1 / 256;
    assert u == q1 * 256 + u % 256;
    assert q1 == q2 * 256 + q1 % 256;
    assert q2 == (q2 / 256) * 256 + q2 % 256;
  }

  /** `getInt` reads back what BigEndian writes, whatever precedes and follows it. */
  lemma Int32RoundTrip(v: int, prefix: seq<Byte>, rest: seq<Byte>)
    requires -TwoTo31 <= v < TwoTo31
    ensures Int32At(prefix + BigEndian(v) + rest, |prefix|) == v
  {
    var bs := prefix + BigEndian(v) + rest;
    var p := |prefix|;
    BigEndianDigits(v);
    assert bs[p..p + 4] == BigEndian(v);
    assert bs[p] == BigEndian(v)[0] && bs[p + 1] == BigEndian(v)[1];
    assert bs[p + 2] == BigEndian(v)[2] && bs[p + 3] == BigEndian(v)[3];
  }

  /** The result of `getLabels` on a file: the labels, or the exception it throws. */
  function DecodeLabels(bytes: seq<Byte>): (r: Result<seq<int>>)
    ensures r.Success? ==> |bytes| >= 8 && Int32At(bytes, 0) == LabelFileMagic && |r.value| == Int32At(bytes, 4)
    ensures r.Success? ==> forall k :: 0 <= k < |r.value| ==> 0 <= r.value[k] < 256
    ensures r.Success? <==>
      |bytes| >= 8 && Int32At(bytes, 0) == LabelFileMagic && 0 <= Int32At(bytes, 4) && 8 + Int32At(bytes, 4) <= |bytes|
    ensures r == Failure(NotLabelFile) <==> |bytes| >= 4 && Int32At(bytes, 0) != LabelFileMagic
    ensures r == Failure(NegativeArraySize) <==> |bytes| >= 8 && Int32At(bytes, 0) == LabelFileMagic && Int32At(bytes, 4) < 0
    ensures r.Failure? ==> r.error == NotLabelFile || r.error == NegativeArraySize || r.error == BufferUnderflow
  {
    if |bytes| < 4 then Failure(BufferUnderflow)
    else if Int32At(bytes, 0) != LabelFileMagic then Failure(NotLabelFile)
    else if |bytes| < 8 then Failure(BufferUnderflow)
    else
      var n := Int32At(bytes, 4);
      if n < 0 then Failure(NegativeArraySize)
      else if |bytes| < 8 + n then Failure(BufferUnderflow)
      else Success(bytes[8..8 + n])
  }

  /** The label file holding the given labels. */
  function EncodeLabels(labels: seq<Byte>): (bytes: seq<Byte>)
    requires |labels| < TwoTo31
    ensures |bytes| == 8 + |labels|
  {
    BigEndian(LabelFileMagic) + BigEndian(|labels|) + labels
  }

  /** Reading a label file written by EncodeLabels gives back its labels. */
  lemma LabelsRoundTrip(labels: seq<Byte>)
    requires |labels| < TwoTo31
    ensures DecodeLabels(EncodeLabels(labels)) == Success(labels)
  {
    var bytes := EncodeLabels(labels);
    Int32RoundTrip(LabelFileMagic, [], BigEndian(|labels|) + labels);
    assert bytes == [] + BigEndian(LabelFileMagic) + (BigEndian(|labels|) + labels);
    Int32RoundTrip(|labels|, BigEndian(LabelFileMagic), labels);
    assert Int32At(bytes, 0) == LabelFileMagic && Int32At(bytes, 4) == |labels|;
    assert bytes[8..8 + |labels|] == labels;
  }

  /** Pixel j of row i of an image of r rows and c columns stored from offset p. */
  function PixelOf(bytes: seq<Byte>, p: nat, r: nat, c: nat, i: int, j: int): (px: int)
    requires p + r * c <= |bytes| && 0 <= i < r && 0 <= j < c
    ensures 0 <= px < 256
  {
    FlatIndex.InRange(r, c, i, j);
    bytes[p + (i * c + j)]
  }

  /** The r rows of c pixels stored from offset p, row after row (what `readImage` returns). */
  function Image(bytes: seq<Byte>, p: nat, r: nat, c: nat): (img: seq<seq<int>>)
    requires p + r * c <= |bytes|
    ensures |img| == r && forall i :: 0 <= i < r ==> |img[i]| == c
    ensures forall i, j :: 0 <= i < r && 0 <= j < |img[i]| ==> 0 <= img[i][j] < 256
  {
    seq(r, i requires 0 <= i < r => seq(c, j requires 0 <= j < c => PixelOf(bytes, p, r, c, i, j)))
  }

  /** Block k of n blocks of s cells ends within the n blocks. */
  lemma BlockFits(n: nat, s: nat, k: int)
    requires 0 <= k < n
    ensures k * s + s <= n * s
  {
    FlatIndex.MulMono(k + 1, n, s);
  }

  /** n images of r rows and c columns stored from offset p, image after image. */
  function Images(bytes: seq<Byte>, p: nat, n: nat, r: nat, c: nat): (imgs: seq<seq<seq<int>>>)
    requires p + n * (r * c) <= |bytes|
    ensures |imgs| == n
    ensures forall k :: 0 <= k < n ==> |imgs[k]| == r
    ensures forall k, i :: 0 <= k < n && 0 <= i < |imgs[k]| ==> |imgs[k][i]| == c
    ensures forall k, i, j :: 0 <= k < n && 0 <= i < |imgs[k]| && 0 <= j < |imgs[k][i]| ==> 0 <= imgs[k][i][j] < 256
  {
    seq(n, k requires 0 <= k < n => BlockFits(n, r * c, k); Image(bytes, p + k * (r * c), r, c))
  }

  /**
   * The result of `getImages` on a file: magic, count, rows and columns come first; then each
   * image allocates `new int[rows][]` and each row `new int[cols]` before reading its pixels.
   */
  function DecodeImages(bytes: seq<Byte>): (r: Result<seq<seq<seq<int>>>>)
    ensures r.Success? ==> |bytes| >= 16 && Int32At(bytes, 0) == ImageFileMagic
    ensures r.Success? ==> |r.value| == if Int32At(bytes, 4) < 0 then 0 else Int32At(bytes, 4)
    ensures r.Success? ==> forall k :: 0 <= k < |r.value| ==> |r.value[k]| == Int32At(bytes, 8)
    ensures r.Success? ==> forall k, i :: 0 <= k < |r.value| && 0 <= i < |r.value[k]| ==> |r.value[k][i]| == Int32At(bytes, 12)
    ensures r.Success? ==> forall k, i, j :: 0 <= k < |r.value| && 0 <= i < |r.value[k]| && 0 <= j < |r.value[k][i]| ==> 0 <= r.value[k][i][j] < 256
    ensures r.Success? <==>
      |bytes| >= 16 && Int32At(bytes, 0) == ImageFileMagic && PixelsFit(bytes, Int32At(bytes, 4), Int32At(bytes, 8), Int32At(bytes, 12))
    ensures r == Failure(NotImageFile) <==> |bytes| >= 4 && Int32At(bytes, 0) != ImageFileMagic
    ensures r == Failure(NegativeArraySize) <==>
      |bytes| >= 16 && Int32At(bytes, 0) == ImageFileMagic && NegativeDimension(Int32At(bytes, 4), Int32At(bytes, 8), Int32At(bytes, 12))
    ensures r.Failure? ==> r.error == NotImageFile || r.error == NegativeArraySize || r.error == BufferUnderflow
  {
    if |bytes| < 4 then Failure(BufferUnderflow)
    else if Int32At(bytes, 0) != ImageFileMagic then Failure(NotImageFile)
    else if |bytes| < 16 then Failure(BufferUnderflow)
    else
      DecodePixels(bytes, Int32At(bytes, 4), Int32At(bytes, 8), Int32At(bytes, 12))
  }

  /**
   * The first image allocates `new int[numRows][]`, and, when it has rows, its first row
   * `new int[numCols]`: a negative size there throws before any pixel is read.
   */
  predicate NegativeDimension(n: int, rows: int, cols: int)
  {
    n > 0 && (rows < 0 || (rows > 0 && cols < 0))
  }

  /**
   * The n images read from offset 16 need no allocation of a negative size and no byte
   * beyond the end of the file: no image, images without rows, or n * rows * cols bytes present.
   */
  predicate PixelsFit(bytes: seq<Byte>, n: int, rows: int, cols: int)
  {
    n <= 0 || rows == 0 || (rows > 0 && cols >= 0 && 16 + n * (rows * cols) <= |bytes|)
  }

  /** The loop of `getImages` after the header: n images of the given rows and columns from offset 16. */
  function DecodePixels(bytes: seq<Byte>, n: int, rows: int, cols: int): (r: Result<seq<seq<seq<int>>>>)
    requires |bytes| >= 16
    ensures r.Success? ==> |r.value| == if n < 0 then 0 else n
    ensures r.Success? ==> forall k :: 0 <= k < |r.value| ==> |r.value[k]| == rows
    ensures r.Success? ==> forall k, i :: 0 <= k < |r.value| && 0 <= i < |r.value[k]| ==> |r.value[k][i]| == cols
    ensures r.Success? ==> forall k, i, j :: 0 <= k < |r.value| && 0 <= i < |r.value[k]| && 0 <= j < |r.value[k][i]| ==> 0 <= r.value[k][i][j] < 256
    ensures r.Success? <==> PixelsFit(bytes, n, rows, cols)
    ensures r == Failure(NegativeArraySize) <==> NegativeDimension(n, rows, cols)
    ensures r.Failure? ==> r.error == NegativeArraySize || r.error == BufferUnderflow
  {
    if n <= 0 then Success([])
    else if rows < 0 then Failure(NegativeArraySize)
    else if rows == 0 then Success(seq(n, k => []))
    else if cols < 0 then Failure(NegativeArraySize)
    else if |bytes| < 16 + n * (rows * cols) then Failure(BufferUnderflow)
    else Success(Images(bytes, 16, n, rows, cols))
  }

  /** Well-formed images: every image r rows of c pixels. */
  predicate Shaped(images: seq<seq<seq<Byte>>>, r: nat, c: nat)
  {
    forall k :: 0 <= k < |images| ==> |images[k]| == r && forall i :: 0 <= i < r ==> |images[k][i]| == c
  }

  /** The pixels of all images, image after image, row after row. */
  function Pixels(images: seq<seq<seq<Byte>>>, r: nat, c: nat): (px: seq<Byte>)
    requires Shaped(images, r, c)
    ensures |px| == |images| * (r * c)
  {
    seq(|images| * (r * c), q requires 0 <= q < |images| * (r * c) =>
      FlatIndex.Split(|images|, r * c, q);
      FlatIndex.Split(r, c, q % (r * c));
      images[q / (r * c)][(q % (r * c)) / c][q % (r * c) % c])
  }

  /** The image file holding the given images. */
  function EncodeImages(images: seq<seq<seq<Byte>>>, r: nat, c: nat): (bytes: seq<Byte>)
    requires Shaped(images, r, c) && |images| < TwoTo31 && r < TwoTo31 && c < TwoTo31
    ensures |bytes| == 16 + |images| * (r * c)
  {
    BigEndian(ImageFileMagic) + BigEndian(|images|) + BigEndian(r) + BigEndian(c) + Pixels(images, r, c)
  }

  /** Pixel j of row i of image k sits at offset k * (r * c) + i * c + j of the pixel block. */
  lemma PixelAt(images: seq<seq<seq<Byte>>>, r: nat, c: nat, k: int, i: int, j: int)
    requires Shaped(images, r, c) && 0 <= k < |images| && 0 <= i < r && 0 <= j < c
    ensures 0 <= k * (r * c) + (i * c + j) < |images| * (r * c)
    ensures Pixels(images, r, c)[k * (r * c) + (i * c + j)] == images[k][i][j]
  {
    FlatIndex.InRange3(|images|, r, c, k, i, j);
    var q := k * (r * c) + (i * c + j);
    FlatIndex.DivMod(r * c, k, i * c + j);
    FlatIndex.DivMod(c, i, j);
  }

  /** The header of an encoded image file reads back as magic, count, rows and columns. */
  lemma ImageHeader(images: seq<seq<seq<Byte>>>, r: nat, c: nat)
    requires Shaped(images, r, c) && |images| < TwoTo31 && r < TwoTo31 && c < TwoTo31
    ensures var bytes := EncodeImages(images, r, c);
      Int32At(bytes, 0) == ImageFileMagic && Int32At(bytes, 4) == |images| && Int32At(bytes, 8) == r && Int32At(bytes, 12) == c
  {
    var bytes := EncodeImages(images, r, c);
    var px := Pixels(images, r, c);
    var h0, h1, h2, h3 := BigEndian(ImageFileMagic), BigEndian(|images|), BigEndian(r), BigEndian(c);
    assert bytes == [] + h0 + (h1 + h2 + h3 + px);
    Int32RoundTrip(ImageFileMagic, [], h1 + h2 + h3 + px);
    assert bytes == h0 + h1 + (h2 + h3 + px);
    Int32RoundTrip(|images|, h0, h2 + h3 + px);
    assert bytes == h0 + h1 + h2 + (h3 + px);
    Int32RoundTrip(r, h0 + h1, h3 + px);
    assert bytes == h0 + h1 + h2 + h3 + px;
    Int32RoundTrip(c, h0 + h1 + h2, px);
  }

  /** Where Images finds pixel j of row i of image k. */
  lemma ImagesAt(bytes: seq<Byte>, p: nat, n: nat, r: nat, c: nat, k: int, i: int, j: int)
    requires p + n * (r * c) <= |bytes| && 0 <= k < n && 0 <= i < r && 0 <= j < c
    ensures 0 <= k * (r * c) + (i * c + j) < n * (r * c)
    ensures var img := Images(bytes, p, n, r, c)[k];
      |img| == r && |img[i]| == c && img[i][j] == bytes[p + (k * (r * c) + (i * c + j))]
  {
    FlatIndex.InRange3(n, r, c, k, i, j);
    BlockFits(n, r * c, k);
    var q := p + k * (r * c);
    assert Images(bytes, p, n, r, c)[k][i][j] == PixelOf(bytes, q, r, c, i, j);
  }

  /** Pixel j of row i of image k of an encoded file decodes to the pixel it was made from. */
  lemma DecodedPixel(images: seq<seq<seq<Byte>>>, r: nat, c: nat, k: int, i: int, j: int)
    requires Shaped(images, r, c) && |images| < TwoTo31 && r < TwoTo31 && c < TwoTo31
    requires 0 <= k < |images| && 0 <= i < r && 0 <= j < c
    ensures var decoded := Images(EncodeImages(images, r, c), 16, |images|, r, c);
      |decoded[k]| == r && |decoded[k][i]| == c && decoded[k][i][j] == images[k][i][j]
  {
    var bytes := EncodeImages(images, r, c);
    var px := Pixels(images, r, c);
    assert bytes[16..] == px;
    PixelAt(images, r, c, k, i, j);
    ImagesAt(bytes, 16, |images|, r, c, k, i, j);
    var q := k * (r * c) + (i * c + j);
    assert bytes[16 + q] == bytes[16..][q];
  }

  /** The pixel block after the 16-byte header decodes to the images it was made from. */
  lemma ImageBodyRoundTrip(images: seq<seq<seq<Byte>>>, r: nat, c: nat)
    requires Shaped(images, r, c) && |images| < TwoTo31 && r < TwoTo31 && c < TwoTo31
    ensures Images(EncodeImages(images, r, c), 16, |images|, r, c) == images
  {
    var decoded := Images(EncodeImages(images, r, c), 16, |images|, r, c);
    forall k, i | 0 <= k < |images| && 0 <= i < r
      ensures decoded[k][i] == images[k][i]
    {
      forall j | 0 <= j < c
        ensures |decoded[k][i]| == c && decoded[k][i][j] == images[k][i][j]
      {
        DecodedPixel(images, r, c, k, i, j);
      }
      assert |decoded[k][i]| == c by {
        BlockFits(|images|, r * c, k);
      }
    }
    forall k | 0 <= k < |images|
      ensures decoded[k] == images[k]
    {
    }
  }

  /** Reading an image file written by EncodeImages gives back its images. */
  lemma ImagesRoundTrip(images: seq<seq<seq<Byte>>>, r: nat, c: nat)
    requires Shaped(images, r, c) && |images| < TwoTo31 && r < TwoTo31 && c < TwoTo31
    ensures DecodeImages(EncodeImages(images, r, c)) == Success(images)
  {
    ImageHeader(images, r, c);
    if |images| > 0 && r == 0 {
      var empty: seq<seq<seq<int>>> := seq(|images|, k => []);
      assert forall k | 0 <= k < |images| :: empty[k] == images[k];
      assert r * c == 0 && |EncodeImages(images, r, c)| >= 16;
      assert empty == images;
      assert DecodeImages(EncodeImages(images, r, c)) == Success(empty);
    } else if |images| > 0 {
      ImageBodyRoundTrip(images, r, c);
    }
  }

  /** Handing `getImages` a label file, or `getLabels` an image file, is caught by the magic number. */
  lemma SwappedFilesRejected(labels: seq<Byte>, images: seq<seq<seq<Byte>>>, r: nat, c: nat)
    requires |labels| < TwoTo31
    requires Shaped(images, r, c) && |images| < TwoTo31 && r < TwoTo31 && c < TwoTo31
    ensures DecodeImages(EncodeLabels(labels)) == Failure(NotImageFile)
    ensures DecodeLabels(EncodeImages(images, r, c)) == Failure(NotLabelFile)
  {
    var lb := EncodeLabels(labels);
    assert lb == [] + BigEndian(LabelFileMagic) + (BigEndian(|labels|) + labels);
    Int32RoundTrip(LabelFileMagic, [], BigEndian(|labels|) + labels);
    var ib := EncodeImages(images, r, c);
    var tail := BigEndian(|images|) + BigEndian(r) + BigEndian(c) + Pixels(images, r, c);
    assert ib == [] + BigEndian(ImageFileMagic) + tail;
    Int32RoundTrip(ImageFileMagic, [], tail);
  }

  /** A `ByteBuffer` wrapped around the bytes of a file: the bytes and the read position. */
  class ByteCursor {
    const bytes: seq<Byte>
    var position: nat

    /** The position never passes the end (the limit of the buffer). */
    predicate Valid()
      reads this
    {
      position <= |bytes|
    }

    /** `ByteBuffer.wrap(bytes)`. */
    constructor Wrap(bytes: seq<Byte>)
      ensures Valid() && this.bytes == bytes && position == 0
    {
      this.bytes := bytes;
      position := 0;
    }

    /** `get()`: the next byte as a signed byte; underflow leaves the position where it was. */
    method Get() returns (r: Result<int>)
      requires Valid()
      modifies this
      ensures Valid()
      ensures old(position) < |bytes| ==> r == Success(Signed(bytes[old(position)])) && position == old(position) + 1
      ensures old(position) >= |bytes| ==> r == Failure(BufferUnderflow) && position == old(position)
    {
      if position >= |bytes| {
        return Failure(BufferUnderflow);
      }
      r := Success(Signed(bytes[position]));
      position := position + 1;
    }

    /** `getInt()`: the next four bytes as a big-endian signed int. */
    method GetInt() returns (r: Result<int>)
      requires Valid()
      modifies this
      ensures Valid()
      ensures old(position) + 4 <= |bytes| ==> r == Success(Int32At(bytes, old(position))) && position == old(position) + 4
      ensures old(position) + 4 > |bytes| ==> r == Failure(BufferUnderflow) && position == old(position)
    {
      if position + 4 > |bytes| {
        return Failure(BufferUnderflow);
      }
      r := Success(Int32At(bytes, position));
      position := position + 4;
    }
  }

  /** `readRow(numCols, bb)`: a new `int[numCols]` filled with the next bytes, unsigned. */
  method ReadRow(numCols: int, bb: ByteCursor) returns (r: Result<seq<int>>)
    requires bb.Valid()
    modifies bb
    ensures bb.Valid()
    ensures numCols < 0 ==> r == Failure(NegativeArraySize)
    ensures 0 <= numCols && old(bb.position) + numCols <= |bb.bytes| ==>
      r == Success(bb.bytes[old(bb.position)..old(bb.position) + numCols]) && bb.position == old(bb.position) + numCols
    ensures 0 <= numCols && old(bb.position) + numCols > |bb.bytes| ==> r == Failure(BufferUnderflow)
  {
    if numCols < 0 {
      return Failure(NegativeArraySize);
    }
    var p0 := bb.position;
    var row := new int[numCols];
    var col := 0;
    while col < numCols
      invariant 0 <= col <= numCols && bb.position == p0 + col <= |bb.bytes|
      invariant forall j :: 0 <= j < col ==> row[j] == bb.bytes[p0 + j]
      invariant bb.Valid()
    {
      var b :- bb.Get();
      UnsignedUndoesSigned(bb.bytes[p0 + col]);
      row[col] := Unsigned(b);
      col := col + 1;
    }
    assert row[..] == bb.bytes[p0..p0 + numCols];
    return Success(row[..]);
  }

  /** Row i of an image is the c bytes at p + i * c. */
  lemma ImageRows(bytes: seq<Byte>, p: nat, r: nat, c: nat, i: int)
    requires p + r * c <= |bytes| && 0 <= i < r
    ensures p + i * c + c <= |bytes|
    ensures Image(bytes, p, r, c)[i] == bytes[p + i * c..p + i * c + c]
  {
    BlockFits(r, c, i);
  }

  /** An image is its rows, each the c bytes at p + i * c. */
  lemma ImageFromRows(bytes: seq<Byte>, p: nat, r: nat, c: nat, rows: seq<seq<int>>)
    requires p + r * c <= |bytes| && |rows| == r
    requires forall i :: 0 <= i < r ==> p + i * c + c <= |bytes| && rows[i] == bytes[p + i * c..p + i * c + c]
    ensures rows == Image(bytes, p, r, c)
  {
    forall i | 0 <= i < r
      ensures rows[i] == Image(bytes, p, r, c)[i]
    {
      ImageRows(bytes, p, r, c, i);
    }
  }

  /** `readImage(numRows, numCols, bb)`: a new `int[numRows][]`, each row read by readRow. */
  method ReadImage(numRows: int, numCols: int, bb: ByteCursor) returns (r: Result<seq<seq<int>>>)
    requires bb.Valid()
    modifies bb
    ensures bb.Valid()
    ensures numRows < 0 || (numRows > 0 && numCols < 0) ==> r == Failure(NegativeArraySize)
    ensures numRows == 0 ==> r == Success([]) && bb.position == old(bb.position)
    ensures numRows > 0 && numCols >= 0 && old(bb.position) + numRows * numCols <= |bb.bytes| ==>
      r == Success(Image(bb.bytes, old(bb.position), numRows, numCols)) && bb.position == old(bb.position) + numRows * numCols
    ensures numRows > 0 && numCols >= 0 && old(bb.position) + numRows * numCols > |bb.bytes| ==> r == Failure(BufferUnderflow)
  {
    if numRows < 0 {
      return Failure(NegativeArraySize);
    }
    var p0 := bb.position;
    var image := new seq<int>[numRows];
    var row := 0;
    while row < numRows
      invariant 0 <= row <= numRows
      invariant row > 0 ==> numCols >= 0
      invariant numCols >= 0 ==> bb.position == p0 + row * numCols <= |bb.bytes|
      invariant numCols < 0 ==> bb.position == p0
      invariant bb.Valid()
      invariant forall i :: 0 <= i < row ==> p0 + i * numCols + numCols <= |bb.bytes| && image[i] == bb.bytes[p0 + i * numCols..p0 + i * numCols + numCols]
    {
      var line := ReadRow(numCols, bb);
      if line.Failure? {
        if numCols >= 0 {
          FlatIndex.MulMono(row + 1, numRows, numCols);
          assert (row + 1) * numCols == row * numCols + numCols;
        }
        return Failure(line.error);
      }
      image[row] := line.value;
      assert (row + 1) * numCols == row * numCols + numCols;
      row := row + 1;
    }
    if numRows > 0 {
      ImageFromRows(bb.bytes, p0, numRows, numCols, image[..]);
    }
    return Success(image[..]);
  }

  /** `getLabels(infile)`, over the bytes of the file. */
  method GetLabels(file: seq<Byte>) returns (r: Result<seq<int>>)
    ensures r == DecodeLabels(file)
  {
    var bb := new ByteCursor.Wrap(file);
    var magic :- bb.GetInt();
    var check := AssertMagicNumber(LabelFileMagic, magic);
    if check.Fail? {
      return Failure(check.error);
    }
    var numLabels :- bb.GetInt();
    if numLabels < 0 {
      return Failure(NegativeArraySize);
    }
    var labels := new int[numLabels];
    var i := 0;
    while i < numLabels
      invariant 0 <= i <= numLabels && bb.Valid() && bb.bytes == file && bb.position == 8 + i
      invariant forall k :: 0 <= k < i ==> labels[k] == file[8 + k]
    {
      var b :- bb.Get();
      UnsignedUndoesSigned(file[8 + i]);
      labels[i] := Unsigned(b);
      i := i + 1;
    }
    assert labels[..] == file[8..8 + numLabels];
    return Success(labels[..]);
  }

  /** The first i + 1 images are the first i and the image after them. */
  lemma ImagesGrow(bytes: seq<Byte>, p: nat, i: nat, r: nat, c: nat)
    requires p + (i + 1) * (r * c) <= |bytes|
    ensures p + i * (r * c) + r * c <= |bytes|
    ensures Images(bytes, p, i + 1, r, c) == Images(bytes, p, i, r, c) + [Image(bytes, p + i * (r * c), r, c)]
  {
    assert (i + 1) * (r * c) == i * (r * c) + r * c;
    FlatIndex.MulMono(i, i + 1, r * c);
    var lhs, rhs := Images(bytes, p, i + 1, r, c), Images(bytes, p, i, r, c) + [Image(bytes, p + i * (r * c), r, c)];
    forall k | 0 <= k < i + 1
      ensures lhs[k] == rhs[k]
    {
      ImageAt(bytes, p, i + 1, r, c, k);
      if k < i {
        ImageAt(bytes, p, i, r, c, k);
      }
    }
  }

  /** Image k of n is stored from offset p + k * r * c. */
  lemma ImageAt(bytes: seq<Byte>, p: nat, n: nat, r: nat, c: nat, k: nat)
    requires p + n * (r * c) <= |bytes| && k < n
    ensures p + k * (r * c) + r * c <= |bytes|
    ensures Images(bytes, p, n, r, c)[k] == Image(bytes, p + k * (r * c), r, c)
  {
    BlockFits(n, r * c, k);
  }

  /** `getImages(infile)`, over the bytes of the file. */
  method GetImages(file: seq<Byte>) returns (r: Result<seq<seq<seq<int>>>>)
    ensures r == DecodeImages(file)
  {
    var bb := new ByteCursor.Wrap(file);
    var magic :- bb.GetInt();
    var check := AssertMagicNumber(ImageFileMagic, magic);
    if check.Fail? {
      return Failure(check.error);
    }
    var numImages :- bb.GetInt();
    var numRows :- bb.GetInt();
    var numColumns :- bb.GetInt();
    r := ReadImages(numImages, numRows, numColumns, bb);
  }

  /** The loop of `getImages`: numImages calls of readImage. */
  method ReadImages(numImages: int, numRows: int, numColumns: int, bb: ByteCursor) returns (r: Result<seq<seq<seq<int>>>>)
    requires bb.Valid() && bb.position == 16
    modifies bb
    ensures r == DecodePixels(bb.bytes, numImages, numRows, numColumns)
  {
    var images: seq<seq<seq<int>>> := [];
    var i := 0;
    while i < numImages
      invariant 0 <= i && (i == 0 || i <= numImages) && |images| == i
      invariant bb.Valid()
      invariant i > 0 ==> numRows >= 0 && (numRows > 0 ==> numColumns >= 0)
      invariant numRows <= 0 || numColumns < 0 ==> bb.position == 16
      invariant numRows == 0 ==> images == seq(i, k => [])
      invariant numRows > 0 && numColumns >= 0 ==>
        bb.position == 16 + i * (numRows * numColumns) <= |bb.bytes| && images == Images(bb.bytes, 16, i, numRows, numColumns)
    {
      var image := ReadImage(numRows, numColumns, bb);
      if image.Failure? {
        if numRows > 0 && numColumns >= 0 {
          FlatIndex.MulMono(i + 1, numImages, numRows * numColumns);
          assert (i + 1) * (numRows * numColumns) == i * (numRows * numColumns) + numRows * numColumns;
        }
        return Failure(image.error);
      }
      if numRows > 0 {
        ImagesGrow(bb.bytes, 16, i, numRows, numColumns);
      }
      images := images + [image.value];
      i := i + 1;
    }
    return Success(images);
  }

  /*** renderImage and repeat ***/

  /** The character `renderImage` draws for one pixel: four shades, split at 256 / 3 and 2 * (256 / 3). */
  function PixelChar(v: int): (ch: char)
    ensures ch in {' ', '.', 'x', 'X'}
  {
    if v == 0 then ' '
    else if v < 256 / 3 then '.'
    else if v < 2 * (256 / 3) then 'x'
    else 'X'
  }

  /** How dark a character of the rendering is. */
  function Shade(ch: char): nat
  {
    match ch
    case ' ' => 0
    case '.' => 1
    case 'x' => 2
    case _ => 3
  }

  /**
   * Among pixel values 0 .. 255 only 0 is blank, and a brighter pixel is never drawn lighter;
   * a pixel is drawn 'X' exactly from 170 = 2 * (256 / 3) on.
   */
  lemma PixelShades(v: int, w: int)
    requires 0 <= v <= w
    ensures Shade(PixelChar(v)) <= Shade(PixelChar(w))
    ensures PixelChar(v) == ' ' <==> v == 0
    ensures PixelChar(v) == 'X' <==> v >= 170
  {
  }

  /** The pixels of one row, one character each. */
  function Shades(row: seq<int>): (line: string)
    ensures |line| == |row| && forall j :: 0 <= j < |row| ==> line[j] == PixelChar(row[j])
  {
    seq(|row|, j requires 0 <= j < |row| => PixelChar(row[j]))
  }

  /** One line of the rendering: the row between bars. */
  function RenderRow(row: seq<int>): string
  {
    "|" + Shades(row) + "|\n"
  }

  /** The whole rendering: one line per row, in order. */
  function Render(image: seq<seq<int>>): string
  {
    if image == [] then "" else Render(image[..|image| - 1]) + RenderRow(image[|image| - 1])
  }

  /** Rendering the rows of a and then the rows of b gives the rendering of a + b. */
  lemma {:induction false} RenderAppend(a: seq<seq<int>>, b: seq<seq<int>>)
    ensures Render(a + b) == Render(a) + Render(b)
    decreases |b|
  {
    if b == [] {
      assert a + b == a;
    } else {
      var b' := b[..|b| - 1];
      assert (a + b)[..|a + b| - 1] == a + b';
      RenderAppend(a, b');
    }
  }

  /** The number of line breaks in a string. */
  function LineBreaks(s: string): nat
  {
    if s == [] then 0 else LineBreaks(s[..|s| - 1]) + (if s[|s| - 1] == '\n' then 1 else 0)
  }

  lemma {:induction false} LineBreaksAppend(s: string, t: string)
    ensures LineBreaks(s + t) == LineBreaks(s) + LineBreaks(t)
    decreases |t|
  {
    if t != [] {
      assert (s + t)[..|s + t| - 1] == s + t[..|t| - 1];
      LineBreaksAppend(s, t[..|t| - 1]);
    } else {
      assert s + t == s;
    }
  }

  /** A line of pixels holds no line break. */
  lemma {:induction false} NoBreakInShades(row: seq<int>)
    ensures LineBreaks(Shades(row)) == 0
    decreases |row|
  {
    if row != [] {
      var row' := row[..|row| - 1];
      assert Shades(row)[..|row| - 1] == Shades(row');
      NoBreakInShades(row');
    }
  }

  /** The rendering has exactly one text line per image row, each |row| + 3 characters long. */
  lemma {:induction false} RenderLines(image: seq<seq<int>>)
    ensures LineBreaks(Render(image)) == |image|
    ensures image != [] ==> |RenderRow(image[|image| - 1])| == |image[|image| - 1]| + 3
    decreases |image|
  {
    if image != [] {
      var row := image[|image| - 1];
      RenderLines(image[..|image| - 1]);
      NoBreakInShades(row);
      LineBreaksAppend("|", Shades(row));
      LineBreaksAppend("|" + Shades(row), "|\n");
      assert LineBreaks("|\n") == 1 by {
        assert "|\n"[..1] == "|";
        assert "|"[..0] == "";
      }
      assert LineBreaks("|") == 0 by {
        assert "|"[..0] == "";
      }
      LineBreaksAppend(Render(image[..|image| - 1]), RenderRow(row));
    }
  }

  /** `renderImage(image)`: one `|...|` line per row, pixels drawn by PixelChar. */
  method RenderImage(image: seq<seq<int>>) returns (s: string)
    ensures s == Render(image)
  {
    var sb := "";
    var row := 0;
    while row < |image|
      invariant 0 <= row <= |image| && sb == Render(image[..row])
    {
      sb := sb + "|";
      var col := 0;
      while col < |image[row]|
        invariant 0 <= col <= |image[row]| && sb == Render(image[..row]) + "|" + Shades(image[row][..col])
      {
        var pixelVal := image[row][col];
        if pixelVal == 0 {
          sb := sb + " ";
        } else if pixelVal < 256 / 3 {
          sb := sb + ".";
        } else if pixelVal < 2 * (256 / 3) {
          sb := sb + "x";
        } else {
          sb := sb + "X";
        }
        assert Shades(image[row][..col + 1]) == Shades(image[row][..col]) + [PixelChar(pixelVal)];
        col := col + 1;
      }
      sb := sb + "|\n";
      assert image[row][..col] == image[row];
      assert image[..row + 1][..row] == image[..row];
      row := row + 1;
    }
    assert image[..row] == image;
    return sb;
  }

  /** `repeat(s, n)`: s written n times (nothing when n <= 0). */
  method Repeat(s: string, n: int) returns (r: string)
    ensures |r| == |s| * (if n < 0 then 0 else n)
    ensures forall k :: 0 <= k < |r| ==> r[k] == s[k % |s|]
  {
    var sb := "";
    var i := 0;
    while i < n
      invariant 0 <= i && (i == 0 || i <= n) && |sb| == |s| * i
      invariant forall k :: 0 <= k < |sb| ==> sb[k] == s[k % |s|]
    {
      forall k | |sb| <= k < |sb| + |s|
        ensures (sb + s)[k] == s[k % |s|]
      {
        FlatIndex.DivMod(|s|, i, k - |sb|);
      }
      sb := sb + s;
      i := i + 1;
    }
    return sb;
  }
}
