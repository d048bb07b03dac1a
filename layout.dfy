/** The fixed dimensions of the pipeline and the row-major flattening of its
    grids. Every grid is a flat sequence: row-major within a filter, filter
    index varying slowest, as a numpy `reshape` of a C-ordered array gives. */
module Layout {

  const IMG_WIDTH: nat := 8
  const IMG_HEIGHT: nat := 8
  const NUM_FILTERS: nat := 4
  /** Each kernel is 3×3. */
  const K: nat := 3

  /** Valid convolution: the output is smaller than the image by K - 1. */
  const OUT_CONV_W: nat := IMG_WIDTH - 2
  const OUT_CONV_H: nat := IMG_HEIGHT - 2
  /** 2×2 pooling with floor division: a trailing odd row or column is dropped. */
  const OUT_POOL_W: nat := OUT_CONV_W / 2
  const OUT_POOL_H: nat := OUT_CONV_H / 2

  const IMG_SIZE: nat := IMG_HEIGHT * IMG_WIDTH
  const WEIGHT_COUNT: nat := NUM_FILTERS * K * K
  const CONV_SIZE: nat := NUM_FILTERS * OUT_CONV_H * OUT_CONV_W
  const POOL_SIZE: nat := NUM_FILTERS * OUT_POOL_H * OUT_POOL_W

  /** Position of image pixel (r, c) in the flat image vector. */
  function ImgIndex(r: nat, c: nat): (k: nat)
    requires r < IMG_HEIGHT && c < IMG_WIDTH
    ensures k < IMG_SIZE
  {
    r * IMG_WIDTH + c
  }

  /** Position of tap (i, j) in a row-major 3×3 window or kernel. */
  function TapIndex(i: nat, j: nat): (t: nat)
    requires i < K && j < K
    ensures t < K * K
  {
    i * K + j
  }

  /** Position of weight (i, j) of kernel f in the flat weight vector. */
  function WeightIndex(f: nat, i: nat, j: nat): (k: nat)
    requires f < NUM_FILTERS && i < K && j < K
    ensures k < WEIGHT_COUNT
  {
    (f * K + i) * K + j
  }

  /** Position of convolution output (f, r, c) in the flat conv vector. */
  function ConvIndex(f: nat, r: nat, c: nat): (k: nat)
    requires f < NUM_FILTERS && r < OUT_CONV_H && c < OUT_CONV_W
    ensures k < CONV_SIZE
  {
    assert OUT_CONV_H == 6 && OUT_CONV_W == 6;
    (f * OUT_CONV_H + r) * OUT_CONV_W + c
  }

  /** The flat conv position determines (f, r, c): filter, row and column
      are recovered by division and remainder. */
  lemma ConvIndexDecode(f: nat, r: nat, c: nat)
    requires f < NUM_FILTERS && r < OUT_CONV_H && c < OUT_CONV_W
    ensures ConvIndex(f, r, c) / (OUT_CONV_H * OUT_CONV_W) == f
    ensures ConvIndex(f, r, c) / OUT_CONV_W % OUT_CONV_H == r
    ensures ConvIndex(f, r, c) % OUT_CONV_W == c
  {
    assert OUT_CONV_H == 6 && OUT_CONV_W == 6;
  }

  /** Division and remainder decode a flat conv position into coordinates
      in range. */
  lemma ConvCoordsInRange(k: nat)
    requires k < CONV_SIZE
    ensures k / (OUT_CONV_H * OUT_CONV_W) < NUM_FILTERS
    ensures k / OUT_CONV_W % OUT_CONV_H < OUT_CONV_H && k % OUT_CONV_W < OUT_CONV_W
  {
    assert OUT_CONV_H == 6 && OUT_CONV_W == 6;
  }

  /** Every flat conv position is the position of some (f, r, c). */
  lemma ConvCoords(k: nat) returns (f: nat, r: nat, c: nat)
    requires k < CONV_SIZE
    ensures f < NUM_FILTERS && r < OUT_CONV_H && c < OUT_CONV_W
    ensures ConvIndex(f, r, c) == k
    ensures f == k / (OUT_CONV_H * OUT_CONV_W) && r == k / OUT_CONV_W % OUT_CONV_H && c == k % OUT_CONV_W
  {
    assert OUT_CONV_H == 6 && OUT_CONV_W == 6;
    f, r, c := k / 36, k / 6 % 6, k % 6;
  }

  /** Position of pooled output (f, r, c) in the flat pooled vector. */
  function PoolIndex(f: nat, r: nat, c: nat): (k: nat)
    requires f < NUM_FILTERS && r < OUT_POOL_H && c < OUT_POOL_W
    ensures k < POOL_SIZE
  {
    assert OUT_POOL_H == 3 && OUT_POOL_W == 3;
    (f * OUT_POOL_H + r) * OUT_POOL_W + c
  }

  /** The flat pooled position determines (f, r, c). */
  lemma PoolIndexDecode(f: nat, r: nat, c: nat)
    requires f < NUM_FILTERS && r < OUT_POOL_H && c < OUT_POOL_W
    ensures PoolIndex(f, r, c) / (OUT_POOL_H * OUT_POOL_W) == f
    ensures PoolIndex(f, r, c) / OUT_POOL_W % OUT_POOL_H == r
    ensures PoolIndex(f, r, c) % OUT_POOL_W == c
  {
    assert OUT_POOL_H == 3 && OUT_POOL_W == 3;
  }

  /** Division and remainder decode a flat pooled position into coordinates
      in range. */
  lemma PoolCoordsInRange(k: nat)
    requires k < POOL_SIZE
    ensures k / (OUT_POOL_H * OUT_POOL_W) < NUM_FILTERS
    ensures k / OUT_POOL_W % OUT_POOL_H < OUT_POOL_H && k % OUT_POOL_W < OUT_POOL_W
  {
    assert OUT_POOL_H == 3 && OUT_POOL_W == 3;
  }

  /** Every flat pooled position is the position of some (f, r, c). */
  lemma PoolCoords(k: nat) returns (f: nat, r: nat, c: nat)
    requires k < POOL_SIZE
    ensures f < NUM_FILTERS && r < OUT_POOL_H && c < OUT_POOL_W
    ensures PoolIndex(f, r, c) == k
    ensures f == k / (OUT_POOL_H * OUT_POOL_W) && r == k / OUT_POOL_W % OUT_POOL_H && c == k % OUT_POOL_W
  {
    assert OUT_POOL_H == 3 && OUT_POOL_W == 3;
    f, r, c := k / 9, k / 3 % 3, k % 3;
  }

  /** The stages fill their flat output in index order: writing the next
      cell of a correctly filled prefix extends the prefix by one. */
  lemma PrefixExtend(before: seq<int>, spec: seq<int>, done: nat, x: int)
    requires done < |before| == |spec| && x == spec[done]
    requires forall k :: 0 <= k < done ==> before[k] == spec[k]
    ensures forall k :: 0 <= k < done + 1 ==> before[done := x][k] == spec[k]
  {
  }
}
