/** The 2×2 max-pooling stage: every filter's convolution grid is cut into
    non-overlapping 2×2 blocks, and each block is replaced by its maximum. */
module MaxPool {
  import opened FixedPoint
  import opened Layout

  /** The largest of four values: it bounds each of them and is one of them. */
  function Max4(a: int, b: int, c: int, d: int): (m: int)
    ensures a <= m && b <= m && c <= m && d <= m
    ensures m == a || m == b || m == c || m == d
  {
    var ab := if a < b then b else a;
    var cd := if c < d then d else c;
    if ab < cd then cd else ab
  }

  /** The 2×2 block of filter f whose top-left cell is (2r, 2c), as flat
      positions of the convolution grid, row-major. */
  function Block(f: nat, r: nat, c: nat): (ks: seq<nat>)
    requires f < NUM_FILTERS && r < OUT_POOL_H && c < OUT_POOL_W
    ensures |ks| == 4
    ensures forall i :: 0 <= i < 4 ==> ks[i] < CONV_SIZE
  {
    assert OUT_POOL_H == 3 && OUT_POOL_W == 3 && OUT_CONV_H == 6 && OUT_CONV_W == 6;
    [ConvIndex(f, 2 * r, 2 * c), ConvIndex(f, 2 * r, 2 * c + 1),
     ConvIndex(f, 2 * r + 1, 2 * c), ConvIndex(f, 2 * r + 1, 2 * c + 1)]
  }

  /** One pooled output: the maximum of its block, that is, a value of the
      block that no other value of the block exceeds. */
  function PoolCell(conv: seq<int>, f: nat, r: nat, c: nat): (m: int)
    requires |conv| == CONV_SIZE
    requires f < NUM_FILTERS && r < OUT_POOL_H && c < OUT_POOL_W
    ensures forall i :: 0 <= i < 4 ==> conv[Block(f, r, c)[i]] <= m
    ensures exists i :: 0 <= i < 4 && conv[Block(f, r, c)[i]] == m
  {
    var ks := Block(f, r, c);
    Max4(conv[ks[0]], conv[ks[1]], conv[ks[2]], conv[ks[3]])
  }

  /** The pooled output of a whole convolution grid, flattened with the filter
      index slowest, then row, then column. */
  function PoolOutput(conv: seq<int>): (out: seq<int>)
    requires |conv| == CONV_SIZE
    ensures |out| == POOL_SIZE
  {
    seq(POOL_SIZE, k requires 0 <= k < POOL_SIZE =>
      PoolCoordsInRange(k);
      PoolCell(conv, k / (OUT_POOL_H * OUT_POOL_W), k / OUT_POOL_W % OUT_POOL_H, k % OUT_POOL_W))
  }

  /** Each pooled output is at least every value of its block and equal to one
      of them. */
  lemma PoolIsBlockMax(conv: seq<int>, f: nat, r: nat, c: nat)
    requires |conv| == CONV_SIZE
    requires f < NUM_FILTERS && r < OUT_POOL_H && c < OUT_POOL_W
    ensures forall i :: 0 <= i < 4 ==> conv[Block(f, r, c)[i]] <= PoolOutput(conv)[PoolIndex(f, r, c)]
    ensures exists i :: 0 <= i < 4 && conv[Block(f, r, c)[i]] == PoolOutput(conv)[PoolIndex(f, r, c)]
  {
    var ks := Block(f, r, c);
    var m := PoolOutput(conv)[PoolIndex(f, r, c)];
    PoolIndexDecode(f, r, c);
    assert m == PoolCell(conv, f, r, c);
    if m == conv[ks[0]] {
      assert conv[ks[0]] == m;
    } else if m == conv[ks[1]] {
      assert conv[ks[1]] == m;
    } else if m == conv[ks[2]] {
      assert conv[ks[2]] == m;
    } else {
      assert conv[ks[3]] == m;
    }
  }

  /** The block of (f, r, c) is the conv cells (f, 2r + i, 2c + j) for
      i, j in {0, 1}. */
  lemma BlockCells(f: nat, r: nat, c: nat, i: nat, j: nat)
    requires f < NUM_FILTERS && r < OUT_POOL_H && c < OUT_POOL_W && i < 2 && j < 2
    ensures 2 * r + i < OUT_CONV_H && 2 * c + j < OUT_CONV_W
    ensures Block(f, r, c)[2 * i + j] == ConvIndex(f, 2 * r + i, 2 * c + j)
  {
  }

  /** Pooling keeps the convolution range: when every conv value lies in
      [0, Q_MAX], so does every pooled value. */
  lemma PoolOutputRange(conv: seq<int>)
    requires |conv| == CONV_SIZE
    requires forall k :: 0 <= k < CONV_SIZE ==> 0 <= conv[k] <= Q_MAX
    ensures forall k :: 0 <= k < POOL_SIZE ==> 0 <= PoolOutput(conv)[k] <= Q_MAX
  {
  }

  /** Pooling dimensions with floor division: along an axis of n conv cells,
      cell i belongs to some block exactly when i < 2 * (n / 2), so a trailing
      odd cell is dropped, and every block lies inside the axis. */
  lemma PoolCoverage(n: nat, i: nat)
    ensures (exists b :: 0 <= b < n / 2 && 2 * b <= i < 2 * b + 2) <==> i < 2 * (n / 2)
    ensures forall b :: 0 <= b < n / 2 ==> 2 * b + 1 < n
  {
    if i < 2 * (n / 2) {
      var b := i / 2;
      assert 0 <= b < n / 2 && 2 * b <= i < 2 * b + 2;
    }
  }

  /** The pooled grid of the accelerator is 3×3 per filter and, as the conv
      grid has even sides, every conv cell lies in exactly one block. */
  lemma PoolShape()
    ensures OUT_POOL_H == 3 && OUT_POOL_W == 3 && POOL_SIZE == 36
    ensures OUT_CONV_H == 2 * OUT_POOL_H && OUT_CONV_W == 2 * OUT_POOL_W
  {
  }

  /** The pooling stage: triple loop over filters, pooled rows and pooled
      columns, filling a zero-initialised output in flat order. */
  method MaxPoolStage(conv: array<int>) returns (pool: array<int>)
    requires conv.Length == CONV_SIZE
    ensures fresh(pool)
    ensures pool[..] == PoolOutput(conv[..])
  {
    ghost var spec := PoolOutput(conv[..]);
    pool := new int[POOL_SIZE](_ => 0);
    // `done` counts the cells written so far, a prefix of the flat output;
    // a filter's pooled grid has 3 × 3 cells.
    PoolShape();
    ghost var done := 0;
    for f := 0 to NUM_FILTERS
      invariant done == f * 9
      invariant forall k :: 0 <= k < done ==> pool[k] == spec[k]
    {
      for r := 0 to OUT_POOL_H
        invariant done == f * 9 + r * 3
        invariant forall k :: 0 <= k < done ==> pool[k] == spec[k]
      {
        for c := 0 to OUT_POOL_W
          invariant done == f * 9 + r * 3 + c
          invariant forall k :: 0 <= k < done ==> pool[k] == spec[k]
        {
          PoolStep(conv[..], f, r, c);
          var m := Max4(conv[ConvIndex(f, 2 * r, 2 * c)], conv[ConvIndex(f, 2 * r, 2 * c + 1)],
                        conv[ConvIndex(f, 2 * r + 1, 2 * c)], conv[ConvIndex(f, 2 * r + 1, 2 * c + 1)]);
          var at := PoolIndex(f, r, c);
          ghost var before := pool[..];
          pool[at] := m;
          assert pool[..] == before[done := m];
          PrefixExtend(before, spec, done, m);
          done := done + 1;
        }
      }
    }
    assert pool[..] == spec;
  }

  /** One iteration of the pooling loop: the maximum of the four conv cells it
      reads is the pooled output at its flat position, which is the next one
      in row-major order. */
  lemma PoolStep(conv: seq<int>, f: nat, r: nat, c: nat)
    requires |conv| == CONV_SIZE
    requires f < NUM_FILTERS && r < OUT_POOL_H && c < OUT_POOL_W
    ensures 2 * r + 1 < OUT_CONV_H && 2 * c + 1 < OUT_CONV_W
    ensures PoolIndex(f, r, c) == f * 9 + r * 3 + c
    ensures Max4(conv[ConvIndex(f, 2 * r, 2 * c)], conv[ConvIndex(f, 2 * r, 2 * c + 1)],
                 conv[ConvIndex(f, 2 * r + 1, 2 * c)], conv[ConvIndex(f, 2 * r + 1, 2 * c + 1)])
            == PoolOutput(conv)[PoolIndex(f, r, c)]
  {
    PoolIndexFlat(f, r, c);
    PoolIndexDecode(f, r, c);
    var ks := Block(f, r, c);
    assert ks == [ConvIndex(f, 2 * r, 2 * c), ConvIndex(f, 2 * r, 2 * c + 1),
                  ConvIndex(f, 2 * r + 1, 2 * c), ConvIndex(f, 2 * r + 1, 2 * c + 1)];
    assert PoolOutput(conv)[PoolIndex(f, r, c)] == PoolCell(conv, f, r, c);
  }

  /** With the pooled grid's 3 × 3 cells per filter written out, the flat
      pooled position is linear in the coordinates. */
  lemma PoolIndexFlat(f: nat, r: nat, c: nat)
    requires f < NUM_FILTERS && r < OUT_POOL_H && c < OUT_POOL_W
    ensures PoolIndex(f, r, c) == f * 9 + r * 3 + c
  {
    PoolShape();
  }
}
