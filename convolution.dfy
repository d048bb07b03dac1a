/** The convolution stage: for every filter and every output position, the
    3×3 window of the image times the filter's kernel, summed exactly, scaled
    down by an arithmetic shift, saturated to 16 bits and passed through ReLU. */
module Convolution {
  import opened FixedPoint
  import opened Layout

  /** The 3×3 window of the image whose top-left pixel is (r, c), row-major:
      `img[r:r+3, c:c+3]`. */
  function Window(img: seq<int>, r: nat, c: nat): (win: seq<int>)
    requires |img| == IMG_SIZE && r < OUT_CONV_H && c < OUT_CONV_W
    ensures |win| == K * K
    ensures forall i, j :: 0 <= i < K && 0 <= j < K ==> win[TapIndex(i, j)] == img[ImgIndex(r + i, c + j)]
  {
    seq(K * K, k requires 0 <= k < K * K => img[ImgIndex(r + k / K, c + k % K)])
  }

  /** Kernel f of the weight tensor, row-major: `weights[f]` after the
      (NUM_FILTERS, 3, 3) reshape. */
  function Kernel(w: seq<int>, f: nat): (ker: seq<int>)
    requires |w| == WEIGHT_COUNT && f < NUM_FILTERS
    ensures |ker| == K * K
    ensures forall i, j :: 0 <= i < K && 0 <= j < K ==> ker[i * K + j] == w[WeightIndex(f, i, j)]
  {
    w[WeightIndex(f, 0, 0)..WeightIndex(f, 0, 0) + K * K]
  }

  /** The sum of the element-wise products, in an unbounded accumulator.
      Against an all-zero kernel it is zero, and when no product is negative
      neither is the sum. */
  function Dot(a: seq<int>, b: seq<int>): (d: int)
    requires |a| == |b|
    ensures (forall j :: 0 <= j < |b| ==> b[j] == 0) ==> d == 0
    ensures (forall j :: 0 <= j < |a| ==> 0 <= a[j] * b[j]) ==> 0 <= d
  {
    if a == [] then 0
    else
      assert forall j :: 0 <= j < |b| - 1 ==> b[1..][j] == b[j + 1] && a[1..][j] == a[j + 1];
      a[0] * b[0] + Dot(a[1..], b[1..])
  }

  /** Against a kernel that is zero except at one position m, the sum is the
      single product at m. */
  lemma {:induction false} DotSingleTap(a: seq<int>, b: seq<int>, m: nat)
    requires |a| == |b| && m < |b|
    requires forall j :: 0 <= j < |b| && j != m ==> b[j] == 0
    ensures Dot(a, b) == a[m] * b[m]
  {
    if m > 0 {
      DotSingleTap(a[1..], b[1..], m - 1);
    } else {
      assert forall j :: 0 <= j < |b| - 1 ==> b[1..][j] == b[j + 1];
    }
  }

  /** With 16-bit operands, the exact sum of n products stays within n * 2^30
      in magnitude, so a 64-bit accumulator never overflows on a 3×3 window. */
  lemma {:induction false} DotBound(a: seq<int>, b: seq<int>)
    requires |a| == |b|
    requires forall j :: 0 <= j < |a| ==> Q_MIN <= a[j] <= Q_MAX && Q_MIN <= b[j] <= Q_MAX
    ensures -(|a| * 0x4000_0000) <= Dot(a, b) <= |a| * 0x4000_0000
  {
    if a != [] {
      DotBound(a[1..], b[1..]);
      ProductBound(a[0], b[0]);
    }
  }

  /** The product of two 16-bit signed values is at most 2^30 in magnitude. */
  lemma ProductBound(x: int, y: int)
    requires Q_MIN <= x <= Q_MAX && Q_MIN <= y <= Q_MAX
    ensures -0x4000_0000 <= x * y <= 0x4000_0000
  {
    var ax := if x < 0 then -x else x;
    var ay := if y < 0 then -y else y;
    MulMonotone(ax, 0x8000, ay);
    assert ax * ay <= 0x4000_0000;
    assert x * y == ax * ay || x * y == -(ax * ay);
  }

  lemma MulMonotone(a: int, b: int, c: int)
    requires a <= b && 0 <= c
    ensures a * c <= b * c
  {
    assert b * c - a * c == (b - a) * c;
  }

  /** The exact sum of products for output (f, r, c). */
  /** With a 16-bit image and 16-bit weights, the sum stays within
      9 * 2^30 in magnitude, far inside the int64 accumulator. */
  function WindowSum(img: seq<int>, w: seq<int>, f: nat, r: nat, c: nat): (s: int)
    requires |img| == IMG_SIZE && |w| == WEIGHT_COUNT
    requires f < NUM_FILTERS && r < OUT_CONV_H && c < OUT_CONV_W
    ensures AllRepresentable(img) && AllRepresentable(w) ==> -9 * 0x4000_0000 <= s <= 9 * 0x4000_0000
  {
    WindowDotBound(img, w, f, r, c);
    Dot(Window(img, r, c), Kernel(w, f))
  }

  lemma WindowDotBound(img: seq<int>, w: seq<int>, f: nat, r: nat, c: nat)
    requires |img| == IMG_SIZE && |w| == WEIGHT_COUNT
    requires f < NUM_FILTERS && r < OUT_CONV_H && c < OUT_CONV_W
    ensures AllRepresentable(img) && AllRepresentable(w) ==>
              -9 * 0x4000_0000 <= Dot(Window(img, r, c), Kernel(w, f)) <= 9 * 0x4000_0000
  {
    if AllRepresentable(img) && AllRepresentable(w) {
      var win := Window(img, r, c);
      var ker := Kernel(w, f);
      assert ker == w[WeightIndex(f, 0, 0)..WeightIndex(f, 0, 0) + K * K];
      forall j | 0 <= j < K * K
        ensures Q_MIN <= win[j] <= Q_MAX && Q_MIN <= ker[j] <= Q_MAX
      {
        assert win[j] == img[ImgIndex(r + j / K, c + j % K)];
        assert ker[j] == w[WeightIndex(f, 0, 0) + j];
      }
      DotBound(win, ker);
    }
  }

  /** One convolution output: the window sum scaled down, saturated and
      rectified. It lies in [0, Q_MAX]; a scaled sum above Q_MAX becomes
      Q_MAX and a negative one becomes 0. */
  function ConvCell(img: seq<int>, w: seq<int>, f: nat, r: nat, c: nat): (v: int)
    requires |img| == IMG_SIZE && |w| == WEIGHT_COUNT
    requires f < NUM_FILTERS && r < OUT_CONV_H && c < OUT_CONV_W
    ensures 0 <= v <= Q_MAX
    ensures ScaleDown(WindowSum(img, w, f, r, c)) > Q_MAX ==> v == Q_MAX
    ensures ScaleDown(WindowSum(img, w, f, r, c)) < 0 ==> v == 0
    ensures 0 <= ScaleDown(WindowSum(img, w, f, r, c)) <= Q_MAX ==> v == ScaleDown(WindowSum(img, w, f, r, c))
  {
    Activate(WindowSum(img, w, f, r, c))
  }

  /** The whole convolution output, flattened with the filter index slowest,
      then row, then column. */
  function ConvOutput(img: seq<int>, w: seq<int>): (out: seq<int>)
    requires |img| == IMG_SIZE && |w| == WEIGHT_COUNT
    ensures |out| == CONV_SIZE
  {
    seq(CONV_SIZE, k requires 0 <= k < CONV_SIZE =>
      ConvCoordsInRange(k);
      ConvCell(img, w, k / (OUT_CONV_H * OUT_CONV_W), k / OUT_CONV_W % OUT_CONV_H, k % OUT_CONV_W))
  }

  /** Every output position holds its own cell's value, and every output lies
      in [0, Q_MAX]. */
  lemma ConvOutputAt(img: seq<int>, w: seq<int>, f: nat, r: nat, c: nat)
    requires |img| == IMG_SIZE && |w| == WEIGHT_COUNT
    requires f < NUM_FILTERS && r < OUT_CONV_H && c < OUT_CONV_W
    ensures ConvOutput(img, w)[ConvIndex(f, r, c)] == ConvCell(img, w, f, r, c)
    ensures 0 <= ConvOutput(img, w)[ConvIndex(f, r, c)] <= Q_MAX
    ensures ConvIndex(f, r, c) == f * 36 + r * 6 + c
  {
    ConvShape();
    ConvIndexDecode(f, r, c);
  }

  /** The conv grid of the accelerator is 6×6 per filter. */
  lemma ConvShape()
    ensures OUT_CONV_H == 6 && OUT_CONV_W == 6 && CONV_SIZE == 144
  {
  }

  /** The convolution stage: triple loop over filters, rows and columns,
      filling a zero-initialised output in flat order. */
  method ConvReluStage(img: seq<int>, weights: seq<int>) returns (conv: array<int>)
    requires |img| == IMG_SIZE && |weights| == WEIGHT_COUNT
    ensures fresh(conv)
    ensures conv[..] == ConvOutput(img, weights)
  {
    ghost var spec := ConvOutput(img, weights);
    conv := new int[CONV_SIZE](_ => 0);
    // `done` counts the cells written so far: the loops visit the flat
    // output in order, so the written cells are exactly its first `done`;
    // a filter's conv grid has 6 × 6 cells.
    ConvShape();
    ghost var done := 0;
    for f := 0 to NUM_FILTERS
      invariant done == f * 36
      invariant forall k :: 0 <= k < done ==> conv[k] == spec[k]
    {
      var kernel := Kernel(weights, f);
      for r := 0 to OUT_CONV_H
        invariant done == f * 36 + r * 6
        invariant forall k :: 0 <= k < done ==> conv[k] == spec[k]
      {
        for c := 0 to OUT_CONV_W
          invariant done == f * 36 + r * 6 + c
          invariant forall k :: 0 <= k < done ==> conv[k] == spec[k]
        {
          var window := Window(img, r, c);
          var s := Dot(window, kernel);
          s := ShiftRight(s, FRAC_BITS);
          if s < Q_MIN {
            s := Q_MIN;
          }
          if s > Q_MAX {
            s := Q_MAX;
          }
          if s < 0 {
            s := 0;
          }
          assert s == ConvCell(img, weights, f, r, c);
          ConvOutputAt(img, weights, f, r, c);
          var at := ConvIndex(f, r, c);
          assert at == done;
          assert s == spec[done];
          ghost var before := conv[..];
          conv[at] := s;
          assert conv[..] == before[done := s];
          PrefixExtend(before, spec, done, s);
          done := done + 1;
        }
      }
    }
    assert conv[..] == spec;
  }

  /** The identity kernel (256, that is 1.0, at the centre) reproduces the
      image pixel under the window's centre, saturated and rectified. */
  lemma IdentityKernel(img: seq<int>, w: seq<int>, f: nat, r: nat, c: nat)
    requires |img| == IMG_SIZE && |w| == WEIGHT_COUNT
    requires f < NUM_FILTERS && r < OUT_CONV_H && c < OUT_CONV_W
    requires Kernel(w, f) == [0, 0, 0, 0, 256, 0, 0, 0, 0]
    ensures ConvCell(img, w, f, r, c) == Relu(Saturate(img[ImgIndex(r + 1, c + 1)]))
  {
    var win := Window(img, r, c);
    var ker := Kernel(w, f);
    DotSingleTap(win, ker, 4);
    var x := img[ImgIndex(r + 1, c + 1)];
    assert win[4] == x;
    var q := ScaleDown(256 * x);
    assert 256 * q <= 256 * x < 256 * q + 256;
  }

  /** A filter whose kernel is all zero outputs zero everywhere. */
  lemma ZeroKernel(img: seq<int>, w: seq<int>, f: nat, r: nat, c: nat)
    requires |img| == IMG_SIZE && |w| == WEIGHT_COUNT
    requires f < NUM_FILTERS && r < OUT_CONV_H && c < OUT_CONV_W
    requires forall j :: 0 <= j < K * K ==> Kernel(w, f)[j] == 0
    ensures ConvCell(img, w, f, r, c) == 0
  {
    var ker := Kernel(w, f);
    assert Dot(Window(img, r, c), ker) == 0;
  }
}
