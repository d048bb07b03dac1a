/** The golden-model pipeline: read the image and the weights, run the
    convolution stage and write its output, run the pooling stage and write
    its output. The two files are given and produced as sequences of lines. */
module GoldenModel {
  import opened FixedPoint
  import opened Layout
  import opened HexIO
  import opened Convolution
  import opened MaxPool

  /** The two files the golden model writes: the flat convolution output and
      the flat pooled output. */
  datatype GoldenFiles = GoldenFiles(convLines: seq<string>, poolLines: seq<string>)

  /** What the pipeline produces from the two input files. The image is read
      first, so a malformed image is reported even when the weights are
      malformed too. */
  function Golden(imageLines: seq<string>, weightLines: seq<string>): (r: Result<GoldenFiles, FormatError>)
    ensures r.Ok? ==> |r.value.convLines| == CONV_SIZE && |r.value.poolLines| == POOL_SIZE
    ensures ReadHex(imageLines, IMG_SIZE).Err? ==> r == Err(ReadHex(imageLines, IMG_SIZE).error)
    ensures ReadHex(imageLines, IMG_SIZE).Ok? ==>
              ReadHex(weightLines, WEIGHT_COUNT).Err? ==> r == Err(ReadHex(weightLines, WEIGHT_COUNT).error)
    ensures r.Ok? <==> ReadHex(imageLines, IMG_SIZE).Ok? && ReadHex(weightLines, WEIGHT_COUNT).Ok?
  {
    match ReadHex(imageLines, IMG_SIZE)
    case Err(e) => Err(e)
    case Ok(img) =>
      match ReadHex(weightLines, WEIGHT_COUNT)
      case Err(e) => Err(e)
      case Ok(w) =>
        var conv := ConvOutput(img, w);
        Ok(GoldenFiles(EncodeLines(conv), EncodeLines(PoolOutput(conv))))
  }

  /** The pipeline as the program runs it: each stage in turn, stopping at
      the first malformed input file. */
  method RunGolden(imageLines: seq<string>, weightLines: seq<string>) returns (r: Result<GoldenFiles, FormatError>)
    ensures r == Golden(imageLines, weightLines)
  {
    var imgRead := ReadHexVector(imageLines, IMG_SIZE);
    if imgRead.Err? {
      return Err(imgRead.error);
    }
    var img := imgRead.value;
    var wRead := ReadHexVector(weightLines, WEIGHT_COUNT);
    if wRead.Err? {
      return Err(wRead.error);
    }
    var weights := wRead.value;
    var conv := ConvReluStage(img, weights);
    var convLines := WriteHexVector(conv[..]);
    var pool := MaxPoolStage(conv);
    var poolLines := WriteHexVector(pool[..]);
    r := Ok(GoldenFiles(convLines, poolLines));
  }

  /** The files the golden model writes read back, with the matching counts,
      as exactly the convolution and pooling outputs it computed: no output
      is clipped by the 16-bit masking, because every output lies in
      [0, Q_MAX]. */
  lemma GoldenReadsBack(imageLines: seq<string>, weightLines: seq<string>, img: seq<int>, w: seq<int>)
    requires ReadHex(imageLines, IMG_SIZE) == Ok(img) && ReadHex(weightLines, WEIGHT_COUNT) == Ok(w)
    ensures Golden(imageLines, weightLines).Ok?
    ensures ReadHex(Golden(imageLines, weightLines).value.convLines, CONV_SIZE) == Ok(ConvOutput(img, w))
    ensures ReadHex(Golden(imageLines, weightLines).value.poolLines, POOL_SIZE)
         == Ok(PoolOutput(ConvOutput(img, w)))
  {
    var conv := ConvOutput(img, w);
    forall k | 0 <= k < CONV_SIZE
      ensures Q_MIN <= 0 <= conv[k] <= Q_MAX
    {
      var f, r, c := ConvCoords(k);
      ConvOutputAt(img, w, f, r, c);
    }
    PoolOutputRange(conv);
    WriteReadRoundTrip(conv);
    WriteReadRoundTrip(PoolOutput(conv));
  }

  /** When no input line holds more than four hex digits, every value read
      is a 16-bit word, and every window sum fits the int64 accumulator with
      room to spare, so the unbounded sum is the sum the program computes. */
  lemma ShortLinesNoOverflow(imageLines: seq<string>, weightLines: seq<string>, f: nat, r: nat, c: nat)
    requires forall i :: 0 <= i < |imageLines| ==> IsShortLine(imageLines[i])
    requires forall i :: 0 <= i < |weightLines| ==> IsShortLine(weightLines[i])
    requires ReadHex(imageLines, IMG_SIZE).Ok? && ReadHex(weightLines, WEIGHT_COUNT).Ok?
    requires f < NUM_FILTERS && r < OUT_CONV_H && c < OUT_CONV_W
    ensures AllRepresentable(ReadHex(imageLines, IMG_SIZE).value)
    ensures AllRepresentable(ReadHex(weightLines, WEIGHT_COUNT).value)
    ensures -0x8000_0000_0000_0000 < WindowSum(ReadHex(imageLines, IMG_SIZE).value,
                                               ReadHex(weightLines, WEIGHT_COUNT).value, f, r, c)
              < 0x7FFF_FFFF_FFFF_FFFF
  {
    ReadShortLinesInRange(imageLines, IMG_SIZE);
    ReadShortLinesInRange(weightLines, WEIGHT_COUNT);
  }

  /** The line written for the value 0. */
  lemma EncodeZero()
    ensures EncodeLine(0) == "0000\n"
  {
    var h := Hex4(0);
    assert h == [UpperDigit(0), UpperDigit(0), UpperDigit(0), UpperDigit(0)];
  }

  /** All-zero weights give an all-zero convolution output, whatever the
      image. */
  lemma ZeroWeightsConv(img: seq<int>, w: seq<int>)
    requires |img| == IMG_SIZE && |w| == WEIGHT_COUNT
    requires forall j :: 0 <= j < WEIGHT_COUNT ==> w[j] == 0
    ensures forall k :: 0 <= k < CONV_SIZE ==> ConvOutput(img, w)[k] == 0
  {
    var conv := ConvOutput(img, w);
    forall k | 0 <= k < CONV_SIZE
      ensures conv[k] == 0
    {
      var f, r, c := ConvCoords(k);
      ZeroWeightsKernel(w, f);
      ZeroKernel(img, w, f, r, c);
      ConvOutputAt(img, w, f, r, c);
    }
  }

  /** All-zero weights give all-zero kernels. */
  lemma ZeroWeightsKernel(w: seq<int>, f: nat)
    requires |w| == WEIGHT_COUNT && f < NUM_FILTERS
    requires forall j :: 0 <= j < WEIGHT_COUNT ==> w[j] == 0
    ensures forall j :: 0 <= j < K * K ==> Kernel(w, f)[j] == 0
  {
    var ker := Kernel(w, f);
    assert ker == w[WeightIndex(f, 0, 0)..WeightIndex(f, 0, 0) + K * K];
  }

  /** Pooling an all-zero convolution output gives all zeros. */
  lemma ZeroPool(conv: seq<int>)
    requires |conv| == CONV_SIZE
    requires forall k :: 0 <= k < CONV_SIZE ==> conv[k] == 0
    ensures forall k :: 0 <= k < POOL_SIZE ==> PoolOutput(conv)[k] == 0
  {
  }

  /** An empty weight file is padded to all-zero kernels, so with any
      well-formed image every written line of both files is "0000". */
  lemma EmptyWeightsGiveZeros(imageLines: seq<string>)
    requires ReadHex(imageLines, IMG_SIZE).Ok?
    ensures Golden(imageLines, []).Ok?
    ensures forall i :: 0 <= i < CONV_SIZE ==> Golden(imageLines, []).value.convLines[i] == "0000\n"
    ensures forall i :: 0 <= i < POOL_SIZE ==> Golden(imageLines, []).value.poolLines[i] == "0000\n"
  {
    var img := ReadHex(imageLines, IMG_SIZE).value;
    assert DecodeLines([]) == Ok([]);
    var w := ReadHex([], WEIGHT_COUNT).value;
    assert w == FitToCount([], WEIGHT_COUNT);
    ZeroWeightsConv(img, w);
    var conv := ConvOutput(img, w);
    ZeroPool(conv);
    EncodeZero();
    var files := Golden(imageLines, []).value;
    assert files.convLines == EncodeLines(conv);
    assert files.poolLines == EncodeLines(PoolOutput(conv));
  }
}
