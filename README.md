# Golden model of the CNN accelerator, in Dafny

This project models the Python golden model of a small CNN accelerator
(`cnn_accel_structure/scripts/golden_cnn.py`). It is a bit-exact integer
reference for the hardware pipeline. Values are 16-bit two's-complement
words in Q8.8 fixed point, that is, 8 fractional bits.

The pipeline:

1. Read an 8×8 single-channel image and four 3×3 kernels from text files.
   Each file has one hexadecimal word per line. Blank lines and `#` comment
   lines are skipped. The values read are zero-padded or truncated to the
   expected count.
2. Run a valid 3×3 convolution for each filter, giving a 6×6 grid per
   filter. Each output cell is computed as follows:
   - the nine products are summed in a wide accumulator;
   - the sum is scaled down by an arithmetic right shift of 8 bits;
   - the result is saturated to [-32768, 32767];
   - ReLU is applied.
3. Write the convolution output as four uppercase hex digits per line.
4. Max-pool each 6×6 grid with non-overlapping 2×2 blocks, giving a 3×3 grid
   per filter, and write that output as well.

Modules:

- `FixedPoint` (`fixed_point.dfy`): the word format and per-value arithmetic:
  - the floor shift, saturation and ReLU;
  - the 16-bit mask and the signed reinterpretation, with their round trips.
- `Layout` (`layout.dfy`): the dimensions and the flat, row-major indexing of
  every grid. The filter index varies slowest, as numpy's C-order `reshape`
  lays it out.
- `HexIO` (`hex_io.dfy`): reading and writing hex vectors.
  - A file is a sequence of lines.
  - `ReadHexVector` and `WriteHexVector` are the loops of the source. Each is
    proved equal to a specification function: `ReadHex` and `EncodeLines`.
  - The write/read round trip is proved on those functions.
- `Convolution` (`convolution.dfy`): the per-cell formula and the whole
  output as specification functions. The triple loop `ConvReluStage` fills an
  array and is proved to produce exactly that output.
- `MaxPool` (`pool.dfy`): the same structure for pooling. `MaxPoolStage` is
  proved against `PoolOutput`.
- `GoldenModel` (`pipeline.dfy`): the whole run as one function, `Golden`,
  and as the method `RunGolden`, which calls the stages in the source's order.

Integers are unbounded. The source accumulates in int64. With 16-bit
operands no window sum can overflow it (`DotBound`, `WindowSum`), so for such
operands an unbounded accumulator gives the same values. Every input line of
at most four hex digits reads as such an operand (`ShortLinesNoOverflow`).

Two behaviours of the code are worth stating plainly:

- **Saturation at the low end.** ReLU follows the clamp, so a shifted sum
  below -32768 gives a stage output of 0, not -32768. The clamp alone
  (`Saturate`) does give -32768.
- **Line length on input.** `int(line, 16)` accepts any non-empty run of hex
  digits, not only four, and the model does too:
  - `HexValue` gives the value of any run of digits;
  - `AsSigned16` subtracts 2^16 only when bit 15 is set, exactly as the code
    does, even for a value wider than 16 bits.

## Model

| member | source | states |
|---|---|---|
| FixedPoint.ShiftRightOnce | cnn_accel_structure/scripts/golden_cnn.py:71 | a one-bit arithmetic shift halves and rounds down: 2·t ≤ s ≤ 2·t + 1 |
| FixedPoint.ShiftRight | cnn_accel_structure/scripts/golden_cnn.py:71 | `s >> k` keeps the sign of s and never moves away from zero: 0 ≤ q ≤ s for s ≥ 0 and s ≤ q < 0 for s < 0 |
| FixedPoint.WidthConstants | cnn_accel_structure/scripts/golden_cnn.py:12-13 | the word size, sign bit and saturation bounds are the powers of two `1 << 16`, `1 << 15`, `-(1 << 15)` and `(1 << 15) - 1`; `1 << FRAC_BITS` is 256 |
| FixedPoint.ShiftRightIsFloor | cnn_accel_structure/scripts/golden_cnn.py:71 | for every integer s and shift k, `s >> k` is floor division by 2^k: 2^k·q ≤ s < 2^k·q + 2^k |
| FixedPoint.ScaleDown | cnn_accel_structure/scripts/golden_cnn.py:71 | `s >> 8` is the q with 256·q ≤ s < 256·q + 256 |
| FixedPoint.ScaleDownRoundsDown | cnn_accel_structure/scripts/golden_cnn.py:71 | for a negative sum that is not a multiple of 256, the shift gives one less than truncating division |
| FixedPoint.ScaleDownOfMinusOne | cnn_accel_structure/scripts/golden_cnn.py:71 | a sum of -1 scales to -1, where truncating division gives 0 |
| FixedPoint.Saturate | cnn_accel_structure/scripts/golden_cnn.py:73-76 | the result lies in [-32768, 32767]; an in-range value is unchanged; the result is the representable value nearest to the input |
| FixedPoint.Relu | cnn_accel_structure/scripts/golden_cnn.py:78-79 | the result is non-negative, at least the input, and is either 0 or the input |
| FixedPoint.Activate | cnn_accel_structure/scripts/golden_cnn.py:71-79 | shift, clamp and ReLU give a value in [0, 32767]: 32767 when the shifted sum exceeds 32767, 0 when it is negative (also below -32768), the shifted sum otherwise |
| FixedPoint.Mask16 | cnn_accel_structure/scripts/golden_cnn.py:42 | `v & 0xFFFF` lies in [0, 65535] |
| FixedPoint.AsSigned16 | cnn_accel_structure/scripts/golden_cnn.py:31-33 | the reinterpreted value is v or v − 65536, and lies in [-32768, 32767] when v is a 16-bit word |
| FixedPoint.AsSigned16OfWord | cnn_accel_structure/scripts/golden_cnn.py:32-33 | on a 16-bit word, testing bit 15 is testing u ≥ 0x8000, and the reinterpreted value lies in [-32768, 32767] |
| FixedPoint.SignedRoundTrip | cnn_accel_structure/scripts/golden_cnn.py:32-33 | masking a value in [-32768, 32767] to 16 bits and reinterpreting it as signed gives the value back |
| FixedPoint.WordRoundTrip | cnn_accel_structure/scripts/golden_cnn.py:32-33 | reinterpreting a 16-bit word as signed and masking it gives the word back |
| Layout.ImgIndex | cnn_accel_structure/scripts/golden_cnn.py:54 | pixel (r, c) of the reshaped 8×8 image is a valid position of the flat vector |
| Layout.WeightIndex | cnn_accel_structure/scripts/golden_cnn.py:57 | weight (f, i, j) of the reshaped (4, 3, 3) tensor is a valid position of the flat vector |
| Layout.ConvIndex | cnn_accel_structure/scripts/golden_cnn.py:83 | conv cell (f, r, c) lies inside the flattened conv output |
| Layout.ConvIndexDecode | cnn_accel_structure/scripts/golden_cnn.py:83 | the flat conv position of (f, r, c) gives back f, r and c by division and remainder, so distinct cells have distinct positions |
| Layout.ConvCoords | cnn_accel_structure/scripts/golden_cnn.py:83 | every flat conv position is the position of exactly the cell its quotient and remainders name |
| Layout.PoolIndex | cnn_accel_structure/scripts/golden_cnn.py:96 | pooled cell (f, r, c) lies inside the flattened pooled output |
| Layout.PoolIndexDecode | cnn_accel_structure/scripts/golden_cnn.py:96 | the flat pooled position of (f, r, c) gives back f, r and c |
| Layout.PoolCoords | cnn_accel_structure/scripts/golden_cnn.py:96 | every flat pooled position is the position of the cell its quotient and remainders name |
| HexIO.IsSpace | cnn_accel_structure/scripts/golden_cnn.py:27 | the characters `strip` removes (Python's `isspace` set) include no hex digit and not `#` |
| HexIO.Strip | cnn_accel_structure/scripts/golden_cnn.py:27 | neither end of a stripped line is white space; a line that does not start with white space keeps its first character |
| HexIO.StripPlainText | cnn_accel_structure/scripts/golden_cnn.py:27 | a line without white space is unchanged by stripping |
| HexIO.StripBlank | cnn_accel_structure/scripts/golden_cnn.py:27 | a line of white space only strips to the empty line |
| HexIO.BlankAndCommentSkipped | cnn_accel_structure/scripts/golden_cnn.py:27-29 | a line of white space only, and a line starting with `#`, are skipped |
| HexIO.TrimLeft | cnn_accel_structure/scripts/golden_cnn.py:27 | the result is a suffix of the line, does not start with whitespace, and only whitespace was removed |
| HexIO.TrimRight | cnn_accel_structure/scripts/golden_cnn.py:27 | the result is a prefix of the line, does not end with whitespace, and only whitespace was removed |
| HexIO.HexValue | cnn_accel_structure/scripts/golden_cnn.py:30 | the value of n hex digits (either case) is below 16^n |
| HexIO.HexValueOfFour | cnn_accel_structure/scripts/golden_cnn.py:30 | four digits d0 d1 d2 d3 have the value 4096·d0 + 256·d1 + 16·d2 + d3 |
| HexIO.FourDigitsAreWord | cnn_accel_structure/scripts/golden_cnn.py:30 | four hex digits parse to a 16-bit word |
| HexIO.ParseWord | cnn_accel_structure/scripts/golden_cnn.py:30-33 | the parse succeeds exactly on hex text; a failure names the text; text of at most four digits yields a value in [-32768, 32767] |
| HexIO.HexTextRange | cnn_accel_structure/scripts/golden_cnn.py:30-33 | hex text of at most four digits is a 16-bit word and reads as a value in [-32768, 32767] |
| HexIO.LineValue | cnn_accel_structure/scripts/golden_cnn.py:27-33 | a line is skipped exactly when `IsSkipped` holds; otherwise it yields the parsed value of its stripped text, or a failure naming that text |
| HexIO.DecodeStep | cnn_accel_structure/scripts/golden_cnn.py:27-34 | one iteration keeps an earlier failure, leaves the values unchanged on a skipped line, and otherwise keeps the values read so far and appends at most one |
| HexIO.DecodeLines | cnn_accel_structure/scripts/golden_cnn.py:26-34 | a successful decode gives at most one value per line |
| HexIO.DecodePrefixStep | cnn_accel_structure/scripts/golden_cnn.py:26-34 | decoding one more line is one more iteration of the read loop |
| HexIO.DecodeConcat | cnn_accel_structure/scripts/golden_cnn.py:26-34 | the values of a file are the values of its first part followed by those of its second part, in order; the first failure in file order is the one reported |
| HexIO.DecodeFailurePersists | cnn_accel_structure/scripts/golden_cnn.py:30 | a non-hex line fails the whole read, whatever follows it |
| HexIO.DecodeSkippedOnly | cnn_accel_structure/scripts/golden_cnn.py:28-29 | a file of only blank and comment lines decodes to no values |
| HexIO.DecodeIgnoresSkipped | cnn_accel_structure/scripts/golden_cnn.py:27-34 | inserting blank or comment lines anywhere changes neither the values, nor their order, nor the failure |
| HexIO.HexTextIsPlain | cnn_accel_structure/scripts/golden_cnn.py:27-28 | a run of hex digits is unchanged by stripping and is not skipped |
| HexIO.HexLineIsPlain | cnn_accel_structure/scripts/golden_cnn.py:27-28 | a run of hex digits followed by a newline strips to the digits and is not skipped |
| HexIO.DecodeHexLine | cnn_accel_structure/scripts/golden_cnn.py:30-34 | a line of hex digits decodes to its value reinterpreted as signed |
| HexIO.DecodeFourDigits | cnn_accel_structure/scripts/golden_cnn.py:30-33 | a 4-digit line decodes to its value minus 65536 when that value is at least 0x8000 and to the value itself otherwise, and the result lies in [-32768, 32767] |
| HexIO.DecodeValueLine | cnn_accel_structure/scripts/golden_cnn.py:30-34 | a line that is not skipped and parses appends its value after the values read so far |
| HexIO.DecodeShortLinesInRange | cnn_accel_structure/scripts/golden_cnn.py:26-34 | when no line holds more than four digits, every decoded value lies in [-32768, 32767] |
| HexIO.ReadShortLinesInRange | cnn_accel_structure/scripts/golden_cnn.py:23-37 | when no line holds more than four digits, every value of a successful read, padding included, lies in [-32768, 32767] |
| HexIO.FitToCount | cnn_accel_structure/scripts/golden_cnn.py:35-37 | the result has exactly `count` values: the parsed values first, zeros after the parsed ones, surplus values dropped |
| HexIO.ReadLoopStep | cnn_accel_structure/scripts/golden_cnn.py:26-34 | one iteration of the read loop: a blank or comment line leaves the values read so far, a line that is not hex fails the whole file with that line, and a hex line appends its signed value |
| HexIO.PadThenTruncate | cnn_accel_structure/scripts/golden_cnn.py:35-37 | padding with zeros up to `count` and then keeping the first `count` values is `FitToCount` |
| HexIO.ReadHex | cnn_accel_structure/scripts/golden_cnn.py:23-37 | a successful read has exactly `count` values |
| HexIO.ReadHexVector | cnn_accel_structure/scripts/golden_cnn.py:23-37 | the read loop, the padding and the truncation compute `ReadHex`: the decoded lines fitted to `count`, or the first line that is not hex |
| HexIO.DigitValue | cnn_accel_structure/scripts/golden_cnn.py:30 | a hex digit's value is below 16 |
| HexIO.UpperDigit | cnn_accel_structure/scripts/golden_cnn.py:43 | each value below 16 has an uppercase digit that parses back to it |
| HexIO.Hex4 | cnn_accel_structure/scripts/golden_cnn.py:43 | `{:04X}` of a 16-bit word is four uppercase hex digits whose value is the word |
| HexIO.EncodeLine | cnn_accel_structure/scripts/golden_cnn.py:42-43 | a written line is four uppercase hex digits then a newline, and the digits' value is `v & 0xFFFF` |
| HexIO.ReadEncodedLine | cnn_accel_structure/scripts/golden_cnn.py:42-43 | a written line is never skipped on reading, and it reads back as the value wrapped to 16 bits |
| HexIO.EncodeLines | cnn_accel_structure/scripts/golden_cnn.py:39-43 | one line per value |
| HexIO.WriteHexVector | cnn_accel_structure/scripts/golden_cnn.py:39-43 | the write loop produces `EncodeLines`: the lines of the values, in order |
| HexIO.WrapAll | cnn_accel_structure/scripts/golden_cnn.py:42 | wrapping every value to 16 bits gives values in [-32768, 32767], one per value |
| HexIO.WriteReadWraps | cnn_accel_structure/scripts/golden_cnn.py:39-43 | reading back what was written gives every value wrapped to 16 bits, in order, for any integers |
| HexIO.WriteReadRoundTrip | cnn_accel_structure/scripts/golden_cnn.py:39-43 | writing and then reading with the matching count reproduces any sequence of values in [-32768, 32767] exactly |
| Convolution.Window | cnn_accel_structure/scripts/golden_cnn.py:66 | the window `img[r:r+3, c:c+3]` has nine pixels, and tap (i, j) is image pixel (r + i, c + j) |
| Convolution.Kernel | cnn_accel_structure/scripts/golden_cnn.py:63 | element (i, j) of kernel f is weight (f, i, j) |
| Convolution.Dot | cnn_accel_structure/scripts/golden_cnn.py:68-69 | the exact sum of products is 0 against an all-zero kernel and non-negative when no product is negative |
| Convolution.DotSingleTap | cnn_accel_structure/scripts/golden_cnn.py:68-69 | against a kernel that is zero except at one tap, the sum of products is that tap's product |
| Convolution.ProductBound | cnn_accel_structure/scripts/golden_cnn.py:68 | the product of two 16-bit signed values is at most 2^30 in magnitude |
| Convolution.DotBound | cnn_accel_structure/scripts/golden_cnn.py:68-69 | the sum of n such products is at most n·2^30 in magnitude, so with 16-bit operands the int64 accumulator cannot overflow |
| Convolution.WindowSum | cnn_accel_structure/scripts/golden_cnn.py:66-69 | for a 16-bit image and 16-bit weights the window sum lies within ±9·2^30, well inside int64 |
| Convolution.ConvCell | cnn_accel_structure/scripts/golden_cnn.py:66-79 | an output cell lies in [0, 32767]: 32767 when the shifted window sum exceeds 32767, 0 when it is negative, the shifted sum otherwise |
| Convolution.ConvOutput | cnn_accel_structure/scripts/golden_cnn.py:60-80 | the output has NUM_FILTERS·6·6 cells |
| Convolution.ConvOutputAt | cnn_accel_structure/scripts/golden_cnn.py:80 | position (f, r, c) of the output holds that cell's formula, which lies in [0, 32767] |
| Convolution.ConvReluStage | cnn_accel_structure/scripts/golden_cnn.py:60-80 | the triple loop fills a fresh array whose every cell is `relu(clamp(floor(Σ window·kernel / 256)))` for its own (f, r, c); each cell is written once, in flat order |
| Convolution.IdentityKernel | cnn_accel_structure/scripts/golden_cnn.py:66-79 | a kernel with 256 (1.0) at the centre and zeros elsewhere gives the rectified, saturated centre pixel of the window |
| Convolution.ZeroKernel | cnn_accel_structure/scripts/golden_cnn.py:66-79 | an all-zero kernel gives 0 at every position |
| MaxPool.Max4 | cnn_accel_structure/scripts/golden_cnn.py:94 | the maximum is at least each of the four values and equal to one of them |
| MaxPool.Block | cnn_accel_structure/scripts/golden_cnn.py:91-93 | a block is four valid conv positions |
| MaxPool.BlockCells | cnn_accel_structure/scripts/golden_cnn.py:91-93 | the block of (f, r, c) is conv cells (f, 2r+i, 2c+j) for i, j in {0, 1}, all inside the conv grid |
| MaxPool.PoolCell | cnn_accel_structure/scripts/golden_cnn.py:93-94 | a pooled cell is at least every value of its block and equal to one of them |
| MaxPool.PoolOutput | cnn_accel_structure/scripts/golden_cnn.py:87-94 | the pooled output has NUM_FILTERS·3·3 cells |
| MaxPool.PoolIsBlockMax | cnn_accel_structure/scripts/golden_cnn.py:91-94 | each pooled value is at least every value of its 2×2 block and equal to one of them |
| MaxPool.PoolOutputRange | cnn_accel_structure/scripts/golden_cnn.py:94 | when every conv value lies in [0, 32767], so does every pooled value |
| MaxPool.PoolCoverage | cnn_accel_structure/scripts/golden_cnn.py:20-21 | along an axis of n cells, cell i is in some block exactly when i < 2·floor(n/2), so a trailing odd cell is dropped, and every block lies inside the axis |
| MaxPool.PoolShape | cnn_accel_structure/scripts/golden_cnn.py:18-21 | the pooled grid is 3×3 per filter, and the 6×6 conv grid is exactly covered by the blocks |
| MaxPool.PoolStep | cnn_accel_structure/scripts/golden_cnn.py:91-94 | the maximum of the four conv cells (f, 2r..2r+1, 2c..2c+1) is the pooled output at (f, r, c), and that position is the next one in row-major order |
| MaxPool.MaxPoolStage | cnn_accel_structure/scripts/golden_cnn.py:87-94 | the triple loop fills a fresh array whose every cell is the maximum of its own 2×2 block |
| GoldenModel.Golden | cnn_accel_structure/scripts/golden_cnn.py:51-97 | the run succeeds exactly when both inputs read; a malformed image is reported first, then a malformed weight file; the outputs have 144 and 36 lines |
| GoldenModel.RunGolden | cnn_accel_structure/scripts/golden_cnn.py:51-97 | reading, convolution, writing, pooling and writing in the source's order compute `Golden` |
| GoldenModel.GoldenReadsBack | cnn_accel_structure/scripts/golden_cnn.py:83-97 | the written conv and pooled files read back, with the matching counts, as exactly the computed conv and pooled outputs: masking never alters an output |
| GoldenModel.ShortLinesNoOverflow | cnn_accel_structure/scripts/golden_cnn.py:53-69 | when no input line holds more than four digits, the image and weights read are 16-bit values and every window sum lies strictly inside the int64 range |
| GoldenModel.EncodeZero | cnn_accel_structure/scripts/golden_cnn.py:43 | the value 0 is written as `0000` and a newline |
| GoldenModel.ZeroWeightsKernel | cnn_accel_structure/scripts/golden_cnn.py:57 | all-zero weights give all-zero kernels |
| GoldenModel.ZeroWeightsConv | cnn_accel_structure/scripts/golden_cnn.py:62-80 | all-zero weights give an all-zero conv output for any image |
| GoldenModel.ZeroPool | cnn_accel_structure/scripts/golden_cnn.py:88-94 | pooling an all-zero conv output gives all zeros |
| GoldenModel.EmptyWeightsGiveZeros | cnn_accel_structure/scripts/golden_cnn.py:35-97 | an empty weight file is padded to zero kernels, so with any well-formed image every line of both output files is `0000` |

## Left out

- File opening, reading and writing: each file is the sequence of its
  lines. The `print` calls at the end of `main`, the hard-coded data paths
  and the `__main__` entry point are also left out.
- Line splitting: the model takes the lines as given. Python's
  universal-newline splitting of the raw file text is not modelled.
- `to_float` and `from_float`: floating-point division and Python `round`.
  The pipeline does not use them.
- HexIO.ParseWord: models `int(line, 16)` only for a non-empty run of hex
  digits of either case. It reports the other forms Python accepts as
  `NotHex`: a `0x` prefix, underscores between digits, a leading sign, and
  non-ASCII digits.
- HexIO.ReadHexVector: the final numpy `int32` cast is not modelled. A value
  outside the int32 range, which numpy rejects or wraps, keeps its exact
  value in the model. Such a value comes from a line of eight or more hex
  digits, for example `80000000`.
- Convolution.Dot: the sum is exact. The program's int64 `np.sum` wraps
  around when operands are wider than 16 bits, and the model does not model
  that wrap. Such operands come only from input lines of more than four hex
  digits. For example, three image lines and three weight lines of
  `8000FFFF` make the program write `0000` for cell (0, 0, 0), but the model
  writes `7FFF`. For lines of at most four digits the two agree
  (`GoldenModel.ShortLinesNoOverflow`).
- HexIO.ReadHexVector: the failure carries the offending stripped line. The
  exception message and traceback Python prints are not modelled.
- numpy itself is left out: `reshape`, `astype`, `np.sum`, `np.max` and the
  dtypes. Grids are flat sequences and arrays with explicit row-major
  indices. Sums use unbounded integers; see `Convolution.Dot` above for when
  they differ from int64.
- Convolution.ConvReluStage and MaxPool.MaxPoolStage: each allocates its
  output array and returns it. numpy's `zeros` initialisation appears only as
  the array's initial contents.
