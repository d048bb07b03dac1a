/** Q8.8 fixed-point arithmetic of the accelerator: values are 16-bit
    two's-complement words with 8 fractional bits (real value = word / 256).
    Everything here is exact integer arithmetic on unbounded `int`. */
module FixedPoint {

  const DATA_WIDTH: nat := 16
  const FRAC_BITS: nat := 8

  /** 1 << DATA_WIDTH: the number of distinct 16-bit words. */
  const WORD: int := 0x1_0000
  /** 1 << (DATA_WIDTH - 1): the weight of the sign bit. */
  const SIGN_BIT: int := 0x8000
  /** -(1 << (DATA_WIDTH - 1)) and (1 << (DATA_WIDTH - 1)) - 1: the saturation bounds. */
  const Q_MIN: int := -0x8000
  const Q_MAX: int := 0x7FFF

  function Pow2(k: nat): (p: nat)
    ensures p >= 1
  {
    if k == 0 then 1 else 2 * Pow2(k - 1)
  }

  /** The literal constants above are the shifts the source writes. */
  lemma WidthConstants()
    ensures WORD == Pow2(DATA_WIDTH) && SIGN_BIT == Pow2(DATA_WIDTH - 1)
    ensures Q_MIN == -(Pow2(DATA_WIDTH - 1) as int) && Q_MAX == Pow2(DATA_WIDTH - 1) - 1
    ensures Pow2(FRAC_BITS) == 256
  {
  }

  /** A one-bit arithmetic right shift, which halves and rounds down: the
      low bit (`s % 2`, which is the two's-complement low bit also for
      negative `s`) is dropped and the sign is kept. */
  function ShiftRightOnce(s: int): (t: int)
    ensures 2 * t <= s <= 2 * t + 1
  {
    (s - s % 2) / 2
  }

  /** `s >> k` on a signed integer, as k one-bit arithmetic shifts. The
      shift keeps the sign and never moves away from zero. */
  function ShiftRight(s: int, k: nat): (q: int)
    ensures s >= 0 ==> 0 <= q <= s
    ensures s < 0 ==> s <= q < 0
    decreases k
  {
    if k == 0 then s else ShiftRight(ShiftRightOnce(s), k - 1)
  }

  /** An arithmetic right shift by k is floor division by 2^k. */
  lemma {:induction false} ShiftRightIsFloor(s: int, k: nat)
    ensures Pow2(k) * ShiftRight(s, k) <= s < Pow2(k) * ShiftRight(s, k) + Pow2(k)
    decreases k
  {
    if k > 0 {
      var t := ShiftRightOnce(s);
      var q := ShiftRight(s, k);
      var p := Pow2(k - 1);
      ShiftRightIsFloor(t, k - 1);
      assert q == ShiftRight(t, k - 1);
      var pq := p * q;
      assert pq <= t < pq + p;
      DoubleProduct(p, q);
      assert Pow2(k) == 2 * p;
    }
  }

  /** Doubling one factor doubles the product. */
  lemma DoubleProduct(p: int, q: int)
    ensures (2 * p) * q == 2 * (p * q)
  {
  }

  /** The scale-down step `s >> FRAC_BITS`: floor division by 256. */
  function ScaleDown(s: int): (q: int)
    ensures 256 * q <= s < 256 * q + 256
  {
    ShiftRightIsFloor(s, FRAC_BITS);
    ShiftRight(s, FRAC_BITS)
  }

  /** Division rounding toward zero, as C, Java or Verilog `/` on signed values
      would compute it: the scale-down must NOT behave like this. */
  function TruncatingDiv(s: int, d: nat): (q: int)
    requires d > 0
    ensures s >= 0 ==> d * q <= s < d * q + d
    ensures s < 0 ==> d * q - d < s <= d * q
  {
    if s >= 0 then s / d else -((-s) / d)
  }

  /** The arithmetic shift rounds toward minus infinity: a negative sum that
      is not a multiple of 256 scales to one less than truncating division
      would give. */
  lemma ScaleDownRoundsDown(s: int)
    requires s < 0 && s % 256 != 0
    ensures ScaleDown(s) == TruncatingDiv(s, 256) - 1
  {
    var q := ScaleDown(s);
    var t := TruncatingDiv(s, 256);
    assert 256 * q <= s < 256 * q + 256;
    assert 256 * t - 256 < s <= 256 * t;
    MultipleOf256(t);
    assert s < 256 * t;
    assert q < t < q + 2;
  }

  lemma MultipleOf256(t: int)
    ensures (256 * t) % 256 == 0
  {
  }

  /** A sum of -1 scales to -1, where truncating division would give 0. */
  lemma ScaleDownOfMinusOne()
    ensures ScaleDown(-1) == -1 && TruncatingDiv(-1, 256) == 0
  {
    var m := ScaleDown(-1);
    assert 256 * m <= -1 < 256 * m + 256;
  }

  /** Every element is representable as a signed 16-bit word. */
  predicate AllRepresentable(v: seq<int>)
  {
    forall i :: 0 <= i < |v| ==> Q_MIN <= v[i] <= Q_MAX
  }

  /** Distance between two integers. */
  function Dist(a: int, b: int): nat
  {
    if a <= b then b - a else a - b
  }

  /** Saturation to the 16-bit signed range: the result is the representable
      value nearest to `s`, and an in-range value passes unchanged. */
  function Saturate(s: int): (r: int)
    ensures Q_MIN <= r <= Q_MAX
    ensures Q_MIN <= s <= Q_MAX ==> r == s
    ensures forall v :: Q_MIN <= v <= Q_MAX ==> Dist(r, s) <= Dist(v, s)
  {
    if s < Q_MIN then Q_MIN else if s > Q_MAX then Q_MAX else s
  }

  /** ReLU: the larger of 0 and `s`. */
  function Relu(s: int): (r: int)
    ensures 0 <= r && s <= r
    ensures r == 0 || r == s
  {
    if s < 0 then 0 else s
  }

  /** The per-cell activation of the convolution stage: scale-down, saturate,
      ReLU. Its result always lies in [0, Q_MAX]. */
  function Activate(sum: int): (v: int)
    ensures 0 <= v <= Q_MAX
    ensures ScaleDown(sum) > Q_MAX ==> v == Q_MAX
    ensures ScaleDown(sum) < 0 ==> v == 0
    ensures 0 <= ScaleDown(sum) <= Q_MAX ==> v == ScaleDown(sum)
    ensures sum >= (Q_MAX + 1) * 256 ==> v == Q_MAX
    ensures sum < 0 ==> v == 0
  {
    Relu(Saturate(ScaleDown(sum)))
  }

  /** `v & 0xFFFF`: the low 16 bits of a two's-complement integer. */
  function Mask16(v: int): (u: int)
    ensures 0 <= u < WORD
  {
    v % WORD
  }

  /** Reinterprets a parsed unsigned value as signed: if bit 15 is set,
      2^16 is subtracted. A 16-bit word lands in the signed range. */
  function AsSigned16(v: nat): (x: int)
    ensures x == v || x == v - WORD
    ensures v < WORD ==> Q_MIN <= x <= Q_MAX
  {
    if (v / SIGN_BIT) % 2 == 1 then v - WORD else v
  }

  /** On a 16-bit word, the reinterpretation gives the signed range, and bit 15
      is set exactly when the word is at least 0x8000. */
  lemma AsSigned16OfWord(u: nat)
    requires u < WORD
    ensures Q_MIN <= AsSigned16(u) <= Q_MAX
    ensures AsSigned16(u) == if u >= SIGN_BIT then u - WORD else u
  {
  }

  /** Masking and then reinterpreting a representable value gives it back. */
  lemma SignedRoundTrip(x: int)
    requires Q_MIN <= x <= Q_MAX
    ensures AsSigned16(Mask16(x)) == x
  {
  }

  /** Reinterpreting a word and then masking it gives the word back. */
  lemma WordRoundTrip(u: nat)
    requires u < WORD
    ensures Mask16(AsSigned16(u)) == u
  {
  }
}
