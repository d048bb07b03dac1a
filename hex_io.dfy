/** Reading and writing flat vectors of Q8.8 words as line-oriented hex text
    (`read_hex_vector` and `write_hex_vector`). A file is the sequence of its
    lines, as iterating over a text file yields them; a written line carries
    its trailing newline. */
module HexIO {
  import opened FixedPoint

  datatype Result<T, E> = Ok(value: T) | Err(error: E)

  /** The failure of `int(text, 16)` on a line that is not hexadecimal; it
      carries the offending line after stripping. */
  datatype FormatError = NotHex(text: string)

  // ---------------------------------------------------------------------------
  // Stripping and classifying lines

  /** The characters for which Python's `str.isspace()` holds, which is what
      `str.strip()` removes. */
  predicate IsSpace(ch: char)
    ensures IsSpace(ch) ==> !IsHexDigit(ch) && ch != '#'
  {
    var n := ch as int;
    (9 <= n <= 13) || (28 <= n <= 32) || n == 0x85 || n == 0xA0 || n == 0x1680
    || (0x2000 <= n <= 0x200A) || n == 0x2028 || n == 0x2029 || n == 0x202F
    || n == 0x205F || n == 0x3000
  }

  /** `s` with its leading white space removed. */
  function TrimLeft(s: string): (t: string)
    ensures |t| <= |s| && t == s[|s| - |t|..]
    ensures t == [] || !IsSpace(t[0])
    ensures forall i :: 0 <= i < |s| - |t| ==> IsSpace(s[i])
  {
    if s != [] && IsSpace(s[0]) then TrimLeft(s[1..]) else s
  }

  /** `s` with its trailing white space removed. */
  function TrimRight(s: string): (t: string)
    ensures |t| <= |s| && t == s[..|t|]
    ensures t == [] || !IsSpace(t[|t| - 1])
    ensures forall i :: |t| <= i < |s| ==> IsSpace(s[i])
  {
    if s != [] && IsSpace(s[|s| - 1]) then TrimRight(s[..|s| - 1]) else s
  }

  /** `line.strip()`: neither end of the result is white space, and a line
      that starts with something else keeps that first character. */
  function Strip(line: string): (t: string)
    ensures t == [] || (!IsSpace(t[0]) && !IsSpace(t[|t| - 1]))
    ensures line != [] && !IsSpace(line[0]) ==> t != [] && t[0] == line[0]
  {
    var l := TrimLeft(line);
    TrimLeftKeeps(line);
    TrimRightKeeps(l);
    TrimRight(l)
  }

  /** A line without white space is unchanged by stripping. */
  lemma StripPlainText(line: string)
    ensures (forall i :: 0 <= i < |line| ==> !IsSpace(line[i])) ==> Strip(line) == line
  {
    if line != [] && forall i :: 0 <= i < |line| ==> !IsSpace(line[i]) {
      assert !IsSpace(line[0]) && !IsSpace(line[|line| - 1]);
      TrimLeftKeeps(line);
      TrimRightKeeps(line);
    }
  }

  /** A line of white space only becomes empty. */
  lemma StripBlank(line: string)
    ensures (forall i :: 0 <= i < |line| ==> IsSpace(line[i])) ==> Strip(line) == []
  {
    TrimLeftAllSpace(line);
  }

  lemma TrimLeftKeeps(s: string)
    ensures s != [] && !IsSpace(s[0]) ==> TrimLeft(s) == s
  {
    var t := TrimLeft(s);
    if s != [] && !IsSpace(s[0]) {
      assert |s| - |t| == 0;
    }
  }

  lemma TrimRightKeeps(s: string)
    ensures s != [] && !IsSpace(s[0]) ==> TrimRight(s) != [] && TrimRight(s)[0] == s[0]
    ensures s != [] && !IsSpace(s[|s| - 1]) ==> TrimRight(s) == s
  {
    var t := TrimRight(s);
    if s != [] && !IsSpace(s[0]) {
      assert |t| > 0;
    }
    if s != [] && !IsSpace(s[|s| - 1]) {
      assert |t| == |s|;
    }
  }

  lemma TrimLeftAllSpace(s: string)
    ensures (forall i :: 0 <= i < |s| ==> IsSpace(s[i])) ==> TrimLeft(s) == []
  {
    var t := TrimLeft(s);
    if s != [] && forall i :: 0 <= i < |s| ==> IsSpace(s[i]) {
      assert IsSpace(s[|s| - 1]);
      assert t == [];
    }
  }

  /** A line that is empty after stripping, or starts with `#` after
      stripping, holds no value. */
  predicate IsSkipped(line: string)
  {
    var t := Strip(line);
    t == [] || t[0] == '#'
  }

  /** In particular a blank line and a line that starts with `#` are
      skipped. */
  lemma BlankAndCommentSkipped(line: string)
    ensures (forall i :: 0 <= i < |line| ==> IsSpace(line[i])) ==> IsSkipped(line)
    ensures line != [] && line[0] == '#' ==> IsSkipped(line)
  {
    StripBlank(line);
  }

  // ---------------------------------------------------------------------------
  // Hexadecimal digits

  predicate IsHexDigit(ch: char)
  {
    '0' <= ch <= '9' || 'a' <= ch <= 'f' || 'A' <= ch <= 'F'
  }

  predicate IsUpperHexDigit(ch: char)
  {
    '0' <= ch <= '9' || 'A' <= ch <= 'F'
  }

  /** The value of one hex digit, either case. */
  function DigitValue(ch: char): (d: nat)
    requires IsHexDigit(ch)
    ensures d < 16
  {
    if '0' <= ch <= '9' then ch as int - '0' as int
    else if 'a' <= ch <= 'f' then ch as int - 'a' as int + 10
    else ch as int - 'A' as int + 10
  }

  /** The uppercase digit that `{:X}` prints for d; `DigitValue` inverts it. */
  function UpperDigit(d: nat): (ch: char)
    requires d < 16
    ensures IsUpperHexDigit(ch) && IsHexDigit(ch) && DigitValue(ch) == d
  {
    if d < 10 then ('0' as int + d) as char else ('A' as int + d - 10) as char
  }

  /** Non-empty text made only of hex digits: what `int(text, 16)` accepts
      in this model. */
  predicate IsHexText(s: string)
  {
    |s| > 0 && forall i :: 0 <= i < |s| ==> IsHexDigit(s[i])
  }

  function Pow16(n: nat): (p: nat)
    ensures p >= 1
  {
    if n == 0 then 1 else 16 * Pow16(n - 1)
  }

  /** The unsigned value of a string of hex digits, most significant first. */
  function HexValue(s: string): (v: nat)
    requires forall i :: 0 <= i < |s| ==> IsHexDigit(s[i])
    ensures v < Pow16(|s|)
  {
    if s == [] then 0 else 16 * HexValue(s[..|s| - 1]) + DigitValue(s[|s| - 1])
  }

  /** Hex text of at most four digits is a 16-bit word, and so reads as a
      value in the signed 16-bit range. */
  lemma HexTextRange(text: string)
    ensures IsHexText(text) && |text| <= 4 ==> HexValue(text) < WORD && Q_MIN <= AsSigned16(HexValue(text)) <= Q_MAX
  {
    if IsHexText(text) && |text| <= 4 {
      Pow16Monotone(|text|, 4);
      assert Pow16(4) == WORD;
    }
  }

  lemma {:induction false} Pow16Monotone(m: nat, n: nat)
    requires m <= n
    ensures Pow16(m) <= Pow16(n)
    decreases n
  {
    if m < n {
      Pow16Monotone(m, n - 1);
    }
  }

  /** The value of four hex digits, written out. */
  lemma HexValueOfFour(s: string)
    requires |s| == 4 && IsHexText(s)
    ensures HexValue(s) == 0x1000 * DigitValue(s[0]) + 0x100 * DigitValue(s[1])
                           + 0x10 * DigitValue(s[2]) + DigitValue(s[3])
  {
    var s1, s2, s3 := s[..1], s[..2], s[..3];
    assert s1[..0] == [] && s2[..1] == s1 && s3[..2] == s2 && s[..3] == s3;
    assert HexValue(s1) == DigitValue(s[0]);
    assert HexValue(s2) == 16 * HexValue(s1) + DigitValue(s[1]);
    assert HexValue(s3) == 16 * HexValue(s2) + DigitValue(s[2]);
    assert HexValue(s) == 16 * HexValue(s3) + DigitValue(s[3]);
  }

  // ---------------------------------------------------------------------------
  // Reading

  /** `int(text, 16)` followed by the reinterpretation of bit 15 as the sign. */
  function ParseWord(text: string): (r: Result<int, FormatError>)
    ensures r.Ok? <==> IsHexText(text)
    ensures r.Err? ==> r.error == NotHex(text)
    ensures r.Ok? && |text| <= 4 ==> Q_MIN <= r.value <= Q_MAX
  {
    HexTextRange(text);
    if IsHexText(text) then Ok(AsSigned16(HexValue(text))) else Err(NotHex(text))
  }

  /** What one line contributes to the read: nothing (a blank or comment
      line), a value, or a failure. */
  datatype LineEffect = Skip | Value(v: int) | Bad(error: FormatError)

  function LineValue(line: string): (eff: LineEffect)
    ensures eff.Skip? <==> IsSkipped(line)
    ensures eff.Bad? ==> eff.error == NotHex(Strip(line))
    ensures eff.Value? ==> ParseWord(Strip(line)) == Ok(eff.v)
  {
    if IsSkipped(line) then Skip
    else
      match ParseWord(Strip(line))
      case Err(e) => Bad(e)
      case Ok(v) => Value(v)
  }

  /** Applies one line's effect to the values read so far. */
  function Apply(vals: seq<int>, eff: LineEffect): Result<seq<int>, FormatError>
  {
    match eff
    case Skip => Ok(vals)
    case Value(v) => Ok(vals + [v])
    case Bad(e) => Err(e)
  }

  /** One iteration of the read loop: a skipped line leaves the values as
      they are, any other line appends its value or fails the read. */
  function DecodeStep(acc: Result<seq<int>, FormatError>, line: string): (r: Result<seq<int>, FormatError>)
    ensures acc.Err? ==> r == acc
    ensures acc.Ok? && IsSkipped(line) ==> r == acc
    ensures acc.Ok? && r.Ok? ==> |acc.value| <= |r.value| <= |acc.value| + 1 && r.value[..|acc.value|] == acc.value
  {
    match acc
    case Err(e) => Err(e)
    case Ok(vals) => Apply(vals, LineValue(line))
  }

  /** The values of the lines in file order: skipped lines contribute nothing,
      and the first line that is not hexadecimal fails the whole read. */
  function DecodeLines(lines: seq<string>): (r: Result<seq<int>, FormatError>)
    ensures r.Ok? ==> |r.value| <= |lines|
  {
    if lines == [] then Ok([])
    else DecodeStep(DecodeLines(lines[..|lines| - 1]), lines[|lines| - 1])
  }

  /** Zero-pads `vals` or truncates it to exactly `count` values. */
  function FitToCount(vals: seq<int>, count: nat): (r: seq<int>)
    ensures |r| == count
    ensures forall i :: 0 <= i < count && i < |vals| ==> r[i] == vals[i]
    ensures forall i :: |vals| <= i < count ==> r[i] == 0
  {
    if |vals| < count then vals + seq(count - |vals|, _ => 0) else vals[..count]
  }

  /** What `read_hex_vector` returns for a file with these lines. */
  function ReadHex(lines: seq<string>, count: nat): (r: Result<seq<int>, FormatError>)
    ensures r.Ok? ==> |r.value| == count
  {
    match DecodeLines(lines)
    case Err(e) => Err(e)
    case Ok(vals) => Ok(FitToCount(vals, count))
  }

  /** `read_hex_vector`: the loop over the file's lines, then the padding and
      the truncation. */
  method ReadHexVector(lines: seq<string>, count: nat) returns (r: Result<seq<int>, FormatError>)
    ensures r == ReadHex(lines, count)
    ensures r.Ok? ==> |r.value| == count
  {
    var vals: seq<int> := [];
    var i := 0;
    while i < |lines|
      invariant 0 <= i <= |lines|
      invariant DecodeLines(lines[..i]) == Ok(vals)
    {
      var line := Strip(lines[i]);
      ReadLoopStep(lines, i, vals, line);
      if line == [] || line[0] == '#' {
        i := i + 1;
        continue;
      }
      if !IsHexText(line) {
        r := Err(NotHex(line));
        return;
      }
      var u := HexValue(line);
      var v: int := u;
      if (v / SIGN_BIT) % 2 == 1 {
        v := v - WORD;
      }
      assert v == AsSigned16(u);
      vals := vals + [v];
      i := i + 1;
    }
    assert lines[..i] == lines;
    ghost var parsed := vals;
    if |vals| < count {
      vals := vals + seq(count - |vals|, _ => 0);
    }
    r := Ok(vals[..count]);
    PadThenTruncate(parsed, count);
  }

  /** The padding and truncation of the read give `FitToCount`. */
  lemma PadThenTruncate(vals: seq<int>, count: nat)
    ensures (if |vals| < count then vals + seq(count - |vals|, _ => 0) else vals)[..count] == FitToCount(vals, count)
  {
  }

  /** What one iteration of the read loop does to the decoded prefix: a
      skipped line leaves it, a line that is not hex fails the whole file,
      and a hex line appends its signed value. */
  lemma ReadLoopStep(lines: seq<string>, i: nat, vals: seq<int>, line: string)
    requires i < |lines| && DecodeLines(lines[..i]) == Ok(vals) && line == Strip(lines[i])
    ensures line == [] || line[0] == '#' ==> DecodeLines(lines[..i + 1]) == Ok(vals)
    ensures line != [] && line[0] != '#' && !IsHexText(line) ==>
              DecodeLines(lines) == Err(NotHex(line))
    ensures line != [] && line[0] != '#' && IsHexText(line) ==>
              DecodeLines(lines[..i + 1]) == Ok(vals + [AsSigned16(HexValue(line))])
  {
    DecodePrefixStep(lines, i);
    if line != [] && line[0] != '#' && !IsHexText(line) {
      DecodeFailurePersists(lines, i + 1);
    }
  }

  /** Decoding one more line of a file is one more step of the read loop. */
  lemma DecodePrefixStep(lines: seq<string>, i: nat)
    requires i < |lines|
    ensures DecodeLines(lines[..i + 1]) == DecodeStep(DecodeLines(lines[..i]), lines[i])
  {
    assert lines[..i + 1][..i] == lines[..i];
  }

  /** Joins the results of decoding two consecutive parts of a file. */
  function Combine(a: Result<seq<int>, FormatError>, b: Result<seq<int>, FormatError>): Result<seq<int>, FormatError>
  {
    match a
    case Err(e) => Err(e)
    case Ok(va) =>
      match b
      case Err(e) => Err(e)
      case Ok(vb) => Ok(va + vb)
  }

  /** Decoding is compositional: the values of a file are those of its first
      part followed by those of its second, in order, and the first failure
      in file order is the one reported. */
  lemma {:induction false} DecodeConcat(a: seq<string>, b: seq<string>)
    ensures DecodeLines(a + b) == Combine(DecodeLines(a), DecodeLines(b))
    decreases |b|
  {
    if b == [] {
      assert a + b == a;
      match DecodeLines(a)
      case Err(e) =>
      case Ok(va) => assert va + [] == va;
    } else {
      var b' := b[..|b| - 1];
      var x := b[|b| - 1];
      assert (a + b)[..|a + b| - 1] == a + b';
      assert (a + b)[|a + b| - 1] == x;
      assert DecodeLines(a + b) == DecodeStep(DecodeLines(a + b'), x);
      DecodeConcat(a, b');
      StepAfterCombine(DecodeLines(a), DecodeLines(b'), x);
    }
  }

  /** One more read-loop step after a joined result is that step on the
      second part, then the join. */
  lemma StepAfterCombine(ra: Result<seq<int>, FormatError>, rb: Result<seq<int>, FormatError>, x: string)
    ensures DecodeStep(Combine(ra, rb), x) == Combine(ra, DecodeStep(rb, x))
  {
    if ra.Ok? && rb.Ok? {
      ApplyAfterJoin(ra.value, rb.value, LineValue(x));
    }
  }

  lemma ApplyAfterJoin(va: seq<int>, vb: seq<int>, eff: LineEffect)
    ensures Apply(va + vb, eff) == Combine(Ok(va), Apply(vb, eff))
  {
    if eff.Value? {
      assert va + (vb + [eff.v]) == (va + vb) + [eff.v];
    }
  }

  /** A line that holds at most four hex digits, or none. */
  predicate IsShortLine(line: string)
  {
    IsSkipped(line) || |Strip(line)| <= 4
  }

  /** When no line holds more than four digits, every value read lies in the
      signed 16-bit range. */
  lemma {:induction false} DecodeShortLinesInRange(lines: seq<string>)
    requires forall i :: 0 <= i < |lines| ==> IsShortLine(lines[i])
    ensures DecodeLines(lines).Ok? ==> AllRepresentable(DecodeLines(lines).value)
    decreases |lines|
  {
    if lines != [] {
      var init := lines[..|lines| - 1];
      var x := lines[|lines| - 1];
      assert forall i :: 0 <= i < |init| ==> init[i] == lines[i];
      DecodeShortLinesInRange(init);
      assert DecodeLines(lines) == DecodeStep(DecodeLines(init), x);
      if DecodeLines(init).Ok? {
        var eff := LineValue(x);
        assert IsShortLine(x);
        assert eff.Value? ==> Q_MIN <= eff.v <= Q_MAX;
        ApplyKeepsRange(DecodeLines(init).value, eff);
      }
    }
  }

  lemma ApplyKeepsRange(vals: seq<int>, eff: LineEffect)
    requires AllRepresentable(vals) && (eff.Value? ==> Q_MIN <= eff.v <= Q_MAX)
    ensures Apply(vals, eff).Ok? ==> AllRepresentable(Apply(vals, eff).value)
  {
  }

  /** The same for a whole read: the zero padding stays in range too. */
  lemma ReadShortLinesInRange(lines: seq<string>, count: nat)
    requires forall i :: 0 <= i < |lines| ==> IsShortLine(lines[i])
    ensures ReadHex(lines, count).Ok? ==> AllRepresentable(ReadHex(lines, count).value)
  {
    DecodeShortLinesInRange(lines);
  }

  /** A failure in the first n lines is the failure of the whole file. */
  lemma DecodeFailurePersists(lines: seq<string>, n: nat)
    requires n <= |lines| && DecodeLines(lines[..n]).Err?
    ensures DecodeLines(lines) == DecodeLines(lines[..n])
  {
    assert lines == lines[..n] + lines[n..];
    DecodeConcat(lines[..n], lines[n..]);
  }

  /** Blank and comment lines contribute nothing. */
  lemma {:induction false} DecodeSkippedOnly(b: seq<string>)
    requires forall i :: 0 <= i < |b| ==> IsSkipped(b[i])
    ensures DecodeLines(b) == Ok([])
    decreases |b|
  {
    if b != [] {
      DecodeSkippedOnly(b[..|b| - 1]);
    }
  }

  /** Inserting blank and comment lines anywhere leaves the values, and the
      failure, unchanged. */
  lemma DecodeIgnoresSkipped(a: seq<string>, b: seq<string>, c: seq<string>)
    requires forall i :: 0 <= i < |b| ==> IsSkipped(b[i])
    ensures DecodeLines(a + b + c) == DecodeLines(a + c)
  {
    DecodeSkippedOnly(b);
    DecodeConcat(a + b, c);
    DecodeConcat(a, b);
    DecodeConcat(a, c);
    match DecodeLines(a)
    case Err(e) =>
    case Ok(va) => assert va + [] == va;
  }

  /** A line of exactly four hex digits decodes to its value, minus 65536 when
      bit 15 is set; every such line gives a value in [Q_MIN, Q_MAX]. */
  lemma DecodeFourDigits(line: string)
    requires |line| == 4 && IsHexText(line)
    ensures !IsSkipped(line)
    ensures DecodeLines([line]) == Ok([if HexValue(line) >= SIGN_BIT then HexValue(line) - WORD else HexValue(line)])
    ensures Q_MIN <= (if HexValue(line) >= SIGN_BIT then HexValue(line) - WORD else HexValue(line)) <= Q_MAX
  {
    HexTextIsPlain(line);
    DecodeHexLine(line);
    FourDigitsAreWord(line);
    AsSigned16OfWord(HexValue(line));
  }

  /** Four hex digits hold a 16-bit word. */
  lemma FourDigitsAreWord(s: string)
    requires |s| == 4 && IsHexText(s)
    ensures HexValue(s) < WORD
  {
    assert Pow16(4) == WORD;
  }

  /** A line of hex text is one value. */
  lemma DecodeHexLine(line: string)
    requires IsHexText(line)
    ensures DecodeLines([line]) == Ok([AsSigned16(HexValue(line))])
  {
    HexTextIsPlain(line);
    var x := AsSigned16(HexValue(line));
    DecodeValueLine([], line, x);
    assert [] + [x] == [x];
    DecodeSingle(line);
  }

  /** A line that is neither blank nor a comment and parses appends its value. */
  lemma DecodeValueLine(vals: seq<int>, line: string, x: int)
    requires !IsSkipped(line) && ParseWord(Strip(line)) == Ok(x)
    ensures DecodeStep(Ok(vals), line) == Ok(vals + [x])
  {
  }

  /** A one-line file is one step of the read loop. */
  lemma DecodeSingle(line: string)
    ensures DecodeLines([line]) == DecodeStep(Ok([]), line)
  {
    assert [line][..0] == [];
  }

  /** Text with no white space at either end, and a newline after it, strips
      back to the text. */
  lemma StripPlain(h: string)
    requires h != [] && !IsSpace(h[0]) && !IsSpace(h[|h| - 1])
    ensures Strip(h) == h && Strip(h + "\n") == h
  {
    assert TrimLeft(h + "\n") == h + "\n";
    assert (h + "\n")[..|h|] == h;
  }

  /** Hex text strips to itself and is not a skipped line. */
  lemma HexTextIsPlain(h: string)
    requires IsHexText(h)
    ensures Strip(h) == h && !IsSkipped(h)
  {
    assert IsHexDigit(h[0]) && IsHexDigit(h[|h| - 1]);
    StripPlain(h);
  }

  /** Hex text followed by a newline strips to the text and is not a skipped
      line. */
  lemma HexLineIsPlain(h: string)
    requires IsHexText(h)
    ensures Strip(h + "\n") == h && !IsSkipped(h + "\n")
  {
    assert IsHexDigit(h[0]) && IsHexDigit(h[|h| - 1]);
    StripPlain(h);
  }

  // ---------------------------------------------------------------------------
  // Writing

  /** `f"{u:04X}"` for a 16-bit word: four uppercase digits, most significant
      first, whose value is u. */
  function Hex4(u: nat): (s: string)
    requires u < WORD
    ensures |s| == 4 && IsHexText(s)
    ensures forall i :: 0 <= i < 4 ==> IsUpperHexDigit(s[i])
    ensures HexValue(s) == u
  {
    var q1 := u / 16;
    var q2 := q1 / 16;
    var q3 := q2 / 16;
    assert u == 0x1000 * q3 + 0x100 * (q2 % 16) + 0x10 * (q1 % 16) + u % 16;
    var s := [UpperDigit(q3), UpperDigit(q2 % 16), UpperDigit(q1 % 16), UpperDigit(u % 16)];
    HexValueOfFour(s);
    s
  }

  /** One written line: the low 16 bits of v as four uppercase hex digits,
      then a newline. */
  function EncodeLine(v: int): (line: string)
    ensures |line| == 5 && line[4] == '\n'
    ensures forall i :: 0 <= i < 4 ==> IsUpperHexDigit(line[i])
    ensures IsHexText(line[..4]) && HexValue(line[..4]) == Mask16(v)
  {
    var h := Hex4(Mask16(v));
    assert (h + "\n")[..4] == h;
    h + "\n"
  }

  /** A written line is not skipped on reading, and it reads back as the value
      wrapped to 16 bits. */
  lemma ReadEncodedLine(vals: seq<int>, v: int)
    ensures !IsSkipped(EncodeLine(v))
    ensures DecodeStep(Ok(vals), EncodeLine(v)) == Ok(vals + [AsSigned16(Mask16(v))])
  {
    var h := Hex4(Mask16(v));
    HexLineIsPlain(h);
    assert EncodeLine(v) == h + "\n";
    assert ParseWord(h) == Ok(AsSigned16(Mask16(v)));
    DecodeValueLine(vals, EncodeLine(v), AsSigned16(Mask16(v)));
  }

  /** The lines `write_hex_vector` writes: one per value, in order. */
  function EncodeLines(values: seq<int>): (lines: seq<string>)
    ensures |lines| == |values|
  {
    seq(|values|, i requires 0 <= i < |values| => EncodeLine(values[i]))
  }

  /** `write_hex_vector`: the loop that writes one line per value. */
  method WriteHexVector(values: seq<int>) returns (lines: seq<string>)
    ensures lines == EncodeLines(values)
  {
    lines := [];
    for i := 0 to |values|
      invariant lines == EncodeLines(values[..i])
    {
      var v16 := values[i] % WORD;
      lines := lines + [Hex4(v16) + "\n"];
    }
    assert values[..|values|] == values;
  }

  /** The written lines of a non-empty vector are those of all but its last
      value, then one more step of the read loop. */
  lemma EncodeLinesSnoc(values: seq<int>)
    requires |values| > 0
    ensures DecodeLines(EncodeLines(values))
         == DecodeStep(DecodeLines(EncodeLines(values[..|values| - 1])), EncodeLine(values[|values| - 1]))
  {
    var lines := EncodeLines(values);
    assert lines[..|values| - 1] == EncodeLines(values[..|values| - 1]);
  }

  /** Each value wrapped to 16 bits: what a written value reads back as. */
  function WrapAll(values: seq<int>): (w: seq<int>)
    ensures |w| == |values|
    ensures forall i :: 0 <= i < |values| ==> Q_MIN <= w[i] <= Q_MAX
  {
    seq(|values|, i requires 0 <= i < |values| => AsSigned16(Mask16(values[i])))
  }

  lemma WrapAllSnoc(values: seq<int>)
    requires |values| > 0
    ensures WrapAll(values) == WrapAll(values[..|values| - 1]) + [AsSigned16(Mask16(values[|values| - 1]))]
  {
  }

  /** Reading back what was written gives every value wrapped to 16 bits,
      in order. */
  lemma {:induction false} WriteReadWraps(values: seq<int>)
    ensures DecodeLines(EncodeLines(values)) == Ok(WrapAll(values))
    decreases |values|
  {
    var n := |values|;
    if n > 0 {
      var prefix := values[..n - 1];
      WriteReadWraps(prefix);
      EncodeLinesSnoc(values);
      ReadEncodedLine(WrapAll(prefix), values[n - 1]);
      WrapAllSnoc(values);
    }
  }

  /** Writing and then reading with a matching count reproduces any sequence
      of representable values exactly. */
  lemma WriteReadRoundTrip(values: seq<int>)
    requires forall i :: 0 <= i < |values| ==> Q_MIN <= values[i] <= Q_MAX
    ensures DecodeLines(EncodeLines(values)) == Ok(values)
    ensures ReadHex(EncodeLines(values), |values|) == Ok(values)
  {
    WriteReadWraps(values);
    WrapAllIdentity(values);
    assert values[..|values|] == values;
  }

  /** Wrapping representable values changes nothing. */
  lemma WrapAllIdentity(values: seq<int>)
    requires forall i :: 0 <= i < |values| ==> Q_MIN <= values[i] <= Q_MAX
    ensures WrapAll(values) == values
  {
    forall i | 0 <= i < |values|
      ensures AsSigned16(Mask16(values[i])) == values[i]
    {
      SignedRoundTrip(values[i]);
    }
  }
}
