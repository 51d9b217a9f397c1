/**
 * The bitcode that carries one timestamp: 68 logical digits ("01", the 64
 * payload bits most significant first, "10"), each held for r consecutive
 * samples. Encode and Decode follow the encoder's and the decoder's steps;
 * the lemmas below describe what those steps achieve.
 */
module BitcodeSpec {
  import opened Bits

  /** Samples per logical digit. */
  const DIGIT_REPEATS: nat := 40
  /** Logical digits per bitcode: 64 payload digits and 4 framing digits. */
  const NUM_DIGITS: nat := 68
  const PAYLOAD_DIGITS: nat := NUM_DIGITS - 4
  /** Samples written per transfer. */
  const BITCODE_LENGTH: nat := NUM_DIGITS * DIGIT_REPEATS
  /** Samples read per transfer: the read trails the write by one sample. */
  const READ_ARRAY_LENGTH: nat := BITCODE_LENGTH + 1

  const START_MARKER: string := "01"
  const END_MARKER: string := "10"

  // ---------------------------------------------------------------- encoding

  function Frame(payload: seq<char>): seq<char> {
    START_MARKER + payload + END_MARKER
  }

  /** The logical digits sent for n: its binary text padded to 64 digits and framed. */
  function LogicalCode(n: uint64): seq<char> {
    Frame(PadLeft(Binary(n), PAYLOAD_DIGITS))
  }

  /** Every digit of s held for r consecutive positions. */
  function Expand(s: seq<char>, r: nat): (e: seq<char>)
    ensures |e| == |s| * r
  {
    if s == [] then []
    else
      var rest := Expand(s[1..], r);
      assert |rest| + r == |s| * r;
      Repeat(s[0], r) + rest
  }

  /** The sample written for a digit character: 0 for '0', 1 otherwise. */
  function SampleOf(c: char): uint8 {
    if c == '0' then 0 else 1
  }

  function ToSamples(s: seq<char>): (a: seq<uint8>)
    ensures |a| == |s|
  {
    seq(|s|, i requires 0 <= i < |s| => SampleOf(s[i]))
  }

  /** The samples written for n with r samples per digit. */
  function Encode(n: uint64, r: nat): seq<uint8> {
    ToSamples(Expand(LogicalCode(n), r))
  }

  /** Logical digit k of the bitcode for n, from its position alone. */
  function LogicalDigit(n: uint64, k: nat): uint8
    requires k < NUM_DIGITS
  {
    if k == 0 || k == NUM_DIGITS - 1 then 0
    else if k == 1 || k == NUM_DIGITS - 2 then 1
    else Bit(n, NUM_DIGITS - 3 - k)
  }

  // ---------------------------------------------------------------- decoding

  /** The character a read sample becomes: '0' for 0, '1' for anything else. */
  function CharOf(x: uint8): char {
    if x == 0 then '0' else '1'
  }

  function ToChars(a: seq<uint8>): (s: seq<char>)
    ensures |s| == |a|
  {
    seq(|a|, i requires 0 <= i < |a| => CharOf(a[i]))
  }

  /** s without its first i elements; empty when s is shorter than i. */
  function Suffix(s: seq<char>, i: nat): (t: seq<char>)
    ensures |t| == if i <= |s| then |s| - i else 0
  {
    if i <= |s| then s[i..] else []
  }

  /** The first element of each run of r elements of s (the last run may be shorter). */
  function FirstOfBlocks(s: seq<char>, r: nat): seq<char>
    requires r >= 1
    decreases |s|
  {
    if s == [] then [] else [s[0]] + FirstOfBlocks(Suffix(s, r), r)
  }

  /** The logical digits the decoder recovers: drop the leading sample, keep each block's first. */
  function LogicalDigits(read: seq<uint8>, r: nat): seq<char>
    requires r >= 1 && |read| >= 1
  {
    FirstOfBlocks(ToChars(read[1..]), r)
  }

  /** The timestamp decoded from a read-back: the value of the logical digits 2 to 65. */
  function Decode(read: seq<uint8>, r: nat): uint64
    requires r >= 1 && |read| == NUM_DIGITS * r + 1
  {
    var d := LogicalDigits(read, r);
    FirstOfBlocksLength(ToChars(read[1..]), r, NUM_DIGITS);
    ValueBound(d[2..|d| - 2]);
    Pow2Is64();
    Value(d[2..|d| - 2])
  }

  // ---------------------------------------------------------------- block arithmetic

  lemma BlockInRange(k: nat, m: nat, r: nat, j: nat)
    requires k < m && j < r
    ensures k * r + j < m * r
  {
    assert k * r + r == (k + 1) * r;
    assert (k + 1) * r <= m * r;
  }

  /** Sample j of block k and the first sample of block k2 are different positions unless they coincide. */
  lemma BlockPositionsDistinct(r: nat, k: nat, j: nat, k2: nat)
    requires j < r && (k != k2 || j > 0)
    ensures k * r + j != k2 * r
  {
    if k < k2 {
      BlockInRange(k, k2, r, j);
    } else if k > k2 {
      BlockInRange(k2, k, r, 0);
    }
  }

  // ---------------------------------------------------------------- Expand

  lemma {:induction false} ExpandAt(s: seq<char>, r: nat, k: nat, j: nat)
    requires k < |s| && j < r
    ensures k * r + j < |Expand(s, r)|
    ensures Expand(s, r)[k * r + j] == s[k]
  {
    BlockInRange(k, |s|, r, j);
    if k > 0 {
      ExpandAt(s[1..], r, k - 1, j);
      assert (k - 1) * r + j + r == k * r + j;
    }
  }

  lemma {:induction false} ExpandAppend(a: seq<char>, b: seq<char>, r: nat)
    ensures Expand(a + b, r) == Expand(a, r) + Expand(b, r)
  {
    if a != [] {
      assert (a + b)[0] == a[0] && (a + b)[1..] == a[1..] + b;
      ExpandAppend(a[1..], b, r);
      assert Expand(a + b, r) == Repeat(a[0], r) + Expand(a[1..] + b, r);
      assert Expand(a, r) == Repeat(a[0], r) + Expand(a[1..], r);
    } else {
      assert a + b == b;
    }
  }

  lemma {:induction false} ExpandBinary(s: seq<char>, r: nat)
    requires BinaryString(s)
    ensures BinaryString(Expand(s, r))
  {
    if s != [] {
      ExpandBinary(s[1..], r);
    }
  }

  // ---------------------------------------------------------------- FirstOfBlocks

  /** A sequence of m >= 1 blocks of r is one block longer than m - 1 blocks. */
  lemma OneMoreBlock(m: nat, r: nat)
    requires m >= 1
    ensures (m - 1) * r + r == m * r && r <= m * r
  {
  }

  /** The blocks from position i on: the element at i, then the blocks from i + r on. */
  lemma FirstOfBlocksFrom(s: seq<char>, r: nat, i: nat)
    requires r >= 1 && i < |s|
    ensures FirstOfBlocks(Suffix(s, i), r) == [s[i]] + FirstOfBlocks(Suffix(s, i + r), r)
  {
    assert Suffix(s[i..], r) == Suffix(s, i + r);
  }

  lemma {:induction false} FirstOfBlocksLength(s: seq<char>, r: nat, m: nat)
    requires r >= 1 && |s| == m * r
    ensures |FirstOfBlocks(s, r)| == m
  {
    if m > 0 {
      OneMoreBlock(m, r);
      FirstOfBlocksLength(s[r..], r, m - 1);
    }
  }

  lemma {:induction false} FirstOfBlocksAt(s: seq<char>, r: nat, m: nat, k: nat)
    requires r >= 1 && |s| == m * r && k < m
    ensures |FirstOfBlocks(s, r)| == m
    ensures k * r < |s| && FirstOfBlocks(s, r)[k] == s[k * r]
  {
    FirstOfBlocksLength(s, r, m);
    BlockInRange(k, m, r, 0);
    if k > 0 {
      OneMoreBlock(m, r);
      OneMoreBlock(k, r);
      FirstOfBlocksAt(s[r..], r, m - 1, k - 1);
    }
  }

  /** Keeping the first sample of every block undoes the expansion. */
  lemma {:induction false} FirstOfBlocksExpand(t: seq<char>, r: nat)
    requires r >= 1
    ensures FirstOfBlocks(Expand(t, r), r) == t
  {
    if t != [] {
      var e := Expand(t, r);
      assert e[r..] == Expand(t[1..], r);
      FirstOfBlocksExpand(t[1..], r);
    }
  }

  // ---------------------------------------------------------------- the logical code

  lemma LogicalCodePayload(n: uint64)
    ensures |LogicalCode(n)| == NUM_DIGITS
    ensures LogicalCode(n)[2..NUM_DIGITS - 2] == BitsOf(n, PAYLOAD_DIGITS)
    ensures BinaryString(LogicalCode(n))
  {
    Pow2Is64();
    PadBinary(n, PAYLOAD_DIGITS);
    var c := LogicalCode(n);
    assert c == "01" + BitsOf(n, PAYLOAD_DIGITS) + "10";
    assert c[2..NUM_DIGITS - 2] == BitsOf(n, PAYLOAD_DIGITS);
  }

  lemma LogicalCodeAt(n: uint64, k: nat)
    requires k < NUM_DIGITS
    ensures |LogicalCode(n)| == NUM_DIGITS
    ensures SampleOf(LogicalCode(n)[k]) == LogicalDigit(n, k)
  {
    LogicalCodePayload(n);
    var c := LogicalCode(n);
    if 2 <= k < NUM_DIGITS - 2 {
      assert c[k] == BitsOf(n, PAYLOAD_DIGITS)[k - 2];
      BitsOfAt(n, PAYLOAD_DIGITS, k - 2);
    }
  }

  /** n = 0 is framed all-zero payload. */
  lemma LogicalCodeZero()
    ensures LogicalCode(0) == "01" + Repeat('0', 64) + "10"
  {
  }

  /** The largest uint64_t is framed all-one payload. */
  lemma LogicalCodeMax()
    ensures LogicalCode(TWO_64 - 1) == "01" + Repeat('1', 64) + "10"
  {
    Pow2Is64();
    PadBinary(TWO_64 - 1, PAYLOAD_DIGITS);
    BitsOfAllOnes(PAYLOAD_DIGITS);
  }

  /** n = 5: 61 zero digits, then 101, inside the frame. */
  lemma LogicalCodeFive()
    ensures LogicalCode(5) == "01" + Repeat('0', 61) + "101" + "10"
  {
    assert Binary(5) == "101";
  }

  // ---------------------------------------------------------------- the encoder's output

  /** Exactly 68 * r samples, each 0 or 1. */
  lemma EncodeShape(n: uint64, r: nat)
    ensures |Encode(n, r)| == NUM_DIGITS * r
    ensures forall i :: 0 <= i < |Encode(n, r)| ==> Encode(n, r)[i] == 0 || Encode(n, r)[i] == 1
  {
    LogicalCodePayload(n);
  }

  /** Sample j of block k holds logical digit k. */
  lemma EncodeBlock(n: uint64, r: nat, k: nat, j: nat)
    requires k < NUM_DIGITS && j < r
    ensures |Encode(n, r)| == NUM_DIGITS * r && k * r + j < NUM_DIGITS * r
    ensures Encode(n, r)[k * r + j] == LogicalDigit(n, k)
  {
    LogicalCodeAt(n, k);
    ExpandAt(LogicalCode(n), r, k, j);
  }

  /** Blocks 0 and 67 are all 0, blocks 1 and 66 are all 1. */
  lemma EncodeFraming(n: uint64, r: nat, j: nat)
    requires j < r
    ensures |Encode(n, r)| == NUM_DIGITS * r && 67 * r + j < NUM_DIGITS * r
    ensures Encode(n, r)[j] == 0 && Encode(n, r)[r + j] == 1
    ensures Encode(n, r)[66 * r + j] == 1 && Encode(n, r)[67 * r + j] == 0
  {
    EncodeBlock(n, r, 0, j);
    EncodeBlock(n, r, 1, j);
    EncodeBlock(n, r, 66, j);
    EncodeBlock(n, r, 67, j);
  }

  /** The layout at the repeat factor the transmitter uses: sample i holds logical digit i / 40. */
  lemma EncodeLayout(n: uint64)
    ensures |Encode(n, DIGIT_REPEATS)| == BITCODE_LENGTH
    ensures forall i :: 0 <= i < 40 ==> Encode(n, DIGIT_REPEATS)[i] == 0
    ensures forall i :: 40 <= i < 80 ==> Encode(n, DIGIT_REPEATS)[i] == 1
    ensures forall i :: 80 <= i < 2640 ==> Encode(n, DIGIT_REPEATS)[i] == Bit(n, 65 - i / 40)
    ensures forall i :: 2640 <= i < 2680 ==> Encode(n, DIGIT_REPEATS)[i] == 1
    ensures forall i :: 2680 <= i < 2720 ==> Encode(n, DIGIT_REPEATS)[i] == 0
  {
    LogicalCodePayload(n);
    var e := Encode(n, DIGIT_REPEATS);
    forall i | 0 <= i < BITCODE_LENGTH
      ensures e[i] == LogicalDigit(n, i / 40)
    {
      EncodeBlock(n, DIGIT_REPEATS, i / 40, i % 40);
    }
  }

  // ---------------------------------------------------------------- the decoder

  /** Logical digit k of a read-back is decided by sample 1 + k*r alone. */
  lemma LogicalDigitsAt(read: seq<uint8>, r: nat, k: nat)
    requires r >= 1 && |read| == NUM_DIGITS * r + 1 && k < NUM_DIGITS
    ensures |LogicalDigits(read, r)| == NUM_DIGITS
    ensures 1 + k * r < |read| && LogicalDigits(read, r)[k] == CharOf(read[1 + k * r])
  {
    var s := ToChars(read[1..]);
    assert LogicalDigits(read, r) == FirstOfBlocks(s, r);
    FirstOfBlocksAt(s, r, NUM_DIGITS, k);
    var p := k * r;
    assert s[p] == CharOf(read[1..][p]) == CharOf(read[1 + p]);
  }

  /** The logical digits of any read-back are 68 '0'/'1' characters. */
  lemma LogicalDigitsBinary(read: seq<uint8>, r: nat)
    requires r >= 1 && |read| == NUM_DIGITS * r + 1
    ensures |LogicalDigits(read, r)| == NUM_DIGITS && BinaryString(LogicalDigits(read, r))
  {
    LogicalDigitsAt(read, r, 0);
    forall k | 0 <= k < NUM_DIGITS ensures IsDigit(LogicalDigits(read, r)[k]) {
      LogicalDigitsAt(read, r, k);
    }
  }

  /**
   * A transfer read back unchanged, behind any leading sample x, decodes
   * to the timestamp that was sent, for every repeat factor.
   */
  lemma RoundTrip(n: uint64, r: nat, x: uint8)
    requires r >= 1
    ensures |[x] + Encode(n, r)| == NUM_DIGITS * r + 1
    ensures Decode([x] + Encode(n, r), r) == n
  {
    var read := [x] + Encode(n, r);
    var c := LogicalCode(n);
    LogicalCodePayload(n);
    ExpandBinary(c, r);
    var e := Expand(c, r);
    assert read[1..] == ToSamples(e);
    assert ToChars(read[1..]) == e;
    FirstOfBlocksExpand(c, r);
    assert LogicalDigits(read, r) == c;
    Pow2Is64();
    ValueBitsOf(n, PAYLOAD_DIGITS);
  }

  /** The round trip at the transmitter's repeat factor and read length. */
  lemma RoundTripTransfer(n: uint64, x: uint8)
    ensures |[x] + Encode(n, DIGIT_REPEATS)| == READ_ARRAY_LENGTH
    ensures Decode([x] + Encode(n, DIGIT_REPEATS), DIGIT_REPEATS) == n
  {
    RoundTrip(n, DIGIT_REPEATS, x);
  }

  /**
   * Bit 65 - k of the decoded value is 0 exactly when sample 1 + k*r is 0:
   * any nonzero sample counts as 1, and the 64 payload blocks give the 64 bits.
   */
  lemma DecodeBits(read: seq<uint8>, r: nat, k: nat)
    requires r >= 1 && |read| == NUM_DIGITS * r + 1 && 2 <= k < NUM_DIGITS - 2
    ensures 1 + k * r < |read|
    ensures Bit(Decode(read, r), NUM_DIGITS - 3 - k) == if read[1 + k * r] == 0 then 0 else 1
  {
    var d := LogicalDigits(read, r);
    LogicalDigitsAt(read, r, k);
    var p := d[2..NUM_DIGITS - 2];
    forall i | 0 <= i < |p| ensures IsDigit(p[i]) {
      LogicalDigitsAt(read, r, i + 2);
    }
    BitsOfValue(p);
    BitsOfAt(Value(p), PAYLOAD_DIGITS, k - 2);
    assert p[k - 2] == d[k];
  }

  /** The decoder reads only the first sample of each payload block, and only whether it is 0. */
  lemma DecodeReadsOnly(a: seq<uint8>, b: seq<uint8>, r: nat)
    requires r >= 1 && |a| == |b| == NUM_DIGITS * r + 1
    requires forall k :: 2 <= k < NUM_DIGITS - 2 ==> (a[1 + k * r] == 0 <==> b[1 + k * r] == 0)
    ensures Decode(a, r) == Decode(b, r)
  {
    var da, db := LogicalDigits(a, r), LogicalDigits(b, r);
    LogicalDigitsAt(a, r, 0);
    LogicalDigitsAt(b, r, 0);
    forall k | 2 <= k < NUM_DIGITS - 2 ensures da[k] == db[k] {
      LogicalDigitsAt(a, r, k);
      LogicalDigitsAt(b, r, k);
    }
    assert da[2..NUM_DIGITS - 2] == db[2..NUM_DIGITS - 2];
  }

  /** Changing a sample that is not the first of a payload block leaves the decoded value as it was. */
  lemma DecodeIgnoresPosition(read: seq<uint8>, r: nat, p: nat, x: uint8)
    requires r >= 1 && |read| == NUM_DIGITS * r + 1 && p < |read|
    requires forall k :: 2 <= k < NUM_DIGITS - 2 ==> p != 1 + k * r
    ensures Decode(read[p := x], r) == Decode(read, r)
  {
    DecodeReadsOnly(read[p := x], read, r);
  }

  /**
   * The leading sample is ignored: the read takes it before the write
   * starts, since the read trails the write by one sample.
   */
  lemma DecodeIgnoresLeading(read: seq<uint8>, r: nat, x: uint8)
    requires r >= 1 && |read| == NUM_DIGITS * r + 1
    ensures Decode(read[0 := x], r) == Decode(read, r)
  {
    DecodeIgnoresPosition(read, r, 0, x);
  }

  /** Changing any sample of a framing block, or any sample but the first of a block, is ignored. */
  lemma DecodeIgnoresSample(read: seq<uint8>, r: nat, k: nat, j: nat, x: uint8)
    requires r >= 1 && |read| == NUM_DIGITS * r + 1
    requires k < NUM_DIGITS && j < r
    requires k < 2 || k >= NUM_DIGITS - 2 || j > 0
    ensures 1 + k * r + j < |read|
    ensures Decode(read[1 + k * r + j := x], r) == Decode(read, r)
  {
    BlockInRange(k, NUM_DIGITS, r, j);
    var p := 1 + k * r + j;
    forall k2 | 2 <= k2 < NUM_DIGITS - 2 ensures p != 1 + k2 * r {
      BlockPositionsDistinct(r, k, j, k2);
    }
    DecodeIgnoresPosition(read, r, p, x);
  }

  /**
   * With r > 1 the first-sample policy masks a glitch in any later sample
   * of a block of a clean read-back ...
   */
  lemma LaterSampleGlitchMasked(n: uint64, r: nat, x: uint8, k: nat, j: nat, y: uint8)
    requires r >= 1 && k < NUM_DIGITS && 0 < j < r
    ensures |Encode(n, r)| == NUM_DIGITS * r && 1 + k * r + j < NUM_DIGITS * r + 1
    ensures Decode(([x] + Encode(n, r))[1 + k * r + j := y], r) == n
  {
    RoundTrip(n, r, x);
    BlockInRange(k, NUM_DIGITS, r, j);
    DecodeIgnoresSample([x] + Encode(n, r), r, k, j, y);
  }

  /** ... and reveals, as a wrong value, a glitch in the first sample of a payload block. */
  lemma FirstSampleGlitchRevealed(n: uint64, r: nat, x: uint8, k: nat, y: uint8)
    requires r >= 1 && 2 <= k < NUM_DIGITS - 2
    requires (y == 0) != (Bit(n, NUM_DIGITS - 3 - k) == 0)
    ensures |Encode(n, r)| == NUM_DIGITS * r && 1 + k * r < NUM_DIGITS * r + 1
    ensures Decode(([x] + Encode(n, r))[1 + k * r := y], r) != n
  {
    EncodeShape(n, r);
    BlockInRange(k, NUM_DIGITS, r, 0);
    var read := ([x] + Encode(n, r))[1 + k * r := y];
    DecodeBits(read, r, k);
  }

  // ---------------------------------------------------------------- at DIGIT_REPEATS

  /** On a transfer's read-back, bit 65 - k of the decoded value is 0 exactly when sample 1 + 40*k is 0. */
  lemma TransferDecodeBits(read: seq<uint8>, k: nat)
    requires |read| == READ_ARRAY_LENGTH && 2 <= k < 66
    ensures 1 + 40 * k < |read|
    ensures Bit(Decode(read, DIGIT_REPEATS), 65 - k) == if read[1 + 40 * k] == 0 then 0 else 1
  {
    DecodeBits(read, DIGIT_REPEATS, k);
  }

  /** Two read-backs of a transfer that agree on whether samples 1 + 40*k, k in 2..65, are zero decode alike. */
  lemma TransferReadsOnly(a: seq<uint8>, b: seq<uint8>)
    requires |a| == |b| == READ_ARRAY_LENGTH
    requires forall k :: 2 <= k < 66 ==> (a[1 + 40 * k] == 0 <==> b[1 + 40 * k] == 0)
    ensures Decode(a, DIGIT_REPEATS) == Decode(b, DIGIT_REPEATS)
  {
    forall k | 2 <= k < NUM_DIGITS - 2
      ensures a[1 + k * DIGIT_REPEATS] == 0 <==> b[1 + k * DIGIT_REPEATS] == 0
    {
      assert k * DIGIT_REPEATS == 40 * k;
    }
    DecodeReadsOnly(a, b, DIGIT_REPEATS);
  }

  /**
   * The framing is never checked: samples 1..80 hold the start marker and
   * 2641..2720 the end marker, and changing any of them, or the leading
   * sample 0, leaves the decoded value as it was.
   */
  lemma TransferIgnoresFraming(read: seq<uint8>, p: nat, x: uint8)
    requires |read| == READ_ARRAY_LENGTH
    requires p <= 80 || 2641 <= p < READ_ARRAY_LENGTH
    ensures Decode(read[p := x], DIGIT_REPEATS) == Decode(read, DIGIT_REPEATS)
  {
    DecodeIgnoresPosition(read, DIGIT_REPEATS, p, x);
  }

  /** Only the first of the 40 samples of a digit is read: changing sample 1 + 40*k + j with 0 < j < 40 is ignored. */
  lemma TransferIgnoresLaterSamples(read: seq<uint8>, k: nat, j: nat, x: uint8)
    requires |read| == READ_ARRAY_LENGTH && k < NUM_DIGITS && 0 < j < 40
    ensures 1 + 40 * k + j < |read|
    ensures Decode(read[1 + 40 * k + j := x], DIGIT_REPEATS) == Decode(read, DIGIT_REPEATS)
  {
    DecodeIgnoresSample(read, DIGIT_REPEATS, k, j, x);
  }

  /**
   * On a loopback read-back of n, a glitch in any of the 39 later samples of
   * a digit still decodes to n, and one in the first sample of a payload
   * digit that flips it decodes to another value.
   */
  lemma TransferGlitches(n: uint64, x: uint8, k: nat, j: nat, y: uint8)
    requires k < NUM_DIGITS && j < 40
    ensures |[x] + Encode(n, DIGIT_REPEATS)| == READ_ARRAY_LENGTH && 1 + 40 * k + j < READ_ARRAY_LENGTH
    ensures j > 0 ==> Decode(([x] + Encode(n, DIGIT_REPEATS))[1 + 40 * k + j := y], DIGIT_REPEATS) == n
    ensures j == 0 && 2 <= k < 66 && (y == 0) != (Bit(n, 65 - k) == 0) ==>
      Decode(([x] + Encode(n, DIGIT_REPEATS))[1 + 40 * k := y], DIGIT_REPEATS) != n
  {
    EncodeShape(n, DIGIT_REPEATS);
    if j > 0 {
      LaterSampleGlitchMasked(n, DIGIT_REPEATS, x, k, j, y);
    } else if 2 <= k < 66 && (y == 0) != (Bit(n, 65 - k) == 0) {
      FirstSampleGlitchRevealed(n, DIGIT_REPEATS, x, k, y);
    }
  }

  lemma {:induction false} BitOfZero(i: nat)
    ensures Bit(0, i) == 0
  {
    if i > 0 {
      BitOfZero(i - 1);
    }
  }

  /** The first sample of every payload block of the encoding of 0 is 0. */
  lemma ZeroPayloadSample(k: nat)
    requires 2 <= k < 66
    ensures |Encode(0, DIGIT_REPEATS)| == BITCODE_LENGTH && 40 * k < BITCODE_LENGTH
    ensures Encode(0, DIGIT_REPEATS)[40 * k] == 0
  {
    EncodeBlock(0, DIGIT_REPEATS, k, 0);
    BitOfZero(65 - k);
  }

  /** A read-back in which every sample is 0, as from a line that stays LOW, decodes to 0. */
  lemma SilentLineDecodesZero(read: seq<uint8>)
    requires |read| == READ_ARRAY_LENGTH
    requires forall i :: 0 <= i < |read| ==> read[i] == 0
    ensures Decode(read, DIGIT_REPEATS) == 0
  {
    var e := Encode(0, DIGIT_REPEATS);
    var clean := [0] + e;
    forall k | 2 <= k < 66 ensures read[1 + 40 * k] == 0 <==> clean[1 + 40 * k] == 0 {
      ZeroPayloadSample(k);
      assert clean[1 + 40 * k] == e[40 * k];
    }
    TransferReadsOnly(read, clean);
    RoundTripTransfer(0, 0);
  }
}
