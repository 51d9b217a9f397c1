/**
 * The encoder and the decoder as the transmitter runs them: strings of
 * '0'/'1' characters built in loops, and uInt8 sample buffers, at the fixed
 * repeat factor DIGIT_REPEATS. Each loop of the source is a method here,
 * proved to compute the corresponding function of BitcodeSpec.
 */
module Bitcode {
  import opened Bits
  import opened BitcodeSpec

  // ---------------------------------------------------------------- encoder

  /** The binary text of n, built by prepending the lowest digit and halving until n is 0. */
  method ConvertIntToBinary(n: uint64) returns (result: string)
    ensures result == Binary(n)
    ensures BinaryString(result) && Value(result) == n && |result| <= PAYLOAD_DIGITS
  {
    result := "";
    var m := n;
    while m != 0
      invariant Binary(m) + result == Binary(n)
      decreases m
    {
      result := (if m % 2 == 0 then "0" else "1") + result;
      m := m / 2;
    }
    BinaryValue(n);
    Pow2Is64();
    BinaryFits(n, PAYLOAD_DIGITS);
  }

  /** Prepends '0' until the text has at least NUM_DIGITS - 4 digits. */
  method PadToPayload(binary: string) returns (padded: string)
    ensures padded == PadLeft(binary, PAYLOAD_DIGITS)
  {
    padded := binary;
    while |padded| < NUM_DIGITS - 4
      invariant PadLeft(padded, PAYLOAD_DIGITS) == PadLeft(binary, PAYLOAD_DIGITS)
      decreases PAYLOAD_DIGITS - |padded|
    {
      PadLeftStep(padded, PAYLOAD_DIGITS);
      padded := "0" + padded;
    }
  }

  /** Appends every digit of bitcode DIGIT_REPEATS times. */
  method RepeatDigits(bitcode: string) returns (expanded: string)
    ensures expanded == Expand(bitcode, DIGIT_REPEATS)
  {
    expanded := "";
    for i := 0 to |bitcode|
      invariant expanded == Expand(bitcode[..i], DIGIT_REPEATS)
    {
      for j := 0 to DIGIT_REPEATS
        invariant expanded == Expand(bitcode[..i], DIGIT_REPEATS) + Repeat(bitcode[i], j)
      {
        assert Repeat(bitcode[i], j) + [bitcode[i]] == Repeat(bitcode[i], j + 1);
        expanded := expanded + [bitcode[i]];
      }
      ExpandAppend(bitcode[..i], [bitcode[i]], DIGIT_REPEATS);
      assert bitcode[..i + 1] == bitcode[..i] + [bitcode[i]];
    }
    assert bitcode[..|bitcode|] == bitcode;
  }

  /**
   * Writes the bitcode of n into the first BITCODE_LENGTH entries of
   * writeArray: the binary text padded to 64 digits, framed with "01" and
   * "10", every digit repeated DIGIT_REPEATS times, 0 stored for '0' and 1
   * otherwise. bitcodeLength is not used; the entries after BITCODE_LENGTH
   * are left alone.
   */
  method ConvertIntToBitcode(n: uint64, bitcodeLength: int, writeArray: array<uint8>)
    requires writeArray.Length >= BITCODE_LENGTH
    modifies writeArray
    ensures writeArray[..BITCODE_LENGTH] == Encode(n, DIGIT_REPEATS)
    ensures writeArray[BITCODE_LENGTH..] == old(writeArray[BITCODE_LENGTH..])
  {
    var binary := ConvertIntToBinary(n);
    binary := PadToPayload(binary);
    var bitcode := START_MARKER + binary + END_MARKER;
    assert bitcode == LogicalCode(n);
    var expanded := RepeatDigits(bitcode);
    LogicalCodePayload(n);

    for i := 0 to |expanded|
      invariant forall k :: 0 <= k < i ==> writeArray[k] == SampleOf(expanded[k])
      invariant forall k :: |expanded| <= k < writeArray.Length ==> writeArray[k] == old(writeArray[k])
    {
      if expanded[i] == '0' {
        writeArray[i] := 0;
      } else {
        writeArray[i] := 1;
      }
    }
    assert writeArray[..BITCODE_LENGTH] == ToSamples(expanded);
  }

  // ---------------------------------------------------------------- decoder

  /** Entries 1 to READ_ARRAY_LENGTH - 1 as characters: '0' for 0, '1' for anything else. */
  method ReadArrayToChars(readArray: array<uint8>) returns (expanded: string)
    requires readArray.Length >= READ_ARRAY_LENGTH
    ensures expanded == ToChars(readArray[1..READ_ARRAY_LENGTH])
  {
    expanded := "";
    for i := 1 to READ_ARRAY_LENGTH
      invariant expanded == ToChars(readArray[1..i])
    {
      if readArray[i] == 0 {
        expanded := expanded + "0";
      } else {
        expanded := expanded + "1";
      }
      assert readArray[1..i + 1] == readArray[1..i] + [readArray[i]];
    }
  }

  /** The characters at positions 0, DIGIT_REPEATS, 2 * DIGIT_REPEATS, ... */
  method TakeEveryRepeat(expanded: string) returns (binary: string)
    ensures binary == FirstOfBlocks(expanded, DIGIT_REPEATS)
  {
    binary := "";
    var i := 0;
    while i < |expanded|
      invariant 0 <= i
      invariant binary + FirstOfBlocks(Suffix(expanded, i), DIGIT_REPEATS) == FirstOfBlocks(expanded, DIGIT_REPEATS)
      decreases |expanded| - i
    {
      FirstOfBlocksFrom(expanded, DIGIT_REPEATS, i);
      binary := binary + [expanded[i]];
      i := i + DIGIT_REPEATS;
    }
    assert expanded[0..] == expanded;
  }

  /** One more digit: the value doubles and gains the digit, and stays below 2^64. */
  lemma AccumulateStep(binary: string, k: nat)
    requires |binary| == NUM_DIGITS && BinaryString(binary) && 2 <= k < |binary| - 2
    ensures Value(binary[2..k + 1]) == 2 * Value(binary[2..k]) + (binary[k] as int - '0' as int)
    ensures Value(binary[2..k + 1]) < TWO_64
  {
    assert binary[2..k + 1][..k - 2] == binary[2..k];
    assert IsDigit(binary[k]);
    ValueBound(binary[2..k + 1]);
    Pow2Monotone(k - 1, 64);
    Pow2Is64();
  }

  /**
   * Folds the characters 2 to |binary| - 3 into n as n * 2 + digit, in
   * uint64_t arithmetic; with 68 characters that is 64 digits, so nothing
   * is lost to wrap-around.
   */
  method AccumulateDigits(binary: string) returns (n: uint64)
    requires |binary| == NUM_DIGITS && BinaryString(binary)
    ensures n == Value(binary[2..|binary| - 2])
  {
    // n * 2 + digit is computed modulo 2^64
    n := 0;
    var k := 2;
    while k < |binary| - 2
      invariant 2 <= k <= |binary| - 2
      invariant n == Value(binary[2..k])
    {
      AccumulateStep(binary, k);
      n := (n * 2 + binary[k] as int - '0' as int) % TWO_64;
      k := k + 1;
    }
  }

  /**
   * The timestamp in a read-back buffer: skip entry 0, read the entries as
   * characters, keep every DIGIT_REPEATS-th one, and fold the characters 2
   * to 65 into n. The framing characters are not checked.
   */
  method ConvertReadArrayToInt(readArray: array<uint8>) returns (n: uint64)
    requires readArray.Length >= READ_ARRAY_LENGTH
    ensures n == Decode(readArray[..READ_ARRAY_LENGTH], DIGIT_REPEATS)
  {
    var expanded := ReadArrayToChars(readArray);
    var binary := TakeEveryRepeat(expanded);
    ghost var read := readArray[..READ_ARRAY_LENGTH];
    assert read[1..] == readArray[1..READ_ARRAY_LENGTH];
    assert binary == LogicalDigits(read, DIGIT_REPEATS);
    LogicalDigitsBinary(read, DIGIT_REPEATS);
    n := AccumulateDigits(binary);
  }
}
