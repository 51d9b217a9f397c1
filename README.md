# Bitcode timestamp transmitter, modelled in Dafny

The transmitter sends 64-bit timestamps over a digital line as a *bitcode* and reads each one back to check it.
- A bitcode is 68 logical digits: `01`, then the 64 bits of the timestamp, most significant first and zero-padded on the left, then `10`.
- Each digit is held for `DIGIT_REPEATS` = 40 samples, so one transfer writes `BITCODE_LENGTH` = 2720 samples.
- The read task trails the write task by one sample, so it reads `READ_ARRAY_LENGTH` = 2721 samples.
- The decoder drops the leading sample and keeps the first sample of every 40-sample block. It ignores the two framing digits at each end and folds the middle 64 digits into a `uint64_t`.
- A sender loop polls a shared timestamp cell. Whenever the cell differs from the last value sent, it runs one transfer:
  1. marker line HIGH;
  2. a clocked write of the bitcode on one digital line, started by the start trigger of a clocked read on a second line;
  3. both clocked tasks stopped;
  4. marker line LOW;
  5. the read-back decoded and compared with the value sent.

  A failure line is printed when the two differ.

The project has four modules.
- `Bits` (`bits.dfy`) holds machine integers, powers of two and big-endian digit strings:
  - `Binary(n)` is the shortest binary text of `n`;
  - `BitsOf(n, w)` is the `w` lowest bits of `n`;
  - `Value(s)` is the value of a digit string.
- `BitcodeSpec` (`bitcode_spec.dfy`) defines the bitcode as functions: `LogicalCode`, `Expand`, `Encode` for the encoder and `LogicalDigits`, `Decode` for the decoder.
  - These functions take the repeat factor `r >= 1` as a parameter.
  - The transmitter uses `r` = 40. At that value the layout (`EncodeLayout`), the round trip (`RoundTripTransfer`) and the samples the decoder reads are also stated on the positions 1 + 40*k of a 2721-sample read-back: `TransferDecodeBits`, `TransferReadsOnly`, `TransferIgnoresFraming`, `TransferIgnoresLaterSamples`, `TransferGlitches` and `SilentLineDecodesZero`.
  - The lemmas state framing, layout, the round trip and which samples the decoder reads.
- `Bitcode` (`bitcode.dfy`) holds the three conversion routines as methods over strings and `uInt8` arrays.
  - They have the source's loops.
  - Each is proved to compute a specification function: `ConvertIntToBinary` computes `Bits.Binary` and `PadToPayload` computes `Bits.PadLeft`. `RepeatDigits` computes `BitcodeSpec.Expand`, `ConvertIntToBitcode` computes `BitcodeSpec.Encode` and `ConvertReadArrayToInt` computes `BitcodeSpec.Decode`.
- `Transmitter` (`transmitter.dfy`) covers one transfer and the sender loop.
  - Driver calls are recorded as a trace of `Event`s.
  - `TransferTrace` is the events of one transfer. For one transfer, what the read line samples while the write line plays the bitcode is a `Wiring` parameter, a function from the samples written to the samples read.
  - For the sender, the line is a `Line`, a function of the transfer's number and the samples written. Two transfers of the same value can therefore read back differently (`ReadBackVariesPerTransfer`).
  - The shared cell is a sequence of `Poll`s. Each `Poll` holds the keep-sending flag and the two values one pass of the loop reads from the cell. The loop reads the cell once to compare it with the last value sent and once more to capture the value it sends.
  - `SentValues` is the poll rule: the values a run of passes sends. `Transfers` is the events of one transfer per value sent, in order.
  - A value is never sent twice in a row only when the two reads of each pass agree (`NoRepeatWhenReadsAgree`). If the cell changes between the two reads, any value can be sent twice in a row: from 0, the passes (5, 3) and (4, 3) send 3 and then 3 again (`CellRevertingBetweenReadsResendsPrevious`).

`convertReadArrayToInt` never checks the framing digits 0, 1, 66 and 67, so any framing decodes (`BitcodeSpec.DecodeIgnoresSample`, `BitcodeSpec.TransferIgnoresFraming`). The comment at `send_timestamp_as_bitcode/bitcode.cpp:121-122` says the first and last samples are skipped. The code skips only entry 0 (`BitcodeSpec.DecodeIgnoresLeading`).

## Model

| member | source | states |
|---|---|---|
| Bits.BinaryValue | send_timestamp_as_bitcode/bitcode.cpp:53-62 | the binary text of n consists of '0'/'1' digits and has value n; it is empty exactly when n is 0 and starts with '1' when n > 0 |
| Bits.BinaryShortest | send_timestamp_as_bitcode/bitcode.cpp:53-62 | no digit string with value n is shorter than the binary text of n |
| Bits.BinaryLength | send_timestamp_as_bitcode/bitcode.cpp:53-62 | for n > 0 the binary text has k digits with 2^(k-1) <= n < 2^k |
| Bits.ValueBound | send_timestamp_as_bitcode/bitcode.cpp:147-153 | a digit string of length k has value below 2^k, so 64 digits always fit in a uint64_t |
| Bits.PadBinary | send_timestamp_as_bitcode/bitcode.cpp:80-84 | left-padding the binary text of n < 2^w with '0' to w digits yields exactly the w lowest bits of n |
| Bits.ValueBitsOf | send_timestamp_as_bitcode/bitcode.cpp:147-153 | folding the w lowest bits of n < 2^w most significant first gives back n |
| Bits.BitsOfValue | send_timestamp_as_bitcode/bitcode.cpp:147-153 | any '0'/'1' string of length w is the w lowest bits of its own value |
| Bitcode.ConvertIntToBinary | send_timestamp_as_bitcode/bitcode.cpp:53-62 | the loop that prepends n % 2 and halves n returns the shortest binary text of n, a '0'/'1' string of value n with at most 64 digits |
| Bitcode.PadToPayload | send_timestamp_as_bitcode/bitcode.cpp:80-84 | prepending '0' while shorter than 64 digits yields the text left-padded to 64 digits (unchanged if already that long) |
| Bitcode.RepeatDigits | send_timestamp_as_bitcode/bitcode.cpp:89-97 | the nested loop yields every digit of the bitcode held for 40 consecutive positions |
| Bitcode.ConvertIntToBitcode | send_timestamp_as_bitcode/bitcode.cpp:75-111 | the first 2720 entries of writeArray become the encoding of n at 40 samples per digit; later entries are unchanged; bitcodeLength has no effect |
| BitcodeSpec.LogicalCodePayload | send_timestamp_as_bitcode/bitcode.cpp:80-87 | the framed code of any uint64_t has 68 '0'/'1' digits and digits 2..65 are the 64 bits of n, most significant first |
| BitcodeSpec.LogicalCodeAt | send_timestamp_as_bitcode/bitcode.cpp:80-87 | logical digit k is 0 at k = 0 and 67, 1 at k = 1 and 66, and bit 65 - k of n otherwise |
| BitcodeSpec.LogicalCodeZero | send_timestamp_as_bitcode/bitcode.cpp:80-87 | n = 0 is framed as "01", 64 zeros, "10" |
| BitcodeSpec.LogicalCodeMax | send_timestamp_as_bitcode/bitcode.cpp:80-87 | n = 2^64 - 1 is framed as "01", 64 ones, "10" |
| BitcodeSpec.LogicalCodeFive | send_timestamp_as_bitcode/bitcode.cpp:80-87 | n = 5 is framed as "01", 61 zeros, "101", "10" |
| BitcodeSpec.ExpandAt | send_timestamp_as_bitcode/bitcode.cpp:89-97 | position k*r + j of the expansion (j < r) holds digit k |
| BitcodeSpec.ExpandAppend | send_timestamp_as_bitcode/bitcode.cpp:89-97 | expanding a concatenation is concatenating the expansions, so digits can be expanded one after another |
| BitcodeSpec.EncodeShape | send_timestamp_as_bitcode/bitcode.cpp:99-110 | the encoder writes exactly 68 * r samples, each 0 or 1 |
| BitcodeSpec.EncodeBlock | send_timestamp_as_bitcode/bitcode.cpp:86-110 | every sample of block k holds logical digit k |
| BitcodeSpec.EncodeFraming | send_timestamp_as_bitcode/bitcode.cpp:86-110 | blocks 0 and 67 are all 0 and blocks 1 and 66 all 1, for every repeat factor |
| BitcodeSpec.EncodeLayout | send_timestamp_as_bitcode/bitcode.cpp:86-110 | at 40 samples per digit: samples 0..39 are 0, 40..79 are 1, sample i in 80..2639 is bit 65 - i/40 of n, 2640..2679 are 1, 2680..2719 are 0 |
| Bitcode.ReadArrayToChars | send_timestamp_as_bitcode/bitcode.cpp:123-134 | entries 1..2720 become characters, '0' for a 0 sample and '1' for any other value |
| Bitcode.TakeEveryRepeat | send_timestamp_as_bitcode/bitcode.cpp:136-141 | stepping by 40 keeps exactly the first character of each 40-character block |
| Bitcode.AccumulateStep | send_timestamp_as_bitcode/bitcode.cpp:150 | one step of the fold doubles the value and adds the digit, and the value stays below 2^64 |
| Bitcode.AccumulateDigits | send_timestamp_as_bitcode/bitcode.cpp:147-153 | folding characters 2..65 of a 68-digit string gives their big-endian value, with no uint64_t wrap-around |
| BitcodeSpec.FirstOfBlocksLength | send_timestamp_as_bitcode/bitcode.cpp:136-141 | m full blocks give m characters |
| BitcodeSpec.FirstOfBlocksAt | send_timestamp_as_bitcode/bitcode.cpp:136-141 | character k kept is the one at position k*r |
| BitcodeSpec.FirstOfBlocksFrom | send_timestamp_as_bitcode/bitcode.cpp:138-141 | one step of the loop: the blocks from position i on are the character at i followed by the blocks from i + r on |
| BitcodeSpec.FirstOfBlocksExpand | send_timestamp_as_bitcode/bitcode.cpp:136-141 | keeping the first of every r characters undoes the expansion by r |
| BitcodeSpec.LogicalDigitsAt | send_timestamp_as_bitcode/bitcode.cpp:123-141 | a read-back of 68*r + 1 samples gives 68 logical digits, digit k decided by sample 1 + k*r alone |
| BitcodeSpec.LogicalDigitsBinary | send_timestamp_as_bitcode/bitcode.cpp:123-141 | whatever the samples, the decoder's logical digits are 68 '0'/'1' characters |
| Bitcode.ConvertReadArrayToInt | send_timestamp_as_bitcode/bitcode.cpp:119-154 | the result is the decoded read-back: the value of logical digits 2..65; the uint64_t accumulation never wraps |
| BitcodeSpec.RoundTrip | send_timestamp_as_bitcode/bitcode.cpp:119-154 | for every uint64_t n, repeat factor r >= 1 and leading sample x, decoding x followed by the encoding of n gives n |
| BitcodeSpec.RoundTripTransfer | send_timestamp_as_bitcode/bitcode.cpp:194-203 | the round trip at 40 samples per digit, where the read-back has READ_ARRAY_LENGTH samples, one more than written |
| BitcodeSpec.DecodeBits | send_timestamp_as_bitcode/bitcode.cpp:124-151 | bit 65 - k of the decoded value is 0 exactly when sample 1 + k*r is 0; any nonzero sample counts as 1 |
| BitcodeSpec.DecodeReadsOnly | send_timestamp_as_bitcode/bitcode.cpp:124-151 | two read-backs that agree on whether samples 1 + k*r (k in 2..65) are zero decode to the same value |
| BitcodeSpec.DecodeIgnoresPosition | send_timestamp_as_bitcode/bitcode.cpp:124-151 | changing any sample other than the 64 payload-block first samples leaves the result unchanged |
| BitcodeSpec.DecodeIgnoresLeading | send_timestamp_as_bitcode/bitcode.cpp:124 | the leading read-back sample is ignored |
| BitcodeSpec.DecodeIgnoresSample | send_timestamp_as_bitcode/bitcode.cpp:136-151 | changing any sample of a framing block, or any but the first sample of a block, leaves the result unchanged; framing is never checked |
| BitcodeSpec.LaterSampleGlitchMasked | send_timestamp_as_bitcode/bitcode.cpp:136-141 | a clean read-back with one later sample of any block corrupted still decodes to n |
| BitcodeSpec.FirstSampleGlitchRevealed | send_timestamp_as_bitcode/bitcode.cpp:136-141 | flipping the first sample of a payload block of a clean read-back makes it decode to a value other than n |
| BitcodeSpec.TransferDecodeBits | send_timestamp_as_bitcode/bitcode.cpp:124-151 | on a 2721-sample read-back, bit 65 - k of the decoded value is 0 exactly when sample 1 + 40*k is 0, for k in 2..65 |
| BitcodeSpec.TransferReadsOnly | send_timestamp_as_bitcode/bitcode.cpp:124-151 | two 2721-sample read-backs that agree on whether samples 1 + 40*k (k in 2..65) are zero decode to the same value |
| BitcodeSpec.TransferIgnoresFraming | send_timestamp_as_bitcode/bitcode.cpp:121-151 | changing sample 0, any of the start-marker samples 1..80 or any of the end-marker samples 2641..2720 leaves the decoded value unchanged |
| BitcodeSpec.TransferIgnoresLaterSamples | send_timestamp_as_bitcode/bitcode.cpp:136-141 | changing sample 1 + 40*k + j with 0 < j < 40 leaves the decoded value unchanged |
| BitcodeSpec.TransferGlitches | send_timestamp_as_bitcode/bitcode.cpp:136-151 | on a loopback read-back of n, a glitch in a later sample of any digit still decodes to n, and a flip of the first sample of a payload digit decodes to a value other than n |
| BitcodeSpec.SilentLineDecodesZero | send_timestamp_as_bitcode/bitcode.cpp:124-151 | a read-back in which every sample is 0 decodes to 0 |
| Transmitter.SendTimestampAsBitcodePulse | send_timestamp_as_bitcode/bitcode.cpp:168-236 | one transfer returns the decoded read-back; its events are marker HIGH, the clocked write of the encoding, the clocked read, both stops, marker LOW, the one-sample read; a failure line for tsIn is emitted iff tsIn differs from the result; every hardware step happens with the marker HIGH and the marker ends LOW |
| Transmitter.TransferFailures | send_timestamp_as_bitcode/bitcode.cpp:229-233 | a transfer's only possible failure line names the value sent, and it appears exactly when the decoded value differs |
| Transmitter.TransferDiscipline | send_timestamp_as_bitcode/bitcode.cpp:181-215 | whatever the marker level before a transfer, its hardware steps happen with the marker HIGH and it ends LOW |
| Transmitter.TransferBracketed | send_timestamp_as_bitcode/bitcode.cpp:181-215 | in one transfer the marker goes HIGH before the clocked write and read and both stops, and goes LOW only after them |
| Transmitter.LoopbackTransferMatches | send_timestamp_as_bitcode/bitcode.cpp:194-233 | when the line reads back the samples written, one sample late, the transfer decodes tsIn and prints no failure line |
| Transmitter.ReceiveSamples | send_timestamp_as_bitcode/bitcode.cpp:201-203 | the read buffer holds exactly the samples the line returned |
| Transmitter.TransmitOnChange | send_timestamp_as_bitcode/bitcode.cpp:290-310 | the polling loop sends exactly the values of the poll rule, starting from the cell's initial value, and its trace is one transfer per value sent, in order |
| Transmitter.BitcodeSender | send_timestamp_as_bitcode/bitcode.cpp:276-310 | the sender sends exactly those values; its trace is the set-up marker write and read followed by one transfer per value sent; every hardware step happens with the marker HIGH and the run ends with it LOW, so the flag is never acted on mid-transfer |
| Transmitter.SentValuesStep | send_timestamp_as_bitcode/bitcode.cpp:293-308 | a pass with the flag set sends its second read of the cell exactly when its first read differs from the last value sent, that value becomes the last value sent, and otherwise nothing is sent |
| Transmitter.TransfersSnoc | send_timestamp_as_bitcode/bitcode.cpp:296-299 | sending one more value appends exactly that value's transfer to the trace |
| Transmitter.TraceStep | send_timestamp_as_bitcode/bitcode.cpp:296-299 | appending the events of the transfer just made extends the trace to the transfers of the values sent, that one included |
| Transmitter.TransfersBracketed | send_timestamp_as_bitcode/bitcode.cpp:293-310 | any run of transfers keeps every hardware step inside a HIGH marker and ends with the marker LOW |
| Transmitter.SenderBracketed | send_timestamp_as_bitcode/bitcode.cpp:280-310 | the sender's whole trace, set-up included, keeps every hardware step inside a HIGH marker and ends with the marker LOW, whatever the line's level before it |
| Transmitter.SentAreCaptured | send_timestamp_as_bitcode/bitcode.cpp:293-308 | at most one value is sent per pass and every value sent was read from the cell |
| Transmitter.StopFlagEndsSending | send_timestamp_as_bitcode/bitcode.cpp:293 | passes after the first one that finds the flag cleared have no effect on what is sent |
| Transmitter.NoRepeatWhenReadsAgree | send_timestamp_as_bitcode/bitcode.cpp:290-308 | when both reads of each pass agree, the first value sent differs from the initial value and no value is sent twice in a row |
| Transmitter.MonotoneCellSendsIncreasing | send_timestamp_as_bitcode/bitcode.cpp:290-308 | under a non-decreasing cell the values sent strictly increase from the initial value, so none is sent twice |
| Transmitter.CellRevertingBetweenReadsResendsPrevious | send_timestamp_as_bitcode/bitcode.cpp:296-298 | the cell is read twice per pass: if it is 5 at the comparison and 0 again at the capture, the initial value 0 is sent; and from 0, passes reading (5, 3) and then (4, 3) send 3 twice in a row |
| Transmitter.ReadBackVariesPerTransfer | send_timestamp_as_bitcode/bitcode.cpp:201-233 | the line is consulted afresh in every transfer: the same value sent twice reads back cleanly first, and over a line that then stays LOW the second transfer reports a failure |
| Transmitter.LoopbackLength | send_timestamp_as_bitcode/bitcode.cpp:200-203 | a line that in every transfer reads back what was written, behind one leading sample, returns READ_ARRAY_LENGTH samples for every bitcode, one more than written |
| Transmitter.LoopbackSenderReportsNoFailure | send_timestamp_as_bitcode/bitcode.cpp:227-233 | on a read-back-what-was-written line, no transfer of the sender emits a failure line |

## Left out

- NI-DAQmx driver calls and `handleError` (send_timestamp_as_bitcode/bitcode.cpp:23-31, 252-283): these are foreign calls. Task creation and channel and clock configuration are not modelled. Writes, reads and stops appear only as trace events, and driver status codes are not modelled: the source logs them and carries on.
- Transmitter.SendTimestampAsBitcodePulse: the electrical behaviour of the line is the `Wiring` parameter. The round trip holds only when the wiring reads back what was written, one sample late.
- Transmitter.BitcodeSender: the line over a run is the `Line` parameter, fixed in advance as a function of the transfer's number and the samples written. It does not depend on anything else the run does.
- `getCPUClockTimeUS` (send_timestamp_as_bitcode/bitcode.cpp:38-45): a clock read whose results are unused. Its calls at lines 183 and 301 are not modelled.
- `std::this_thread::sleep_for` (send_timestamp_as_bitcode/bitcode.cpp:309): scheduling only.
- The `std::atomic` cell, the keep-sending flag and the thread (send_timestamp_as_bitcode/bitcode.cpp:16, 246): concurrency. The producer's writes appear only as the values in each `Poll`, not as interleaved atomic operations.
- Transmitter.BitcodeSender: the loop is modelled over a finite sequence of passes. A sender whose flag is never cleared does not terminate, and its behaviour is the limit of these finite prefixes.
- `SAMPLE_RATE` and `DIGIT_SAMPLE_HZ` (send_timestamp_as_bitcode/bitcode.cpp:10, 12): used only to configure the hardware clock.
- `send_timestamp_as_bitcode/send_timestamp_as_bitcode.cpp`: the process entry point, which starts the thread and writes clock timestamps into the cell. It calls `bitcodeSender` with no argument, which does not match the signature at bitcode.cpp:246. It is not part of this model.
- `camera_pulse/` and `tone/`: counter-output configuration, console waits, floating-point sine generation and plotting through the driver. There is no transmitter logic in them, so they are not part of this model.
- Bitcode.ConvertReadArrayToInt: `n * 2 + binary[i] - '0'` is uint64_t arithmetic. It is modelled as one reduction modulo 2^64 per step, which is proved never to wrap. Characters other than '0' and '1' cannot occur there, so the character subtraction is exact.
