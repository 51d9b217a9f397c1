/**
 * One transfer (marker HIGH, clocked write and read, stop, marker LOW,
 * decode and compare) and the sender loop that starts a transfer whenever
 * the shared timestamp has changed. Driver calls are recorded as events of
 * a trace; what the read line samples while the write line plays a bitcode
 * is a function from the samples written to the samples read.
 */
module Transmitter {
  import opened Bits
  import opened BitcodeSpec
  import opened Bitcode

  /** The sender's four driver tasks: clocked write and read, one-sample write and read. */
  datatype Task = WriteHw | ReadHw | WriteSw | ReadSw

  datatype Event =
    | WriteImmediate(task: Task, level: uint8)      // one software-timed sample
    | ReadImmediate(task: Task)                     // one software-timed sample, value unused
    | WriteClocked(task: Task, samples: seq<uint8>) // armed; starts with the clocked read
    | ReadClocked(task: Task, samples: seq<uint8>)  // the samples the read returned
    | Stop(task: Task)
    | FailureLine(ts: uint64)                       // "Failure for timestamp: ts" on standard output

  /** What the read line samples while the write line plays the given samples. */
  type Wiring = seq<uint8> -> seq<uint8>

  /**
   * The line over a whole run: what the read line samples during the
   * transfer with the given number (0 for the first) while the write line
   * plays the given samples, so two transfers of one value may read back
   * differently.
   */
  type Line = (nat, seq<uint8>) -> seq<uint8>

  /** Every transfer's clocked read returns READ_ARRAY_LENGTH samples. */
  ghost predicate FullReads(line: Line) {
    forall k: nat, v: uint64 :: |line(k, Encode(v, DIGIT_REPEATS))| == READ_ARRAY_LENGTH
  }

  /** The wiring of transfer number k. */
  function During(line: Line, k: nat): Wiring {
    w => line(k, w)
  }

  const HIGH: uint8 := 1
  const LOW: uint8 := 0

  predicate IsHardware(e: Event) {
    e.WriteClocked? || e.ReadClocked? || e.Stop?
  }

  predicate IsMarkerWrite(e: Event) {
    e.WriteImmediate? && e.task == WriteSw
  }

  /** The level of the marker line (the WriteSw task) after t, from level before it. */
  function MarkerLevel(level: uint8, t: seq<Event>): uint8 {
    if t == [] then level
    else if IsMarkerWrite(t[|t| - 1]) then t[|t| - 1].level
    else MarkerLevel(level, t[..|t| - 1])
  }

  /** Every hardware-timed step of t happens while the marker line is HIGH. */
  predicate Bracketed(level: uint8, t: seq<Event>) {
    forall i :: 0 <= i < |t| && IsHardware(t[i]) ==> MarkerLevel(level, t[..i]) == HIGH
  }

  /**
   * Whatever the marker level before t, every hardware-timed step of t
   * happens with the marker HIGH and the marker is LOW after t.
   */
  predicate MarkerDiscipline(t: seq<Event>) {
    forall level: uint8 :: Bracketed(level, t) && MarkerLevel(level, t) == LOW
  }

  // ---------------------------------------------------------------- trace algebra

  lemma {:induction false} MarkerLevelAppend(level: uint8, a: seq<Event>, b: seq<Event>)
    ensures MarkerLevel(level, a + b) == MarkerLevel(MarkerLevel(level, a), b)
  {
    if b == [] {
      assert a + b == a;
    } else {
      assert (a + b)[..|a + b| - 1] == a + b[..|b| - 1];
      MarkerLevelAppend(level, a, b[..|b| - 1]);
    }
  }

  lemma {:induction false} MarkerLevelUnwritten(level: uint8, t: seq<Event>)
    requires forall i :: 0 <= i < |t| ==> !IsMarkerWrite(t[i])
    ensures MarkerLevel(level, t) == level
  {
    if t != [] {
      MarkerLevelUnwritten(level, t[..|t| - 1]);
    }
  }

  /** Steps that never write the marker are bracketed once the marker is HIGH. */
  lemma UnwrittenBracketed(t: seq<Event>)
    requires forall i :: 0 <= i < |t| ==> !IsMarkerWrite(t[i])
    ensures Bracketed(HIGH, t)
  {
    forall i | 0 <= i < |t| && IsHardware(t[i]) ensures MarkerLevel(HIGH, t[..i]) == HIGH {
      MarkerLevelUnwritten(HIGH, t[..i]);
    }
  }

  lemma BracketedAppend(level: uint8, a: seq<Event>, b: seq<Event>)
    requires Bracketed(level, a) && Bracketed(MarkerLevel(level, a), b)
    ensures Bracketed(level, a + b)
  {
    var t := a + b;
    forall i | 0 <= i < |t| && IsHardware(t[i]) ensures MarkerLevel(level, t[..i]) == HIGH {
      if i < |a| {
        assert t[..i] == a[..i];
      } else {
        assert t[..i] == a + b[..i - |a|];
        MarkerLevelAppend(level, a, b[..i - |a|]);
      }
    }
  }

  // ---------------------------------------------------------------- one transfer

  /** The events of one transfer of tsIn whose clocked read returned readBack and decoded to tsOut. */
  function TransferTrace(tsIn: uint64, readBack: seq<uint8>, tsOut: uint64): seq<Event> {
    [ WriteImmediate(WriteSw, HIGH),
      WriteClocked(WriteHw, Encode(tsIn, DIGIT_REPEATS)),
      ReadClocked(ReadHw, readBack),
      Stop(WriteHw),
      Stop(ReadHw),
      WriteImmediate(WriteSw, LOW),
      ReadImmediate(ReadSw) ]
    + (if tsIn != tsOut then [FailureLine(tsIn)] else [])
  }

  /** A transfer prints one failure line, for the value it sent, exactly when the value decoded differs. */
  lemma TransferFailures(tsIn: uint64, readBack: seq<uint8>, tsOut: uint64)
    ensures FailureLine(tsIn) in TransferTrace(tsIn, readBack, tsOut) <==> tsIn != tsOut
    ensures forall e :: e in TransferTrace(tsIn, readBack, tsOut) && e.FailureLine? ==> e == FailureLine(tsIn) && tsIn != tsOut
  {
    var t := TransferTrace(tsIn, readBack, tsOut);
    forall e | e in t && e.FailureLine? ensures e == FailureLine(tsIn) && tsIn != tsOut {
      var i :| 0 <= i < |t| && t[i] == e;
    }
    if tsIn != tsOut {
      assert t[7] == FailureLine(tsIn);
    }
  }

  /** In a transfer the marker is raised before, and lowered after, every hardware-timed step. */
  lemma TransferBracketed(tsIn: uint64, readBack: seq<uint8>, tsOut: uint64, level: uint8)
    ensures Bracketed(level, TransferTrace(tsIn, readBack, tsOut))
    ensures MarkerLevel(level, TransferTrace(tsIn, readBack, tsOut)) == LOW
  {
    var raise := [WriteImmediate(WriteSw, HIGH)];
    var hardware := [WriteClocked(WriteHw, Encode(tsIn, DIGIT_REPEATS)), ReadClocked(ReadHw, readBack), Stop(WriteHw), Stop(ReadHw)];
    var lower := [WriteImmediate(WriteSw, LOW)];
    var rest := [ReadImmediate(ReadSw)] + (if tsIn != tsOut then [FailureLine(tsIn)] else []);
    assert TransferTrace(tsIn, readBack, tsOut) == raise + (hardware + (lower + rest));

    assert MarkerLevel(level, raise) == HIGH;
    UnwrittenBracketed(hardware);
    MarkerLevelUnwritten(HIGH, hardware);
    assert MarkerLevel(HIGH, lower) == LOW;
    MarkerLevelUnwritten(LOW, rest);

    BracketedAppend(HIGH, lower, rest);
    BracketedAppend(HIGH, hardware, lower + rest);
    BracketedAppend(level, raise, hardware + (lower + rest));
    MarkerLevelAppend(HIGH, lower, rest);
    MarkerLevelAppend(HIGH, hardware, lower + rest);
    MarkerLevelAppend(level, raise, hardware + (lower + rest));
  }

  lemma TransferDiscipline(tsIn: uint64, readBack: seq<uint8>, tsOut: uint64)
    ensures MarkerDiscipline(TransferTrace(tsIn, readBack, tsOut))
  {
    forall level: uint8 ensures
      Bracketed(level, TransferTrace(tsIn, readBack, tsOut)) && MarkerLevel(level, TransferTrace(tsIn, readBack, tsOut)) == LOW
    {
      TransferBracketed(tsIn, readBack, tsOut, level);
    }
  }

  /** The clocked read: the driver fills buf with the samples the line returned. */
  method ReceiveSamples(buf: array<uint8>, samples: seq<uint8>)
    requires |samples| == buf.Length
    modifies buf
    ensures buf[..] == samples
  {
    forall i | 0 <= i < buf.Length {
      buf[i] := samples[i];
    }
  }

  /**
   * One transfer of tsIn: marker HIGH, the bitcode written and read back on
   * the clocked tasks, both tasks stopped, marker LOW, then the read-back
   * decoded and compared with tsIn; a failure line is printed when they differ.
   */
  method SendTimestampAsBitcodePulse(tsIn: uint64, wiring: Wiring) returns (tsOut: uint64, trace: seq<Event>)
    requires |wiring(Encode(tsIn, DIGIT_REPEATS))| == READ_ARRAY_LENGTH
    ensures tsOut == Decode(wiring(Encode(tsIn, DIGIT_REPEATS)), DIGIT_REPEATS)
    ensures trace == TransferTrace(tsIn, wiring(Encode(tsIn, DIGIT_REPEATS)), tsOut)
    ensures FailureLine(tsIn) in trace <==> tsIn != tsOut
    ensures MarkerDiscipline(trace)
  {
    trace := [WriteImmediate(WriteSw, HIGH)];

    var writeArray := new uint8[BITCODE_LENGTH];
    ConvertIntToBitcode(tsIn, BITCODE_LENGTH, writeArray);
    var written := writeArray[..];
    assert written == Encode(tsIn, DIGIT_REPEATS) by {
      assert written == writeArray[..BITCODE_LENGTH];
    }
    trace := trace + [WriteClocked(WriteHw, written)];

    var readArray := new uint8[READ_ARRAY_LENGTH];
    var samples := wiring(written);
    ReceiveSamples(readArray, samples);
    trace := trace + [ReadClocked(ReadHw, samples)];

    trace := trace + [Stop(WriteHw), Stop(ReadHw)];
    trace := trace + [WriteImmediate(WriteSw, LOW), ReadImmediate(ReadSw)];

    assert readArray[..READ_ARRAY_LENGTH] == samples;
    assert trace == [WriteImmediate(WriteSw, HIGH), WriteClocked(WriteHw, written), ReadClocked(ReadHw, samples),
                     Stop(WriteHw), Stop(ReadHw), WriteImmediate(WriteSw, LOW), ReadImmediate(ReadSw)];
    tsOut := ConvertReadArrayToInt(readArray);
    if tsIn != tsOut {
      trace := trace + [FailureLine(tsIn)];
    }
    assert trace == TransferTrace(tsIn, samples, tsOut);
    TransferFailures(tsIn, samples, tsOut);
    TransferDiscipline(tsIn, samples, tsOut);
  }

  /** On a line that reads back what was written, one sample late, a transfer reports no failure. */
  lemma LoopbackTransferMatches(tsIn: uint64, x: uint8)
    ensures |[x] + Encode(tsIn, DIGIT_REPEATS)| == READ_ARRAY_LENGTH
    ensures Decode([x] + Encode(tsIn, DIGIT_REPEATS), DIGIT_REPEATS) == tsIn
    ensures
      var readBack := [x] + Encode(tsIn, DIGIT_REPEATS);
      FailureLine(tsIn) !in TransferTrace(tsIn, readBack, Decode(readBack, DIGIT_REPEATS))
  {
    RoundTripTransfer(tsIn, x);
  }

  // ---------------------------------------------------------------- the sender loop

  /**
   * What one pass of the sender loop observes: the keep-sending flag, the
   * shared cell when compared with the last value sent, and the cell when
   * read again to be sent (used only when the first read differed).
   */
  datatype Poll = Poll(keepSending: bool, polled: uint64, captured: uint64)

  /** The values the sender transmits, in order, when the last value sent (or the initial one) is prev. */
  function SentValues(prev: uint64, polls: seq<Poll>): seq<uint64>
    decreases |polls|
  {
    if polls == [] || !polls[0].keepSending then []
    else if polls[0].polled != prev then [polls[0].captured] + SentValues(polls[0].captured, polls[1..])
    else SentValues(prev, polls[1..])
  }

  /** The events of the transfers of the values sent, one after the other. */
  function Transfers(sent: seq<uint64>, line: Line): seq<Event>
    requires FullReads(line)
  {
    if sent == [] then []
    else
      var v := sent[|sent| - 1];
      var readBack := line(|sent| - 1, Encode(v, DIGIT_REPEATS));
      Transfers(sent[..|sent| - 1], line) + TransferTrace(v, readBack, Decode(readBack, DIGIT_REPEATS))
  }

  /** Sending one more value appends its transfer, whose read-back is the line's for that transfer's number. */
  lemma TransfersSnoc(sent: seq<uint64>, v: uint64, line: Line)
    requires FullReads(line)
    ensures
      var readBack := line(|sent|, Encode(v, DIGIT_REPEATS));
      Transfers(sent + [v], line) == Transfers(sent, line) + TransferTrace(v, readBack, Decode(readBack, DIGIT_REPEATS))
  {
    assert (sent + [v])[..|sent|] == sent;
  }

  /** Appending the transfer of one more value gives the transfers of the values sent so far and that one. */
  lemma TraceStep(sent: seq<uint64>, v: uint64, transfer: seq<Event>, line: Line)
    requires FullReads(line)
    requires
      var readBack := line(|sent|, Encode(v, DIGIT_REPEATS));
      transfer == TransferTrace(v, readBack, Decode(readBack, DIGIT_REPEATS))
    ensures Transfers(sent, line) + transfer == Transfers(sent + [v], line)
  {
    TransfersSnoc(sent, v, line);
  }

  /**
   * One pass of the loop with the flag set keeps what is still to be sent
   * in step: a pass whose first read differs from prev sends its second
   * read, which becomes prev; any other pass sends nothing.
   */
  lemma SentValuesStep(prev: uint64, polls: seq<Poll>, i: nat, sent: seq<uint64>, all: seq<uint64>)
    requires i < |polls| && polls[i].keepSending
    requires sent + SentValues(prev, polls[i..]) == all
    ensures polls[i].polled != prev ==> (sent + [polls[i].captured]) + SentValues(polls[i].captured, polls[i + 1..]) == all
    ensures polls[i].polled == prev ==> sent + SentValues(prev, polls[i + 1..]) == all
  {
    assert polls[i..][1..] == polls[i + 1..];
  }

  /** The sender's set-up: marker LOW and one read of the marker's partner line. */
  const SET_UP: seq<Event> := [WriteImmediate(WriteSw, LOW), ReadImmediate(ReadSw)]

  lemma {:induction false} TransfersBracketed(sent: seq<uint64>, line: Line, level: uint8)
    requires FullReads(line)
    ensures Bracketed(level, Transfers(sent, line))
    ensures MarkerLevel(level, Transfers(sent, line)) == if sent == [] then level else LOW
  {
    if sent != [] {
      var prefix := sent[..|sent| - 1];
      var v := sent[|sent| - 1];
      var readBack := line(|sent| - 1, Encode(v, DIGIT_REPEATS));
      var last := TransferTrace(v, readBack, Decode(readBack, DIGIT_REPEATS));
      TransfersBracketed(prefix, line, level);
      TransferBracketed(v, readBack, Decode(readBack, DIGIT_REPEATS), MarkerLevel(level, Transfers(prefix, line)));
      BracketedAppend(level, Transfers(prefix, line), last);
      MarkerLevelAppend(level, Transfers(prefix, line), last);
    }
  }

  /**
   * The whole trace of the sender leaves the marker LOW and has every
   * hardware-timed step inside a HIGH marker: the keep-sending flag is
   * never acted on in the middle of a transfer.
   */
  lemma SenderBracketed(sent: seq<uint64>, line: Line)
    requires FullReads(line)
    ensures MarkerDiscipline(SET_UP + Transfers(sent, line))
  {
    var t := Transfers(sent, line);
    assert SET_UP[..1] == [WriteImmediate(WriteSw, LOW)];
    TransfersBracketed(sent, line, LOW);
    forall level: uint8 ensures Bracketed(level, SET_UP + t) && MarkerLevel(level, SET_UP + t) == LOW {
      assert MarkerLevel(level, SET_UP) == LOW;
      BracketedAppend(level, SET_UP, t);
      MarkerLevelAppend(level, SET_UP, t);
    }
  }

  /**
   * The polling loop: tsPrev starts as the cell's value; while the flag is
   * set, a pass whose read of the cell differs from tsPrev reads the cell
   * again, transmits that value and makes it tsPrev.
   */
  method TransmitOnChange(initial: uint64, polls: seq<Poll>, line: Line) returns (sent: seq<uint64>, trace: seq<Event>)
    requires FullReads(line)
    ensures sent == SentValues(initial, polls)
    ensures trace == Transfers(sent, line)
  {
    trace := [];
    sent := [];
    var tsPrev := initial;
    var i := 0;
    while i < |polls| && polls[i].keepSending
      invariant 0 <= i <= |polls|
      invariant sent + SentValues(tsPrev, polls[i..]) == SentValues(initial, polls)
      invariant trace == Transfers(sent, line)
    {
      SentValuesStep(tsPrev, polls, i, sent, SentValues(initial, polls));
      if polls[i].polled != tsPrev {
        var tsIn := polls[i].captured;
        var tsOut, transfer := SendTimestampAsBitcodePulse(tsIn, During(line, |sent|));
        TraceStep(sent, tsIn, transfer, line);
        trace := trace + transfer;
        sent := sent + [tsIn];
        tsPrev := tsIn;
      }
      i := i + 1;
    }
  }

  /**
   * The sender: marker LOW and one read of its partner line, then the
   * polling loop. Every hardware-timed step of the whole run happens with
   * the marker HIGH and the run ends with it LOW, so the keep-sending flag
   * is never acted on in the middle of a transfer.
   */
  method BitcodeSender(initial: uint64, polls: seq<Poll>, line: Line) returns (sent: seq<uint64>, trace: seq<Event>)
    requires FullReads(line)
    ensures sent == SentValues(initial, polls)
    ensures trace == SET_UP + Transfers(sent, line)
    ensures MarkerDiscipline(trace)
  {
    trace := SET_UP;
    var transfers;
    sent, transfers := TransmitOnChange(initial, polls, line);
    trace := trace + transfers;
    SenderBracketed(sent, line);
  }

  // ---------------------------------------------------------------- what the sender sends

  /** Each value that is sent differs from the one sent before it, and the first from the initial value. */
  predicate ChangesEachTime(prev: uint64, s: seq<uint64>) {
    (|s| > 0 ==> s[0] != prev) && forall j :: 0 < j < |s| ==> s[j] != s[j - 1]
  }

  predicate StrictlyIncreasing(prev: uint64, s: seq<uint64>) {
    (|s| > 0 ==> prev < s[0]) && forall j :: 0 < j < |s| ==> s[j - 1] < s[j]
  }

  /** No write to the cell lands between the two reads of any pass. */
  predicate ReadsAgree(polls: seq<Poll>) {
    forall i :: 0 <= i < |polls| ==> polls[i].captured == polls[i].polled
  }

  /** The cell never decreases, as when the producer publishes a monotonic clock. */
  predicate MonotoneCell(prev: uint64, polls: seq<Poll>) {
    (|polls| > 0 ==> prev <= polls[0].polled) &&
    (forall i :: 0 <= i < |polls| ==> polls[i].polled <= polls[i].captured) &&
    (forall i :: 0 < i < |polls| ==> polls[i - 1].captured <= polls[i].polled)
  }

  function Captured(polls: seq<Poll>): set<uint64> {
    set i | 0 <= i < |polls| :: polls[i].captured
  }

  /** Only values read from the cell are sent, at most one per pass. */
  lemma {:induction false} SentAreCaptured(prev: uint64, polls: seq<Poll>)
    ensures |SentValues(prev, polls)| <= |polls|
    ensures forall v :: v in SentValues(prev, polls) ==> v in Captured(polls)
    decreases |polls|
  {
    if polls != [] && polls[0].keepSending {
      var next := if polls[0].polled != prev then polls[0].captured else prev;
      SentAreCaptured(next, polls[1..]);
      forall v | v in Captured(polls[1..]) ensures v in Captured(polls) {
        var i :| 0 <= i < |polls[1..]| && polls[1..][i].captured == v;
        assert polls[i + 1].captured == v;
      }
      assert polls[0].captured in Captured(polls);
    }
  }

  /** Passes after the first one that finds the flag cleared are never run. */
  lemma {:induction false} StopFlagEndsSending(prev: uint64, polls: seq<Poll>, i: nat)
    requires i < |polls| && !polls[i].keepSending
    ensures SentValues(prev, polls) == SentValues(prev, polls[..i])
    decreases |polls|
  {
    if i > 0 && polls[0].keepSending {
      var next := if polls[0].polled != prev then polls[0].captured else prev;
      StopFlagEndsSending(next, polls[1..], i - 1);
      assert polls[..i][1..] == polls[1..][..i - 1];
    }
  }

  /** When both reads of every pass agree, a value is never sent twice in a row, and the initial value never first. */
  lemma {:induction false} NoRepeatWhenReadsAgree(prev: uint64, polls: seq<Poll>)
    requires ReadsAgree(polls)
    ensures ChangesEachTime(prev, SentValues(prev, polls))
    decreases |polls|
  {
    if polls != [] && polls[0].keepSending {
      assert ReadsAgree(polls[1..]);
      if polls[0].polled != prev {
        NoRepeatWhenReadsAgree(polls[0].captured, polls[1..]);
      } else {
        NoRepeatWhenReadsAgree(prev, polls[1..]);
      }
    }
  }

  /** Under a non-decreasing cell the values sent strictly increase from the initial value, so none is sent twice. */
  lemma {:induction false} MonotoneCellSendsIncreasing(prev: uint64, polls: seq<Poll>)
    requires MonotoneCell(prev, polls)
    ensures StrictlyIncreasing(prev, SentValues(prev, polls))
    decreases |polls|
  {
    if polls != [] && polls[0].keepSending {
      var tail := polls[1..];
      if polls[0].polled != prev {
        assert MonotoneCell(polls[0].captured, tail);
        MonotoneCellSendsIncreasing(polls[0].captured, tail);
      } else {
        assert MonotoneCell(prev, tail);
        MonotoneCellSendsIncreasing(prev, tail);
      }
    }
  }

  /**
   * The cell is read twice in a pass. If it changes to 5 for the comparison
   * and back to 0 before being read for sending, the initial value 0 is sent;
   * and any value can be sent twice in a row: 3 is captured in a pass that
   * compared 5, then again in one that compared 4.
   */
  lemma CellRevertingBetweenReadsResendsPrevious()
    ensures SentValues(0, [Poll(true, 5, 0)]) == [0]
    ensures SentValues(0, [Poll(true, 5, 3), Poll(true, 4, 3)]) == [3, 3]
    ensures !ChangesEachTime(0, SentValues(0, [Poll(true, 5, 3), Poll(true, 4, 3)]))
  {
    var polls := [Poll(true, 5, 3), Poll(true, 4, 3)];
    assert polls[1..][1..] == [];
    assert SentValues(3, polls[1..]) == [3];
    var sent := SentValues(0, polls);
    assert sent == [3, 3] && sent[1] == sent[0];
  }

  /**
   * The line is consulted afresh for every transfer: the same value, sent
   * twice, reads back cleanly the first time and, over a line that stays
   * LOW the second time, decodes to 0 and reports a failure.
   */
  lemma ReadBackVariesPerTransfer(line: Line, v: uint64)
    requires FullReads(line) && v != 0
    requires forall w :: line(0, w) == [LOW] + w
    requires forall w :: line(1, w) == seq(READ_ARRAY_LENGTH, i => LOW)
    ensures FailureLine(v) !in Transfers([v], line)
    ensures FailureLine(v) in Transfers([v, v], line)
  {
    var first := [LOW] + Encode(v, DIGIT_REPEATS);
    var second := seq(READ_ARRAY_LENGTH, i => LOW);
    RoundTripTransfer(v, LOW);
    SilentLineDecodesZero(second);
    TransferFailures(v, first, v);
    TransferFailures(v, second, 0);
    TransfersSnoc([], v, line);
    TransfersSnoc([v], v, line);
    assert [v] + [v] == [v, v];
  }

  /**
   * A line that, in every transfer, reads back what was written behind a
   * leading sample returns READ_ARRAY_LENGTH samples for every bitcode.
   */
  lemma LoopbackLength(line: Line, leading: nat -> uint8)
    requires forall k: nat, w :: line(k, w) == [leading(k)] + w
    ensures FullReads(line)
  {
    forall k: nat, v: uint64 ensures |line(k, Encode(v, DIGIT_REPEATS))| == READ_ARRAY_LENGTH {
      EncodeShape(v, DIGIT_REPEATS);
    }
  }

  /** On a line that reads back what was written, one sample late, no transfer of the sender reports a failure. */
  lemma {:induction false} LoopbackSenderReportsNoFailure(sent: seq<uint64>, line: Line, leading: nat -> uint8)
    requires forall k: nat, w :: line(k, w) == [leading(k)] + w
    ensures FullReads(line)
    ensures forall e :: e in Transfers(sent, line) ==> !e.FailureLine?
  {
    LoopbackLength(line, leading);
    if sent != [] {
      var prefix, v := sent[..|sent| - 1], sent[|sent| - 1];
      LoopbackSenderReportsNoFailure(prefix, line, leading);
      var readBack := line(|sent| - 1, Encode(v, DIGIT_REPEATS));
      RoundTripTransfer(v, leading(|sent| - 1));
      var last := TransferTrace(v, readBack, Decode(readBack, DIGIT_REPEATS));
      TransferFailures(v, readBack, Decode(readBack, DIGIT_REPEATS));
      assert Transfers(sent, line) == Transfers(prefix, line) + last;
    }
  }
}
