/** One pass of the acquisition loop, minus the serial I/O, the sink, the
    clock and the sleep: append the bytes just read, resynchronise on the
    preamble, and, when the decode guard holds, decode five samples, take
    their median, reset both cursors and accept the median only if it is at
    most 0x3FF.

    The decode guard is modelled twice. `AsWritten` is the code's
    `bytes_read - frame_start >= 13`, whose `usize` subtraction panics when
    `frame_start > bytes_read`; `Intended` is `bytes_read >= 13`, which
    treats `bytes_read` as a count from `frame_start` the way the scan and
    the read already do. */
module Acquisition {
  import opened Bytes
  import opened Frame
  import opened ByteWindow
  import opened Synchronizer
  import opened Median

  /** Largest accepted reading: ten bits of sensor resolution. */
  const MaxReading: u16 := 0x3FF

  /** The serial read: `Ok(n)` with the `n` bytes it wrote, or an error. */
  datatype ReadResult = ReadOk(bytes: seq<u8>) | ReadErr

  datatype GuardRule = AsWritten | Intended

  /** Result of the decode guard: the subtraction underflowed, a frame is
      decoded, or the loop waits for more bytes. */
  datatype Verdict = Underflow | Decode | Wait

  datatype Outcome =
    | Emitted(value: u16, next: Window)   // a reading is written to the sink
    | Rejected(median: u16, next: Window) // `continue` on a median above 0x3FF
    | NotYet(next: Window)                // the "mid-sequence" diagnostic branch
    | Skipped(next: Window)               // the read failed; nothing else happens
    | Panic                               // `usize` underflow in the guard
  {
    /** A frame was decoded and reduced, whether or not it was accepted. */
    predicate Decoded() {
      Emitted? || Rejected?
    }

    function Median(): u16
      requires Decoded()
    {
      if Emitted? then value else median
    }

    /** The four-second sleep is reached after an emission and after the
        diagnostic; `continue` skips it after a rejection, and a failed read
        never gets that far. */
    predicate ReachesSleep() {
      Emitted? || NotYet?
    }
  }

  /** The decode guard on the window the scan left. Whenever it decodes, the
      whole thirteen-byte frame, up to index `start + 12`, lies among the
      valid bytes of the buffer and starts with the preamble. */
  function Guard(rule: GuardRule, v: Window): (g: Verdict)
    requires v.Valid()
    ensures g == Underflow <==> rule == AsWritten && v.start > v.count
    ensures g == Decode ==> v.start + FrameLength <= v.End() && PreambleAt(v.buf, v.start)
    ensures g == Decode && rule == AsWritten ==> v.count >= v.start + FrameLength
    ensures rule == AsWritten && v.count >= v.start + FrameLength && PreambleAt(v.buf, v.start) ==> g == Decode
    ensures rule == Intended && v.count >= FrameLength && PreambleAt(v.buf, v.start) ==> g == Decode
  {
    match rule
    case AsWritten =>
      if v.start > v.count then Underflow
      else if v.count - v.start >= FrameLength && PreambleAt(v.buf, v.start) then Decode
      else Wait
    case Intended =>
      if v.count >= FrameLength && PreambleAt(v.buf, v.start) then Decode else Wait
  }

  /** Everything after the scan, on the window `v` it left: the guard, and
      when it decodes, the median, the reset and the range check. Only the
      as-written guard panics, and only on underflow. A wait leaves `v` as
      it is. A decode resets both cursors, keeps the buffer, and reduces the
      samples at `v.start` to their median, which is emitted exactly when it
      is at most 0x3FF. */
  function Conclude(rule: GuardRule, v: Window): (o: Outcome)
    requires v.Valid()
    ensures !o.Skipped?
    ensures !o.Panic? ==> o.next.Valid()
    ensures o.Panic? <==> Guard(rule, v) == Underflow
    ensures o.NotYet? <==> Guard(rule, v) == Wait
    ensures o.NotYet? ==> o.next == v
    ensures o.Decoded() ==> o.next == Window(v.buf, 0, 0)
    ensures o.Decoded() ==> o.Median() == Median5(DecodeSamples(v.buf, v.start))
    ensures o.Emitted? <==> o.Decoded() && o.Median() <= MaxReading
  {
    match Guard(rule, v)
    case Underflow => Panic
    case Wait => NotYet(v)
    case Decode =>
      var median := Median5(DecodeSamples(v.buf, v.start));
      var reset := Window(v.buf, 0, 0);
      if median > MaxReading then Rejected(median, reset) else Emitted(median, reset)
  }

  /** One iteration of the loop. A failed read changes nothing. Otherwise:
      only the as-written guard can panic, and it does exactly when the
      scan left `start > count`; when the guard waits, the window is exactly
      as the scan left it; when it decodes, the reading is the median of the
      five samples at the scan's offset, both cursors are reset whether or not
      the median is accepted, the buffer holds what the read left, and a
      reading is emitted exactly when the median is at most 0x3FF. The sleep
      is reached after the diagnostic and after an emission, but not after a
      rejection's `continue` or a failed read. */
  function Step(rule: GuardRule, w: Window, read: ReadResult): (o: Outcome)
    requires w.Valid()
    requires read.ReadOk? ==> w.End() + |read.bytes| <= Capacity
    ensures read.ReadErr? ==> o == Skipped(w)
    ensures o.Skipped? <==> read.ReadErr?
    ensures o.Panic? ==> rule == AsWritten && read.ReadOk?
    ensures read.ReadOk? ==> (o.Decoded() <==> Guard(rule, Scan(Append(w, read.bytes))) == Decode)
    ensures o.ReachesSleep() <==> read.ReadOk? && (o.NotYet? || (o.Decoded() && o.Median() <= MaxReading))
    ensures !o.Panic? ==> o.next.Valid()
    ensures o.Decoded() ==> read.ReadOk? && o.next.start == 0 && o.next.count == 0
    ensures o.Decoded() ==> o.next.buf == Append(w, read.bytes).buf
    ensures o.Emitted? <==> o.Decoded() && o.Median() <= MaxReading
    ensures read.ReadOk? ==>
              var v := Scan(Append(w, read.bytes));
              && (o.Panic? <==> Guard(rule, v) == Underflow)
              && (o.NotYet? <==> Guard(rule, v) == Wait)
              && (o.NotYet? ==> o.next == v)
              && (o.Decoded() ==> o.Median() == Median5(DecodeSamples(v.buf, v.start)))
  {
    match read
    case ReadErr => Skipped(w)
    case ReadOk(bytes) => Conclude(rule, Scan(Append(w, bytes)))
  }

  /** The loop body statement by statement, with the buffer and the two
      cursors as local variables: `bytes_read += n`, the scan loop, the
      guard with its `usize` subtraction, the five-sample decode, sort,
      median, reset and range check. It computes the as-written `Step`. */
  method RunStep(w: Window, read: ReadResult) returns (o: Outcome)
    requires w.Valid()
    requires read.ReadOk? ==> w.End() + |read.bytes| <= Capacity
    ensures o == Step(AsWritten, w, read)
  {
    if read.ReadErr? {
      return Skipped(w);
    }
    var appended := Append(w, read.bytes);
    var buf := appended.buf;
    var frameStart, bytesRead := Resync(buf, w.start, w.count + |read.bytes|);
    var scanned := Window(buf, frameStart, bytesRead);
    assert scanned == Scan(appended);
    if bytesRead < frameStart {
      return Panic;
    }
    if bytesRead - frameStart >= 13 && buf[frameStart..frameStart + 3] == Preamble {
      assert Guard(AsWritten, scanned) == Decode;
      var measurements := Measurements(buf, frameStart);
      var sorted := Sort(measurements);
      var median := sorted[2];
      bytesRead, frameStart := 0, 0;
      if median > MaxReading {
        return Rejected(median, Window(buf, frameStart, bytesRead));
      }
      o := Emitted(median, Window(buf, frameStart, bytesRead));
    } else {
      assert Guard(AsWritten, scanned) == Wait;
      o := NotYet(scanned);
    }
  }

  /** The `(0..5).map(..).collect()` of the five samples after the preamble
      at `frameStart`. */
  method Measurements(buf: seq<u8>, frameStart: nat) returns (measurements: seq<u16>)
    requires frameStart + FrameLength <= |buf|
    ensures measurements == DecodeSamples(buf, frameStart)
  {
    var measureStart := frameStart + 3;
    measurements := [];
    for id := 0 to 5
      invariant measurements == DecodeSamples(buf, frameStart)[..id]
    {
      measurements := measurements + [FromBigEndian(buf[measureStart + 2 * id], buf[measureStart + 2 * id + 1])];
    }
  }

  /** A complete frame whose preamble sits at offset 0 of the window is
      decoded under either guard, and the median is that of its samples. */
  lemma DecodesAlignedFrame(rule: GuardRule, w: Window, bytes: seq<u8>, s: seq<u16>)
    requires w.Valid() && w.start == 0
    requires w.End() + |bytes| <= Capacity
    requires |s| == SampleCount
    requires w.count + |bytes| >= FrameLength
    requires (w.Contents() + bytes)[..FrameLength] == EncodeFrame(s)
    ensures Step(rule, w, ReadOk(bytes)).Decoded()
    ensures Step(rule, w, ReadOk(bytes)).Median() == Median5(s)
  {
    var a := Append(w, bytes);
    assert a.buf[0..FrameLength] == a.Contents()[..FrameLength];
    DecodeEncode(a.buf, 0, s);
    ScanFindsFirst(a, 0);
    assert Scan(a) == a;
  }

  /** A well-formed frame read in one piece into an empty window produces a
      reading with the median of its samples exactly when that median is at
      most 0x3FF, and resets both cursors either way. */
  lemma CompleteFrameFromEmpty(rule: GuardRule, w: Window, s: seq<u16>)
    requires w.Valid() && w.start == 0 && w.count == 0
    requires |s| == SampleCount
    ensures var o := Step(rule, w, ReadOk(EncodeFrame(s)));
            && o.Decoded() && o.Median() == Median5(s)
            && (o.Emitted? <==> Median5(s) <= MaxReading)
            && o.next.start == 0 && o.next.count == 0
  {
    assert w.Contents() + EncodeFrame(s) == EncodeFrame(s);
    DecodesAlignedFrame(rule, w, EncodeFrame(s), s);
  }

  /** The first part of a frame, read into an empty window, is kept as it
      is: the scan does not move past the preamble and the guard waits. */
  lemma PartialFrameKept(rule: GuardRule, w: Window, f: seq<u8>, k: nat)
    requires w.Valid() && w.start == 0 && w.count == 0
    requires |f| == FrameLength && f[..|Preamble|] == Preamble && k < FrameLength
    ensures Step(rule, w, ReadOk(f[..k])) == NotYet(Append(w, f[..k]))
  {
  }

  /** A frame that arrives in two reads is kept, not reset, after the first
      read, and decoded after the second. */
  lemma SplitFrameCompletes(rule: GuardRule, w: Window, s: seq<u16>, k: nat)
    requires w.Valid() && w.start == 0 && w.count == 0
    requires |s| == SampleCount && k < FrameLength
    ensures var f := EncodeFrame(s);
            var o1 := Step(rule, w, ReadOk(f[..k]));
            && o1.NotYet? && o1.next.start == 0 && o1.next.count == k
            && o1.next.Contents() == f[..k]
            && Step(rule, o1.next, ReadOk(f[k..])).Decoded()
            && Step(rule, o1.next, ReadOk(f[k..])).Median() == Median5(s)
  {
    var f := EncodeFrame(s);
    PartialFrameKept(rule, w, f, k);
    var a := Append(w, f[..k]);
    assert a.Contents() == f[..k];
    assert a.Contents() + f[k..] == f;
    DecodesAlignedFrame(rule, a, f[k..], s);
  }

  /** Garbage before a frame, none of whose offsets starts a preamble,
      spread into the window by one read. */
  predicate GarbageThenFrame(garbage: seq<u8>, s: seq<u16>)
    requires |s| == SampleCount
  {
    forall k | 0 <= k < |garbage| :: !PreambleAt(garbage + EncodeFrame(s), k)
  }

  /** With the intended guard, a frame preceded by garbage that holds no
      preamble is found at its leftmost offset and decoded in the same pass. */
  lemma IntendedRecoversAfterGarbage(w: Window, garbage: seq<u8>, s: seq<u16>)
    requires w.Valid() && w.start == 0 && w.count == 0
    requires |s| == SampleCount && |garbage| + FrameLength <= Capacity
    requires GarbageThenFrame(garbage, s)
    ensures var o := Step(Intended, w, ReadOk(garbage + EncodeFrame(s)));
            o.Decoded() && o.Median() == Median5(s)
  {
    var input := garbage + EncodeFrame(s);
    var g := |garbage|;
    var a := Append(w, input);
    AppendedScan(w, input, g);
    assert a.buf[g..g + FrameLength] == input[g..];
    DecodeEncode(a.buf, g, s);
  }

  /** With the guard as written, the same garbage-then-frame read is never
      decoded in that pass: one to thirteen garbage bytes leave
      `bytes_read - frame_start` below 13, and more make it underflow. */
  lemma AsWrittenMissesFrameAfterGarbage(w: Window, garbage: seq<u8>, s: seq<u16>)
    requires w.Valid() && w.start == 0 && w.count == 0
    requires |s| == SampleCount && |garbage| + FrameLength <= Capacity
    requires GarbageThenFrame(garbage, s)
    requires |garbage| > 0
    ensures var o := Step(AsWritten, w, ReadOk(garbage + EncodeFrame(s)));
            && !o.Decoded()
            && (o.Panic? <==> |garbage| > FrameLength)
  {
    AppendedScan(w, garbage + EncodeFrame(s), |garbage|);
  }

  /** With the guard as written, the frame left behind after one to
      thirteen garbage bytes is decoded one pass late: a next read of at least
      as many bytes as the garbage lifts `bytes_read - frame_start` to 13.
      The reset that follows also discards the bytes that read brought. */
  lemma AsWrittenDecodesLate(w: Window, garbage: seq<u8>, s: seq<u16>, more: seq<u8>)
    requires w.Valid() && w.start == 0 && w.count == 0
    requires |s| == SampleCount && 0 < |garbage| <= FrameLength
    requires GarbageThenFrame(garbage, s)
    requires |garbage| <= |more| && |garbage| + FrameLength + |more| <= Capacity
    ensures var o1 := Step(AsWritten, w, ReadOk(garbage + EncodeFrame(s)));
            && o1.NotYet?
            && o1.next.start == |garbage| && o1.next.count == FrameLength
            && var o2 := Step(AsWritten, o1.next, ReadOk(more));
               && o2.Decoded() && o2.Median() == Median5(s)
               && o2.next.count == 0
  {
    var input := garbage + EncodeFrame(s);
    var g := |garbage|;
    AsWrittenMissesFrameAfterGarbage(w, garbage, s);
    AppendedScan(w, input, g);
    var a := Append(w, input);
    assert a.Contents() == input;
    assert Scan(a).buf[g..g + FrameLength] == input[g..];
    StaleFrameDecoded(Scan(a), s, more);
  }

  /** A window holding exactly one frame at `start`, with the guard as
      written, decodes that frame once a read of at least `start` more
      bytes arrives. */
  lemma StaleFrameDecoded(v: Window, s: seq<u16>, more: seq<u8>)
    requires v.Valid() && v.count == FrameLength && |s| == SampleCount
    requires v.buf[v.start..v.start + FrameLength] == EncodeFrame(s)
    requires v.start <= |more| && v.End() + |more| <= Capacity
    ensures var o := Step(AsWritten, v, ReadOk(more));
            o.Decoded() && o.Median() == Median5(s) && o.next.count == 0
  {
    var g := v.start;
    var a := Append(v, more);
    assert a.Contents() == v.Contents() + more;
    assert a.buf[g..g + FrameLength] == a.Contents()[..FrameLength];
    DecodeEncode(a.buf, g, s);
    ScanFindsFirst(a, g);
  }

  /** The scan of a freshly filled window stops at the frame after the
      garbage, leaving exactly the frame's thirteen bytes counted. */
  lemma AppendedScan(w: Window, input: seq<u8>, g: nat)
    requires w.Valid() && w.start == 0 && w.count == 0
    requires |input| <= Capacity && g + FrameLength == |input|
    requires input[g..g + |Preamble|] == Preamble
    requires forall k | 0 <= k < g :: !PreambleAt(input, k)
    ensures Scan(Append(w, input)).start == g
    ensures Scan(Append(w, input)).count == FrameLength
  {
    var a := Append(w, input);
    assert a.Contents() == input;
    assert a.buf[..|input|] == input;
    assert a.buf[g..g + |Preamble|] == input[g..g + |Preamble|];
    forall k | 0 <= k < g
      ensures !PreambleAt(a.buf, k)
    {
      assert !PreambleAt(input, k);
      assert a.buf[k..k + |Preamble|] == a.Contents()[k..k + |Preamble|];
    }
    ScanFindsFirst(a, g);
  }

  /** A read of five or more bytes that holds no preamble at all, into an
      empty window: the scan stops with two bytes counted at an offset of at
      least three. */
  lemma NoiseScan(w: Window, bytes: seq<u8>)
    requires w.Valid() && w.start == 0 && w.count == 0
    requires 5 <= |bytes| <= Capacity
    requires forall k | 0 <= k && k + |Preamble| <= |bytes| :: !PreambleAt(bytes, k)
    ensures Scan(Append(w, bytes)).count == 2
    ensures Scan(Append(w, bytes)).start == |bytes| - 2
  {
    var a := Append(w, bytes);
    assert a.Contents() == bytes;
    forall k | 0 <= k && k + |Preamble| <= a.End()
      ensures !PreambleAt(a.buf, k)
    {
      assert !PreambleAt(bytes, k);
      assert a.buf[k..k + |Preamble|] == a.Contents()[k..k + |Preamble|];
    }
    ScanWithoutPreamble(a);
  }

  /** With the guard as written, five or more bytes of noise read into an
      empty window end the program: the scan leaves `frame_start` at least 3
      and `bytes_read` at 2, and `2 - frame_start` underflows. */
  lemma AsWrittenPanicsOnNoise(w: Window, bytes: seq<u8>)
    requires w.Valid() && w.start == 0 && w.count == 0
    requires 5 <= |bytes| <= Capacity
    requires forall k | 0 <= k && k + |Preamble| <= |bytes| :: !PreambleAt(bytes, k)
    ensures Step(AsWritten, w, ReadOk(bytes)) == Panic
  {
    NoiseScan(w, bytes);
  }

  /** With the intended guard, the same noise only leaves the last two bytes
      counted (they may begin the next preamble) and waits for more. */
  lemma IntendedWaitsOnNoise(w: Window, bytes: seq<u8>)
    requires w.Valid() && w.start == 0 && w.count == 0
    requires 5 <= |bytes| <= Capacity
    requires forall k | 0 <= k && k + |Preamble| <= |bytes| :: !PreambleAt(bytes, k)
    ensures var o := Step(Intended, w, ReadOk(bytes));
            && o.NotYet? && o.next.count == 2
            && o.next.Contents() == bytes[|bytes| - 2..]
  {
    NoiseScan(w, bytes);
    var a := Append(w, bytes);
    assert a.Contents() == bytes;
    assert Scan(a).Contents() == a.Contents()[|bytes| - 2..];
  }

  /** The sensor's frame for samples 10, 20, 30, 40, 50. */
  const ExampleFrame: seq<u8> :=
    [0xAA, 0xAA, 0xAA, 0x00, 0x0A, 0x00, 0x14, 0x00, 0x1E, 0x00, 0x28, 0x00, 0x32]

  /** A frame read into the initial buffer whose samples have a median `m`
      of at most 0x3FF yields the reading `m`. */
  lemma ReadingFromInitial(rule: GuardRule, bytes: seq<u8>, s: seq<u16>, m: u16)
    requires |s| == SampleCount && bytes == EncodeFrame(s)
    requires IsMedianOf(s, m) && m <= MaxReading
    ensures var o := Step(rule, Initial, ReadOk(bytes));
            o.Emitted? && o.value == m
  {
    MedianCharacterized(s, m);
    CompleteFrameFromEmpty(rule, Initial, s);
  }

  /** Read into the initial buffer, the example frame yields the reading 30. */
  lemma ExampleFrameReading(rule: GuardRule)
    ensures var o := Step(rule, Initial, ReadOk(ExampleFrame));
            o.Emitted? && o.value == 30
  {
    var s: seq<u16> := [10, 20, 30, 40, 50];
    assert EncodeFrame(s) == ExampleFrame;
    assert IsMedianOf(s, 30);
    ReadingFromInitial(rule, ExampleFrame, s, 30);
  }

  /** With sample 3 replaced by 0xFFFF, one high outlier is filtered out and
      the reading is 40. */
  lemma ExampleOutlierReading(rule: GuardRule)
    ensures var o := Step(rule, Initial, ReadOk(ExampleFrame[..7] + [0xFF, 0xFF] + ExampleFrame[9..]));
            o.Emitted? && o.value == 40
  {
    var s: seq<u16> := [10, 20, 0xFFFF, 40, 50];
    var bytes := ExampleFrame[..7] + [0xFF, 0xFF] + ExampleFrame[9..];
    assert EncodeFrame(s) == bytes;
    assert IsMedianOf(s, 40);
    ReadingFromInitial(rule, bytes, s, 40);
  }

  /** The example frame with its first byte corrupted to 0xAB holds no
      preamble: the guard as written panics, the intended one waits. */
  lemma ExampleCorruptedPreamble()
    ensures Step(AsWritten, Initial, ReadOk([0xAB] + ExampleFrame[1..])) == Panic
    ensures Step(Intended, Initial, ReadOk([0xAB] + ExampleFrame[1..])).NotYet?
  {
    var bytes := [0xAB] + ExampleFrame[1..];
    forall k | 0 <= k && k + |Preamble| <= |bytes|
      ensures !PreambleAt(bytes, k)
    {
      assert bytes[k..k + |Preamble|][0] == bytes[k];
      assert bytes[k..k + |Preamble|][2] == bytes[k + 2];
    }
    AsWrittenPanicsOnNoise(Initial, bytes);
    IntendedWaitsOnNoise(Initial, bytes);
  }
}
