# plant-thirst frame recovery, modelled in Dafny

plant-thirst reads a soil-moisture sensor over a serial link. The sensor
sends frames of thirteen bytes: the preamble `AA AA AA`, then five
big-endian 16-bit samples. The acquisition loop in `src/main.rs` keeps a
256-byte buffer and two cursors, `frame_start` and `bytes_read`. On each
pass it does the following:

- It appends the bytes just read at `frame_start + bytes_read`.
- It slides `frame_start` forward one byte at a time until the preamble is
  there or fewer than three counted bytes remain.
- When the guard `bytes_read - frame_start >= 13` holds and the preamble is
  in place, it decodes the five samples and sorts them.
- It takes element 2 of the sorted samples as the median and resets both
  cursors to 0.
- It writes the median to InfluxDB only if the median is at most `0x3FF`.

This project models that loop body as a pure function over an immutable
window and proves what the code guarantees. It also proves where the code
falls short.

Modules:

- `Bytes` (`bytes.dfy`): the `u8` and `u16` newtypes and the big-endian
  pair. The `u16` shift is written with explicit truncation. The `u16`
  addition is range-checked, which models the debug-build overflow panic.
- `Frame` (`frame.dfy`): the preamble, sample decoding, and the sensor-side
  encoding, which is the decoder's inverse.
- `ByteWindow` (`byte_window.dfy`): the buffer with its two cursors, and the
  effect of a read.
- `Synchronizer` (`synchronizer.dfy`): the resynchronisation scan. It is
  written as a recursive definition and as the source's `while` loop, and
  the two are proved equal.
- `Median` (`median.dfy`): sorting and the median of five, with an
  independent counting definition of "median".
- `Acquisition` (`acquisition.dfy`): the decode guard, the loop step with
  its outcomes, and the end-to-end lemmas.

A step ends in one of five outcomes:

- `Emitted(value, next)`: a reading is written.
- `Rejected(median, next)`: the `continue` taken for a median above `0x3FF`.
- `NotYet(next)`: the diagnostic branch. The cursors are left exactly as
  the scan left them.
- `Skipped(next)`: the serial read failed.
- `Panic`: the `usize` subtraction in the guard underflowed. This is the
  behaviour of a debug build.

The guard is a parameter. `AsWritten` is the code's literal test.
`Intended` is the corrected test, `bytes_read >= 13`. Both rules share the
one definition of `Step`. Every property about the code as written is
stated for `AsWritten`, or for both rules at once.

## Model

| member | source | states |
|---|---|---|
| Bytes.Shl8 | src/main.rs:56 | `x << 8` on a `u16` leaves the low byte zero. For any byte value it equals `x * 256`, so no bits are lost. |
| Bytes.FromBigEndian | src/main.rs:55-57 | The sample equals `hi * 256 + lo`. The `u16` addition cannot overflow. Both bytes can be read back from the sample. |
| Bytes.FromBigEndianOfSplit | src/main.rs:55-57 | Splitting any sample into its two wire bytes and decoding them gives the sample back. |
| Frame.DecodeSamples | src/main.rs:51-58 | There are exactly five samples. Sample `i` is the big-endian value of the bytes at `k+3+2i` and `k+4+2i`. |
| Frame.EncodeSamples | src/main.rs:51-57 | Sample `i` is laid out as its high byte at `2i` and its low byte at `2i+1`, which is the layout the decoder reads. |
| Frame.EncodeFrame | src/main.rs:49-57 | A sensor frame is thirteen bytes long and begins with the preamble. |
| Frame.DecodeEncode | src/main.rs:49-58 | Wherever an encoded frame sits in the buffer, the preamble check passes there and decoding returns its samples. |
| Frame.EncodeDecode | src/main.rs:49-58 | Thirteen bytes that begin with the preamble are exactly the encoding of the samples decoded from them. |
| ByteWindow.Window.Contents | src/main.rs:79 | The slice `frame_start..frame_start + bytes_read` that the diagnostic dumps lies inside the buffer and holds `bytes_read` bytes. |
| ByteWindow.Append | src/main.rs:36-40 | A read puts its bytes right after the valid bytes and extends the count by `n`. `frame_start` does not move. Bytes before `frame_start` and past the new end are untouched. |
| Synchronizer.Scan | src/main.rs:41-46 | The end `frame_start + bytes_read` never moves, and the start only moves forward. The scan stops only when `bytes_read < 3` or the preamble is at the start. No skipped offset begins a preamble, so the leftmost preamble wins. |
| Synchronizer.Resync | src/main.rs:41-46 | The byte-at-a-time `while` loop terminates and reads only indices below 256. It leaves the cursors where `Scan` says. |
| Synchronizer.ScanFindsFirst | src/main.rs:41-46 | A preamble with no earlier preamble at or after the start is exactly where the scan stops. |
| Synchronizer.ScanWithoutPreamble | src/main.rs:41-46 | With no preamble in the valid bytes, the scan leaves `min(bytes_read, 2)` counted. |
| Median.Insert | src/main.rs:59 | Insertion into a sorted sequence keeps it sorted and keeps every element. |
| Median.Sort | src/main.rs:59 | The result is sorted and is a permutation of the samples. |
| Median.Median5 | src/main.rs:59-60 | Element 2 of the sorted five is one of the samples. At least three samples are at or below it, and at least three are at or above it. |
| Median.MedianCharacterized | src/main.rs:59-60 | A value has at least three samples on each side if and only if it is the computed median. |
| Median.MedianPermutationInvariant | src/main.rs:59-60 | Any reordering of the five samples has the same median. |
| Median.SortedPermutationUnique | src/main.rs:59 | Two sorted permutations of the same samples are equal. Whatever algorithm `sort` uses, index 2 is the same value. |
| Acquisition.Guard | src/main.rs:48-49 | The guard underflows exactly when the rule is the literal one and `frame_start > bytes_read`. When it decodes, the preamble is at `frame_start` and all thirteen frame bytes, up to index `frame_start + 12`, are valid bytes below 256. The literal rule decodes if and only if `bytes_read >= frame_start + 13` and the preamble is in place. The corrected rule decodes if and only if `bytes_read >= 13` and the preamble is in place. |
| Acquisition.Conclude | src/main.rs:48-81 | This is everything after the scan. Only the literal guard panics, and only on underflow. A wait leaves the scanned window as it is. A decode resets both cursors, keeps the buffer, and reduces the samples at `frame_start` to their median. The median is emitted if and only if it is at most `0x3FF`. |
| Acquisition.Step | src/main.rs:36-83 | A failed read changes nothing, and it is the only way to get `Skipped`. After a successful read, a frame is decoded if and only if the guard says so on the scanned window. Only the literal guard panics, and it does so exactly on underflow. When nothing is decoded, there is no reading and the window is exactly as the scan left it, with the dumped slice in bounds. When a frame is decoded, both cursors are 0 whether the median is accepted or rejected, and the median is that of the samples at the scan's offset. A reading is emitted if and only if the median is at most `0x3FF`, and its value is the median. The sleep is reached after the diagnostic and after an emission, but not after a rejection's `continue` or a failed read. |
| Acquisition.RunStep | src/main.rs:36-81 | The statement-by-statement loop body, with mutable cursors, computes the as-written `Step`. |
| Acquisition.Measurements | src/main.rs:51-58 | The map/collect over ids 0 to 4 yields exactly the five decoded samples. |
| Acquisition.DecodesAlignedFrame | src/main.rs:41-62 | A complete frame at offset 0 of the window is decoded under either guard, with the median of its samples. |
| Acquisition.CompleteFrameFromEmpty | src/main.rs:36-70 | A frame read whole into an empty window is decoded and the cursors are reset. A reading equal to the samples' median is emitted if and only if that median is at most `0x3FF`. |
| Acquisition.PartialFrameKept | src/main.rs:41-49 | The first part of a frame, read into an empty window, is kept untouched. The scan does not move past the preamble, and the guard waits. |
| Acquisition.SplitFrameCompletes | src/main.rs:36-81 | A frame split over two reads is kept, not reset, after the first read, and decoded after the second. |
| Acquisition.IntendedRecoversAfterGarbage | src/main.rs:41-60 | With the corrected guard, garbage containing no preamble followed by a frame is decoded in the same pass. |
| Acquisition.AsWrittenMissesFrameAfterGarbage | src/main.rs:41-49 | With the literal guard, the same read is not decoded in that pass. It panics if and only if there are more than thirteen garbage bytes. |
| Acquisition.AsWrittenDecodesLate | src/main.rs:41-62 | With the literal guard and one to thirteen garbage bytes, the frame is left at offset `g` with 13 bytes counted. A next read of at least `g` bytes decodes it one pass late, and the reset then discards the bytes that read brought. |
| Acquisition.StaleFrameDecoded | src/main.rs:41-62 | With the literal guard, a window holding exactly one frame at `frame_start` decodes it once a read brings at least `frame_start` more bytes, and the reset leaves nothing counted. |
| Acquisition.AsWrittenPanicsOnNoise | src/main.rs:41-48 | With the literal guard, five or more bytes without a preamble, read into an empty window, end in the underflow panic. |
| Acquisition.IntendedWaitsOnNoise | src/main.rs:41-48 | With the corrected guard, the same bytes lead to the diagnostic branch with the last two bytes kept. |
| Acquisition.ReadingFromInitial | src/main.rs:36-75 | A frame whose samples have a median `m` at most `0x3FF`, read into the initial buffer, emits `m`. |
| Acquisition.ExampleFrameReading | src/main.rs:36-75 | `AA AA AA 00 0A 00 14 00 1E 00 28 00 32` emits 30. |
| Acquisition.ExampleOutlierReading | src/main.rs:36-75 | The same frame with sample 3 set to `0xFFFF` emits 40. |
| Acquisition.ExampleCorruptedPreamble | src/main.rs:41-48 | With the first byte changed to `AB`, the literal guard panics and the corrected guard waits. |

## Left out

- The serial port's opening and configuration, and the asynchronous read. The read is the parameter `ReadResult`. It carries at most as many bytes as the slice handed to it can hold, which is a precondition of `Step`.
- The InfluxDB client, the token from the environment, the `SoilMoisture` point and `client.write`. An `Emitted` outcome is the point handed to the sink. Whether the write succeeds only decides a log line.
- `Utc::now()`: the timestamp comes from a clock and is not part of the reading's value.
- `println!`, `eprintln!` and the four-second sleep. `Outcome.ReachesSleep` marks the outcomes that reach the sleep, and `Step`'s contract states which those are. The bytes that `eprintln!` dumps are `next.Contents()` of a `NotYet` outcome.
- The tokio runtime and `async`/`await`. The loop is strictly sequential, and `Step` is one iteration of it.
- Step: in a release build, `usize` subtraction wraps instead of panicking. That behaviour is not modelled, and the debug-build panic stands for it.

## Findings

| source | as written | input that shows it | evidently intended | confidence | as-written member | corrected member |
|---|---|---|---|---|---|---|
| src/main.rs:48 | `(bytes_read - frame_start) >= 13` subtracts `frame_start` a second time, though `bytes_read` already counts from `frame_start` | `00 AA AA AA 00 0A 00 14 00 1E 00 28 00 32` read into an empty buffer: the scan stops at `frame_start` 1 with `bytes_read` 13, and `13 - 1 < 13`, so the complete frame is not decoded in that pass. It is decoded one pass late, once a further read brings at least one byte, and the reset then discards that read's bytes | `bytes_read >= 13` | high; not executed | Acquisition.AsWrittenMissesFrameAfterGarbage | Acquisition.IntendedRecoversAfterGarbage |
| src/main.rs:48 | `bytes_read - frame_start` is a `usize` subtraction that underflows when `frame_start > bytes_read` | `AB AA AA 00 0A 00 14 00 1E 00 28 00 32` read into an empty buffer: the scan ends at `frame_start` 11 with `bytes_read` 2, and `2 - 11` panics | take the diagnostic branch and keep the last two bytes | high; not executed | Acquisition.AsWrittenPanicsOnNoise | Acquisition.IntendedWaitsOnNoise |
