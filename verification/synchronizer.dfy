/** The resynchronisation scan: `frame_start` slides forward one byte at a
    time, with `bytes_read` decremented in step, until the preamble is at
    `frame_start` or fewer than three counted bytes remain. */
module Synchronizer {
  import opened Bytes
  import opened Frame
  import opened ByteWindow

  /** The scan as a recursive definition. It never moves the end of the valid
      data, only moves `start` forward, stops exactly when the loop condition
      fails, and every offset it skips was a full three bytes that were not
      the preamble (once it has moved, at least two valid bytes remain), so the
      leftmost preamble wins. */
  function Scan(w: Window): (v: Window)
    requires w.Valid()
    ensures v.Valid() && v.buf == w.buf
    ensures v.End() == w.End()
    ensures w.start <= v.start
    ensures v.count < |Preamble| || PreambleAt(v.buf, v.start)
    ensures v.start == w.start || v.count >= |Preamble| - 1
    ensures forall k | w.start <= k < v.start :: !PreambleAt(w.buf, k)
    decreases w.count
  {
    if w.count >= |Preamble| && !PreambleAt(w.buf, w.start) then
      Scan(Window(w.buf, w.start + 1, w.count - 1))
    else
      w
  }

  /** The `while` loop itself, over the buffer and the two cursors. Every
      index it reads is below the buffer's size, it terminates because
      `bytes_read` decreases, and it computes `Scan`. */
  method Resync(buf: seq<u8>, frameStart: nat, bytesRead: nat) returns (start: nat, count: nat)
    requires |buf| == Capacity && frameStart + bytesRead <= Capacity
    ensures Window(buf, start, count) == Scan(Window(buf, frameStart, bytesRead))
  {
    start, count := frameStart, bytesRead;
    while count >= 3 && buf[start..start + 3] != Preamble
      invariant start + count == frameStart + bytesRead
      invariant Scan(Window(buf, start, count)) == Scan(Window(buf, frameStart, bytesRead))
      decreases count
    {
      count := count - 1;
      start := start + 1;
    }
  }

  /** A preamble with no earlier preamble between `start` and it is exactly
      where the scan stops. */
  lemma ScanFindsFirst(w: Window, g: nat)
    requires w.Valid()
    requires w.start <= g && g + |Preamble| <= w.End() && PreambleAt(w.buf, g)
    requires forall k | w.start <= k < g :: !PreambleAt(w.buf, k)
    ensures Scan(w).start == g && Scan(w).count == w.End() - g
  {
  }

  /** Without any preamble in the valid bytes, the scan discards all but the
      last two of them (or leaves fewer than three untouched). */
  lemma ScanWithoutPreamble(w: Window)
    requires w.Valid()
    requires forall k | w.start <= k && k + |Preamble| <= w.End() :: !PreambleAt(w.buf, k)
    ensures Scan(w).count == if w.count < |Preamble| then w.count else |Preamble| - 1
  {
  }
}
