/** The 256-byte read buffer with its two cursors: `start` (`frame_start`,
    the first candidate byte) and `count` (`bytes_read`, the number of valid
    bytes from `start`). Bytes before `start` are garbage. */
module ByteWindow {
  import opened Bytes

  const Capacity: nat := 256

  datatype Window = Window(buf: seq<u8>, start: nat, count: nat) {
    /** The buffer has its fixed size and the valid bytes lie inside it. */
    predicate Valid() {
      |buf| == Capacity && start + count <= Capacity
    }

    /** One past the last valid byte: where the next read writes. */
    function End(): nat {
      start + count
    }

    /** The valid bytes, `buf[start..start + count]`. */
    function Contents(): (r: seq<u8>)
      requires Valid()
      ensures |r| == count
    {
      buf[start..End()]
    }
  }

  /** `[0u8; 256]` with both cursors at 0. */
  const Initial: Window := Window(seq(Capacity, _ => 0 as u8), 0, 0)

  /** A successful read of `bytes` into `buf[start + count..]`, followed by
      `bytes_read += n`: the new bytes follow the valid ones, every other byte
      of the buffer is untouched, and `start` does not move. */
  function Append(w: Window, bytes: seq<u8>): (r: Window)
    requires w.Valid()
    requires w.End() + |bytes| <= Capacity
    ensures r.Valid()
    ensures r.start == w.start && r.count == w.count + |bytes|
    ensures r.Contents() == w.Contents() + bytes
    ensures r.buf[..w.start] == w.buf[..w.start]
    ensures r.buf[r.End()..] == w.buf[r.End()..]
  {
    var e := w.End();
    var r := Window(w.buf[..e] + bytes + w.buf[e + |bytes|..], w.start, w.count + |bytes|);
    assert r.buf[..e] == w.buf[..e];
    assert r.buf[e..r.End()] == bytes;
    assert r.Contents() == r.buf[w.start..e] + r.buf[e..r.End()];
    r
  }
}
