/** The wire format of one frame: the preamble `AA AA AA` followed by five
    big-endian 16-bit samples, thirteen bytes in all, with no length field,
    trailer or checksum. */
module Frame {
  import opened Bytes

  const Preamble: seq<u8> := [0xAA, 0xAA, 0xAA]
  const SampleCount: nat := 5
  const FrameLength: nat := 13

  /** The three bytes at offset `k` are the preamble. */
  predicate PreambleAt(buf: seq<u8>, k: nat)
    requires k + |Preamble| <= |buf|
  {
    buf[k..k + |Preamble|] == Preamble
  }

  /** The five samples of the frame whose preamble starts at `k`: sample `id`
      is the big-endian pair at `k + 3 + 2 * id`. */
  function DecodeSamples(buf: seq<u8>, k: nat): (r: seq<u16>)
    requires k + FrameLength <= |buf|
    ensures |r| == SampleCount
    ensures forall i :: 0 <= i < SampleCount ==>
              r[i] as int == buf[k + 3 + 2 * i] as int * 0x100 + buf[k + 4 + 2 * i] as int
  {
    var measureStart := k + |Preamble|;
    seq(SampleCount, id requires 0 <= id < SampleCount =>
      FromBigEndian(buf[measureStart + 2 * id], buf[measureStart + 2 * id + 1]))
  }

  /** The wire bytes of a sequence of samples, most significant byte first. */
  function EncodeSamples(s: seq<u16>): (r: seq<u8>)
    ensures |r| == 2 * |s|
    ensures forall i :: 0 <= i < |s| ==> r[2 * i] == High(s[i]) && r[2 * i + 1] == Low(s[i])
  {
    if s == [] then []
    else
      var rest := EncodeSamples(s[1..]);
      assert forall i :: 1 <= i < |s| ==> s[i] == s[1..][i - 1];
      [High(s[0]), Low(s[0])] + rest
  }

  /** The thirteen bytes a sensor sends for five samples. */
  function EncodeFrame(s: seq<u16>): (r: seq<u8>)
    requires |s| == SampleCount
    ensures |r| == FrameLength
    ensures r[..|Preamble|] == Preamble
  {
    Preamble + EncodeSamples(s)
  }

  /** Decoding the thirteen bytes of an encoded frame, wherever they sit in
      the buffer, finds its preamble and gives back its five samples. */
  lemma DecodeEncode(buf: seq<u8>, k: nat, s: seq<u16>)
    requires |s| == SampleCount
    requires k + FrameLength <= |buf|
    requires buf[k..k + FrameLength] == EncodeFrame(s)
    ensures PreambleAt(buf, k)
    ensures DecodeSamples(buf, k) == s
  {
  }

  /** Conversely, thirteen bytes that start with the preamble are exactly the
      encoding of the samples decoded from them: decoding loses nothing. */
  lemma EncodeDecode(buf: seq<u8>, k: nat)
    requires k + FrameLength <= |buf|
    requires PreambleAt(buf, k)
    ensures EncodeFrame(DecodeSamples(buf, k)) == buf[k..k + FrameLength]
  {
    var e := EncodeSamples(DecodeSamples(buf, k));
    var frame := buf[k..k + FrameLength];
    forall j | 0 <= j < 2 * SampleCount
      ensures e[j] == frame[|Preamble| + j]
    {
      SampleByteRoundTrip(buf, k, j);
    }
    assert frame[..|Preamble|] == buf[k..k + |Preamble|];
    assert frame == frame[..|Preamble|] + frame[|Preamble|..];
  }

  /** Byte `j` of the re-encoded samples is byte `j` after the preamble. */
  lemma SampleByteRoundTrip(buf: seq<u8>, k: nat, j: nat)
    requires k + FrameLength <= |buf| && j < 2 * SampleCount
    ensures EncodeSamples(DecodeSamples(buf, k))[j] == buf[k + |Preamble| + j]
  {
    var s := DecodeSamples(buf, k);
    var i := j / 2;
    assert s[i] == FromBigEndian(buf[k + 3 + 2 * i], buf[k + 3 + 2 * i + 1]);
    if j % 2 == 0 {
      assert j == 2 * i;
    } else {
      assert j == 2 * i + 1;
    }
  }
}
