/** How the machine lays integers out in memory, least significant byte first. */
module LittleEndian {
  import opened Bitmap

  type byte = b: nat | b < 256

  function Bytes16(w: nat): (b: seq<byte>)
    requires w < 0x1_0000
    ensures |b| == 2
  {
    [w % 0x100, w / 0x100]
  }

  function Word16(b: seq<byte>): (w: nat)
    requires |b| == 2
    ensures w < 0x1_0000
  {
    var low: nat, high: nat := b[0], b[1];
    low + 0x100 * high
  }

  function Bytes32(w: word): (b: seq<byte>)
    ensures |b| == 4
  {
    Bytes16(w % 0x1_0000) + Bytes16(w / 0x1_0000)
  }

  function Word32(b: seq<byte>): word
    requires |b| == 4
  {
    Word16(b[..2]) + 0x1_0000 * Word16(b[2..])
  }

  lemma Word16RoundTrip(w: nat)
    requires w < 0x1_0000
    ensures Word16(Bytes16(w)) == w
  {
  }

  lemma Word32RoundTrip(w: word)
    ensures Word32(Bytes32(w)) == w
  {
    assert Bytes32(w)[..2] == Bytes16(w % 0x1_0000);
    assert Bytes32(w)[2..] == Bytes16(w / 0x1_0000);
  }
}
