/** Bytes, and little-endian words made of them. */
module Bytes {

  type Byte = x: int | 0 <= x < 256
  type Half = x: int | 0 <= x < 0x1_0000
  type Word = x: int | 0 <= x < 0x1_0000_0000

  function WordBytes(w: Word): (b: seq<Byte>)
    ensures |b| == 4
  {
    [w % 256, w / 256 % 256, w / 0x1_0000 % 256, w / 0x100_0000]
  }

  function BytesWord(b: seq<Byte>): Word
    requires |b| == 4
  {
    b[0] as int + b[1] as int * 256 + b[2] as int * 0x1_0000 + b[3] as int * 0x100_0000
  }

  lemma WordRoundTrip(w: Word)
    ensures BytesWord(WordBytes(w)) == w
  {
    ByteAndRest(w, w / 256);
    ByteAndRest(w / 256, w / 0x1_0000);
    ByteAndRest(w / 0x1_0000, w / 0x100_0000);
  }

  /** The lowest byte of a number and the rest of it. */
  lemma ByteAndRest(x: nat, rest: nat)
    requires rest == x / 256
    ensures x == rest * 256 + x % 256
  {
  }

  function HalfBytes(h: Half): (b: seq<Byte>)
    ensures |b| == 2
  {
    [h % 256, h / 256]
  }

  function BytesHalf(b: seq<Byte>): Half
    requires |b| == 2
  {
    b[0] as int + b[1] as int * 256
  }

  lemma HalfRoundTrip(h: Half)
    ensures BytesHalf(HalfBytes(h)) == h
  {
  }

  function Zeros(n: nat): (z: seq<Byte>)
    ensures |z| == n
  {
    seq(n, i => 0)
  }
}
