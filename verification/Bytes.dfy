/** Bytes and little-endian numbers. */
module Bytes {

  type Byte = b: int | 0 <= b < 256

  function Power256(n: nat): nat {
    if n == 0 then 1 else 256 * Power256(n - 1)
  }

  /** The number a little-endian byte string stands for. */
  function LittleEndian(bytes: seq<Byte>): (v: nat)
    ensures v < Power256(|bytes|)
  {
    if bytes == [] then 0 else bytes[0] + 256 * LittleEndian(bytes[1..])
  }

  function ToBytes(v: nat, n: nat): (bytes: seq<Byte>)
    ensures |bytes| == n
  {
    if n == 0 then [] else [v % 256] + ToBytes(v / 256, n - 1)
  }

  /** Byte `i` of a number. */
  function ByteOf(v: nat, i: nat): Byte
    decreases i
  {
    if i == 0 then v % 256 else ByteOf(v / 256, i - 1)
  }

  lemma {:induction false} ByteOfLittleEndian(bytes: seq<Byte>, i: nat)
    requires i < |bytes|
    ensures ByteOf(LittleEndian(bytes), i) == bytes[i]
  {
    if i > 0 {
      ByteOfLittleEndian(bytes[1..], i - 1);
    }
  }

  lemma {:induction false} BytesRoundTrip(v: nat, n: nat)
    requires v < Power256(n)
    ensures LittleEndian(ToBytes(v, n)) == v
  {
    if n > 0 {
      BytesRoundTrip(v / 256, n - 1);
      assert ToBytes(v, n)[1..] == ToBytes(v / 256, n - 1);
    }
  }

  lemma {:induction false} NumberRoundTrip(bytes: seq<Byte>)
    ensures ToBytes(LittleEndian(bytes), |bytes|) == bytes
  {
    if bytes != [] {
      NumberRoundTrip(bytes[1..]);
      assert bytes == [bytes[0]] + bytes[1..];
    }
  }
}
