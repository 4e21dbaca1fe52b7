/** Bytes and the 32-bit little-endian length word (`Size`) that frames every record. */
module Bytes {

  newtype byte = b: int | 0 <= b < 256

  /** The width in bytes of a `Size` word (`unsafe.Sizeof(size)` in the source). */
  const SizeWidth: nat := 4

  /** 2^32, the first length a `Size` (a uint32) cannot hold. */
  const SizeLimit: nat := 0x1_0000_0000

  /** The conversion to `Size`: keeps the low 32 bits, so a length of 2^32 or more wraps. */
  function ToSize(n: nat): (r: nat)
    ensures r < SizeLimit
    ensures n < SizeLimit ==> r == n
  {
    n % SizeLimit
  }

  /** The `width` low bytes of `n`, least significant first (little-endian). */
  function EncodeLE(n: nat, width: nat): (r: seq<byte>)
    ensures |r| == width
  {
    if width == 0 then [] else [(n % 256) as byte] + EncodeLE(n / 256, width - 1)
  }

  /** The number whose little-endian bytes are `b`. */
  function DecodeLE(b: seq<byte>): (n: nat)
    ensures n < Pow256(|b|)
  {
    if b == [] then 0 else b[0] as int + 256 * DecodeLE(b[1..])
  }

  function Pow256(width: nat): (r: nat)
    ensures r > 0
  {
    if width == 0 then 1 else 256 * Pow256(width - 1)
  }

  /** `binary.Write(w, binary.LittleEndian, Size(n))`. */
  function EncodeU32(n: nat): (r: seq<byte>)
    requires n < SizeLimit
    ensures |r| == SizeWidth
  {
    EncodeLE(n, SizeWidth)
  }

  /** `binary.Read(r, binary.LittleEndian, &size)` on four bytes. */
  function DecodeU32(b: seq<byte>): (n: nat)
    requires |b| == SizeWidth
    ensures n < SizeLimit
  {
    assert Pow256(SizeWidth) == SizeLimit;
    DecodeLE(b)
  }

  /** Decoding the `width` low bytes of `n` gives `n` back when `n` fits in them. */
  lemma {:induction false} DecodeEncodeLE(n: nat, width: nat)
    requires n < Pow256(width)
    ensures DecodeLE(EncodeLE(n, width)) == n
  {
    if width > 0 {
      DecodeEncodeLE(n / 256, width - 1);
      assert EncodeLE(n, width)[1..] == EncodeLE(n / 256, width - 1);
    }
  }

  /** Encoding what a byte sequence decodes to, at its own width, gives the bytes back. */
  lemma {:induction false} EncodeDecodeLE(b: seq<byte>)
    ensures EncodeLE(DecodeLE(b), |b|) == b
  {
    if b != [] {
      EncodeDecodeLE(b[1..]);
      var n := DecodeLE(b);
      assert n % 256 == b[0] as int && n / 256 == DecodeLE(b[1..]);
    }
  }

  /** Decoding undoes encoding for every length a `Size` can hold. */
  lemma DecodeEncode(n: nat)
    requires n < SizeLimit
    ensures DecodeU32(EncodeU32(n)) == n
  {
    assert Pow256(SizeWidth) == SizeLimit;
    DecodeEncodeLE(n, SizeWidth);
  }

  /** Encoding undoes decoding: every four-byte word is the encoding of exactly one length. */
  lemma EncodeDecode(b: seq<byte>)
    requires |b| == SizeWidth
    ensures EncodeU32(DecodeU32(b)) == b
  {
    EncodeDecodeLE(b);
  }

  /** Two lengths that encode to the same word are equal. */
  lemma EncodeInjective(m: nat, n: nat)
    requires m < SizeLimit && n < SizeLimit
    requires EncodeU32(m) == EncodeU32(n)
    ensures m == n
  {
    DecodeEncode(m);
    DecodeEncode(n);
  }
}
