/** Little-endian integers inside a page.  The loader runs on x86
    (`CONFIG_ARCH_X86`), so the 64-bit fields of an extent table and the
    `size_t` length prefix of a compressed block are stored least significant
    byte first. */
module LittleEndian {
  import opened Types

  function Pow256(k: nat): (p: nat)
    ensures p >= 1
  {
    if k == 0 then 1 else 256 * Pow256(k - 1)
  }

  /** 2^64, the modulus of a `size_t` / two's-complement `loff_t`. */
  const Two64: nat := 0x1_0000_0000_0000_0000

  /** The values a signed 64-bit integer can hold. */
  predicate IsInt64(s: int) {
    -0x8000_0000_0000_0000 <= s < 0x8000_0000_0000_0000
  }

  /** The unsigned value of a little-endian byte string. */
  function Decode(b: seq<byte>): (v: nat)
    ensures v < Pow256(|b|)
  {
    if |b| == 0 then 0 else b[0] + 256 * Decode(b[1..])
  }

  /** The `k` little-endian bytes of `v`; the inverse of `Decode`. */
  function Encode(v: nat, k: nat): (b: seq<byte>)
    requires v < Pow256(k)
    ensures |b| == k
  {
    if k == 0 then [] else [(v % 256) as byte] + Encode(v / 256, k - 1)
  }

  /** Reading back what was written yields the original value. */
  lemma {:induction false} DecodeEncode(v: nat, k: nat)
    requires v < Pow256(k)
    ensures Decode(Encode(v, k)) == v
  {
    if k > 0 {
      DecodeEncode(v / 256, k - 1);
      assert Encode(v, k)[1..] == Encode(v / 256, k - 1);
    }
  }

  /** Writing out what was read yields the original bytes. */
  lemma {:induction false} EncodeDecode(b: seq<byte>)
    ensures Encode(Decode(b), |b|) == b
  {
    if |b| > 0 {
      EncodeDecode(b[1..]);
      assert Decode(b) % 256 == b[0];
      assert Decode(b) / 256 == Decode(b[1..]);
    }
  }

  /** `k` bytes of 0xFF hold the largest `k`-byte value. */
  lemma {:induction false} DecodeAllOnes(b: seq<byte>)
    requires forall i :: 0 <= i < |b| ==> b[i] == 0xFF
    ensures Decode(b) == Pow256(|b|) - 1
  {
    if |b| > 0 {
      DecodeAllOnes(b[1..]);
    }
  }

  lemma Pow256Of8()
    ensures Pow256(8) == Two64
  {
  }

  /** A signed 64-bit `loff_t` stored in two's complement. */
  function ToSigned64(u: nat): (s: int)
    requires u < Two64
    ensures IsInt64(s)
    ensures s % Two64 == u % Two64
  {
    if u < Two64 / 2 then u else u - Two64
  }

  /** The two's-complement bit pattern of a signed 64-bit value. */
  function FromSigned64(s: int): (u: nat)
    requires IsInt64(s)
    ensures u < Two64
    ensures ToSigned64(u) == s
  {
    if s >= 0 then s else s + Two64
  }

  /** The signed 64-bit value stored in eight little-endian bytes. */
  function DecodeInt64(b: seq<byte>): (s: int)
    requires |b| == 8
    ensures IsInt64(s)
  {
    Pow256Of8();
    ToSigned64(Decode(b))
  }

  /** The eight little-endian bytes of a signed 64-bit value. */
  function EncodeInt64(s: int): (b: seq<byte>)
    requires IsInt64(s)
    ensures |b| == 8
  {
    Pow256Of8();
    Encode(FromSigned64(s), 8)
  }

  lemma Int64RoundTrip(s: int)
    requires IsInt64(s)
    ensures DecodeInt64(EncodeInt64(s)) == s
  {
    Pow256Of8();
    DecodeEncode(FromSigned64(s), 8);
  }
}
