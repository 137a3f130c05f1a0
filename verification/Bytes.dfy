/** Bytes as numbers, and as the bit vectors the checksum works on, related bit by bit. */
module Bytes {
  import CrcBits

  type Byte = n: int | 0 <= n < 256
  type Word = n: int | 0 <= n < 65536

  function Pow2(k: nat): nat {
    if k == 0 then 1 else 2 * Pow2(k - 1)
  }

  /** Lowest bit first. */
  function FromBits(bits: seq<bool>): (n: nat)
    ensures n < Pow2(|bits|)
  {
    if bits == [] then 0 else (if bits[0] then 1 else 0) + 2 * FromBits(bits[1..])
  }

  function ToBits(n: nat, k: nat): (bits: seq<bool>)
    ensures |bits| == k
  {
    if k == 0 then [] else [n % 2 == 1] + ToBits(n / 2, k - 1)
  }

  lemma {:induction false} FromToBits(n: nat, k: nat)
    requires n < Pow2(k)
    ensures FromBits(ToBits(n, k)) == n
  {
    if k != 0 {
      FromToBits(n / 2, k - 1);
      assert ToBits(n, k)[1..] == ToBits(n / 2, k - 1);
    }
  }

  lemma {:induction false} ToFromBits(bits: seq<bool>)
    ensures ToBits(FromBits(bits), |bits|) == bits
  {
    if bits != [] {
      ToFromBits(bits[1..]);
      assert bits == [bits[0]] + bits[1..];
    }
  }

  function Pack(b0: bool, b1: bool, b2: bool, b3: bool, b4: bool, b5: bool, b6: bool, b7: bool): bv8 {
    (if b0 then 0x01 else 0) | (if b1 then 0x02 else 0) | (if b2 then 0x04 else 0) | (if b3 then 0x08 else 0)
    | (if b4 then 0x10 else 0) | (if b5 then 0x20 else 0) | (if b6 then 0x40 else 0) | (if b7 then 0x80 else 0)
  }

  function PackAll(bits: seq<bool>): bv8
    requires |bits| == 8
  {
    Pack(bits[0], bits[1], bits[2], bits[3], bits[4], bits[5], bits[6], bits[7])
  }

  function Vector(b: Byte): bv8 {
    PackAll(ToBits(b, 8))
  }

  function Number(v: bv8): Byte {
    assert Pow2(8) == 256;
    FromBits(CrcBits.BitsOf(v))
  }

  lemma PackedBits(b0: bool, b1: bool, b2: bool, b3: bool, b4: bool, b5: bool, b6: bool, b7: bool)
    ensures
      var bits := CrcBits.BitsOf(Pack(b0, b1, b2, b3, b4, b5, b6, b7));
      && bits[0] == b0 && bits[1] == b1 && bits[2] == b2 && bits[3] == b3
      && bits[4] == b4 && bits[5] == b5 && bits[6] == b6 && bits[7] == b7
  {
  }

  lemma PackOfBits(v: bv8)
    ensures PackAll(CrcBits.BitsOf(v)) == v
  {
  }

  lemma PackedAll(bits: seq<bool>)
    requires |bits| == 8
    ensures CrcBits.BitsOf(PackAll(bits)) == bits
  {
    hide Pack, CrcBits.BitsOf;
    PackedBits(bits[0], bits[1], bits[2], bits[3], bits[4], bits[5], bits[6], bits[7]);
    EightAlike(CrcBits.BitsOf(PackAll(bits)), bits);
  }

  lemma EightAlike(a: seq<bool>, b: seq<bool>)
    requires |a| == 8 && |b| == 8
    requires a[0] == b[0] && a[1] == b[1] && a[2] == b[2] && a[3] == b[3]
    requires a[4] == b[4] && a[5] == b[5] && a[6] == b[6] && a[7] == b[7]
    ensures a == b
  {
  }

  lemma EightBits()
    ensures Pow2(8) == 256
  {
  }

  lemma NumberOfVector(b: Byte)
    ensures Number(Vector(b)) == b
  {
    hide Pow2, PackAll, CrcBits.BitsOf, ToBits, FromBits;
    EightBits();
    FromToBits(b, 8);
    PackedAll(ToBits(b, 8));
  }

  lemma VectorOfNumber(v: bv8)
    ensures Vector(Number(v)) == v
  {
    hide Pack, ToBits, FromBits;
    ToFromBits(CrcBits.BitsOf(v));
    PackOfBits(v);
  }
}
