/** Bytes and sixteen-bit words as bit vectors, against the bits of the reference register. */
module CrcBits {
  import opened Gf2

  type Byte = bv8

  // ----- Bytes and words -----

  function BitsOf(b: Byte): (v: Vector)
    ensures |v| == 8
  {
    [b & 1 != 0, b & 2 != 0, b & 4 != 0, b & 8 != 0, b & 16 != 0, b & 32 != 0, b & 64 != 0, b & 128 != 0]
  }

  function Bits(payload: seq<Byte>): (bits: Vector)
    ensures |bits| == 8 * |payload|
  {
    if payload == [] then [] else BitsOf(payload[0]) + Bits(payload[1..])
  }

  lemma {:induction false} BitsAppend(p: seq<Byte>, q: seq<Byte>)
    ensures Bits(p + q) == Bits(p) + Bits(q)
  {
    if p == [] {
      assert p + q == q;
    } else {
      assert (p + q)[1..] == p[1..] + q;
      BitsAppend(p[1..], q);
    }
  }

  predicate BitAt(w: bv16, mask: bv16) {
    w & mask != 0
  }

  const MASKS: seq<bv16> := [1, 2, 4, 8, 16, 32, 64, 128, 256, 512, 1024, 2048, 4096, 8192, 16384, 32768]

  predicate At(w: bv16, k: nat)
    requires k < WIDTH
  {
    BitAt(w, MASKS[k])
  }

  function ToRegister(w: bv16): Register {
    seq(WIDTH, k requires 0 <= k < WIDTH => At(w, k))
  }

  // Raw facts about single bits are proved on their own, all sixteen at once: the solver is slow when
  // bit-vector operations and sequences meet in one proof. The tables below turn them into facts about `At`.

  lemma ShiftBits(c: bv16)
    ensures (BitAt(c >> 1, 1) == BitAt(c, 2)) && (BitAt(c >> 1, 2) == BitAt(c, 4))
         && (BitAt(c >> 1, 4) == BitAt(c, 8)) && (BitAt(c >> 1, 8) == BitAt(c, 16))
    ensures (BitAt(c >> 1, 16) == BitAt(c, 32)) && (BitAt(c >> 1, 32) == BitAt(c, 64))
         && (BitAt(c >> 1, 64) == BitAt(c, 128)) && (BitAt(c >> 1, 128) == BitAt(c, 256))
    ensures (BitAt(c >> 1, 256) == BitAt(c, 512)) && (BitAt(c >> 1, 512) == BitAt(c, 1024))
         && (BitAt(c >> 1, 1024) == BitAt(c, 2048)) && (BitAt(c >> 1, 2048) == BitAt(c, 4096))
    ensures (BitAt(c >> 1, 4096) == BitAt(c, 8192)) && (BitAt(c >> 1, 8192) == BitAt(c, 16384))
         && (BitAt(c >> 1, 16384) == BitAt(c, 32768)) && (BitAt(c >> 1, 32768) == false)
  {
  }

  lemma PolynomialBits(s: bv16)
    ensures (BitAt(s ^ 0xA001, 1) == !BitAt(s, 1)) && (BitAt(s ^ 0xA001, 2) == BitAt(s, 2))
         && (BitAt(s ^ 0xA001, 4) == BitAt(s, 4)) && (BitAt(s ^ 0xA001, 8) == BitAt(s, 8))
    ensures (BitAt(s ^ 0xA001, 16) == BitAt(s, 16)) && (BitAt(s ^ 0xA001, 32) == BitAt(s, 32))
         && (BitAt(s ^ 0xA001, 64) == BitAt(s, 64)) && (BitAt(s ^ 0xA001, 128) == BitAt(s, 128))
    ensures (BitAt(s ^ 0xA001, 256) == BitAt(s, 256)) && (BitAt(s ^ 0xA001, 512) == BitAt(s, 512))
         && (BitAt(s ^ 0xA001, 1024) == BitAt(s, 1024)) && (BitAt(s ^ 0xA001, 2048) == BitAt(s, 2048))
    ensures (BitAt(s ^ 0xA001, 4096) == BitAt(s, 4096)) && (BitAt(s ^ 0xA001, 8192) == !BitAt(s, 8192))
         && (BitAt(s ^ 0xA001, 16384) == BitAt(s, 16384)) && (BitAt(s ^ 0xA001, 32768) == !BitAt(s, 32768))
  {
  }

  lemma XorByteBits(c: bv16, b: Byte)
    ensures (BitAt(c ^ (b as bv16), 1) == (BitAt(c, 1) != BitAt(b as bv16, 1))) && (BitAt(c ^ (b as bv16), 2) == (BitAt(c, 2) != BitAt(b as bv16, 2)))
         && (BitAt(c ^ (b as bv16), 4) == (BitAt(c, 4) != BitAt(b as bv16, 4))) && (BitAt(c ^ (b as bv16), 8) == (BitAt(c, 8) != BitAt(b as bv16, 8)))
    ensures (BitAt(c ^ (b as bv16), 16) == (BitAt(c, 16) != BitAt(b as bv16, 16))) && (BitAt(c ^ (b as bv16), 32) == (BitAt(c, 32) != BitAt(b as bv16, 32)))
         && (BitAt(c ^ (b as bv16), 64) == (BitAt(c, 64) != BitAt(b as bv16, 64))) && (BitAt(c ^ (b as bv16), 128) == (BitAt(c, 128) != BitAt(b as bv16, 128)))
    ensures (BitAt(c ^ (b as bv16), 256) == (BitAt(c, 256) != BitAt(b as bv16, 256))) && (BitAt(c ^ (b as bv16), 512) == (BitAt(c, 512) != BitAt(b as bv16, 512)))
         && (BitAt(c ^ (b as bv16), 1024) == (BitAt(c, 1024) != BitAt(b as bv16, 1024))) && (BitAt(c ^ (b as bv16), 2048) == (BitAt(c, 2048) != BitAt(b as bv16, 2048)))
    ensures (BitAt(c ^ (b as bv16), 4096) == (BitAt(c, 4096) != BitAt(b as bv16, 4096))) && (BitAt(c ^ (b as bv16), 8192) == (BitAt(c, 8192) != BitAt(b as bv16, 8192)))
         && (BitAt(c ^ (b as bv16), 16384) == (BitAt(c, 16384) != BitAt(b as bv16, 16384))) && (BitAt(c ^ (b as bv16), 32768) == (BitAt(c, 32768) != BitAt(b as bv16, 32768)))
  {
  }

  lemma RawWideBits(b: Byte)
    ensures (BitAt(b as bv16, 1) <==> b & 1 != 0) && (BitAt(b as bv16, 2) <==> b & 2 != 0)
    ensures (BitAt(b as bv16, 4) <==> b & 4 != 0) && (BitAt(b as bv16, 8) <==> b & 8 != 0)
    ensures (BitAt(b as bv16, 16) <==> b & 16 != 0) && (BitAt(b as bv16, 32) <==> b & 32 != 0)
    ensures (BitAt(b as bv16, 64) <==> b & 64 != 0) && (BitAt(b as bv16, 128) <==> b & 128 != 0)
  {
  }

  lemma RawWideZeros(b: Byte)
    ensures (BitAt(b as bv16, 256) == false) && (BitAt(b as bv16, 512) == false)
         && (BitAt(b as bv16, 1024) == false) && (BitAt(b as bv16, 2048) == false)
    ensures (BitAt(b as bv16, 4096) == false) && (BitAt(b as bv16, 8192) == false)
         && (BitAt(b as bv16, 16384) == false) && (BitAt(b as bv16, 32768) == false)
  {
  }

  lemma WideBits(b: Byte)
    ensures (BitAt(b as bv16, 1) == BitsOf(b)[0]) && (BitAt(b as bv16, 2) == BitsOf(b)[1])
         && (BitAt(b as bv16, 4) == BitsOf(b)[2]) && (BitAt(b as bv16, 8) == BitsOf(b)[3])
    ensures (BitAt(b as bv16, 16) == BitsOf(b)[4]) && (BitAt(b as bv16, 32) == BitsOf(b)[5])
         && (BitAt(b as bv16, 64) == BitsOf(b)[6]) && (BitAt(b as bv16, 128) == BitsOf(b)[7])
    ensures (BitAt(b as bv16, 256) == false) && (BitAt(b as bv16, 512) == false)
         && (BitAt(b as bv16, 1024) == false) && (BitAt(b as bv16, 2048) == false)
    ensures (BitAt(b as bv16, 4096) == false) && (BitAt(b as bv16, 8192) == false)
         && (BitAt(b as bv16, 16384) == false) && (BitAt(b as bv16, 32768) == false)
  {
    RawWideBits(b);
    RawWideZeros(b);
    hide BitAt;
  }

  lemma ByteTable(b: Byte, w: bv16)
    requires (BitAt(w, 1) == BitsOf(b)[0]) && (BitAt(w, 2) == BitsOf(b)[1])
          && (BitAt(w, 4) == BitsOf(b)[2]) && (BitAt(w, 8) == BitsOf(b)[3])
    requires (BitAt(w, 16) == BitsOf(b)[4]) && (BitAt(w, 32) == BitsOf(b)[5])
          && (BitAt(w, 64) == BitsOf(b)[6]) && (BitAt(w, 128) == BitsOf(b)[7])
    requires (BitAt(w, 256) == false) && (BitAt(w, 512) == false)
          && (BitAt(w, 1024) == false) && (BitAt(w, 2048) == false)
    requires (BitAt(w, 4096) == false) && (BitAt(w, 8192) == false)
          && (BitAt(w, 16384) == false) && (BitAt(w, 32768) == false)
    ensures ToRegister(w) == Pad(BitsOf(b))
  {
    hide BitAt, BitsOf;
    forall k | 0 <= k < WIDTH
      ensures ToRegister(w)[k] == Pad(BitsOf(b))[k]
    {
      if k < 8 {
        assert k == 0 || k == 1 || k == 2 || k == 3 || k == 4 || k == 5 || k == 6 || k == 7;
      }
    }
  }

  lemma ByteBits(b: Byte)
    ensures ToRegister(b as bv16) == Pad(BitsOf(b))
  {
    WideBits(b);
    hide BitAt;
    ByteTable(b, b as bv16);
  }

  lemma ShiftBitAt(c: bv16, k: nat)
    requires k < WIDTH
    ensures At(c >> 1, k) == (k < 15 && At(c, k + 1))
  {
    hide BitAt;
    ShiftBits(c);
    ShiftTable(c, c >> 1, k);
  }

  lemma ShiftTable(c: bv16, s: bv16, k: nat)
    requires k < WIDTH
    requires (BitAt(s, 1) == BitAt(c, 2)) && (BitAt(s, 2) == BitAt(c, 4))
          && (BitAt(s, 4) == BitAt(c, 8)) && (BitAt(s, 8) == BitAt(c, 16))
    requires (BitAt(s, 16) == BitAt(c, 32)) && (BitAt(s, 32) == BitAt(c, 64))
          && (BitAt(s, 64) == BitAt(c, 128)) && (BitAt(s, 128) == BitAt(c, 256))
    requires (BitAt(s, 256) == BitAt(c, 512)) && (BitAt(s, 512) == BitAt(c, 1024))
          && (BitAt(s, 1024) == BitAt(c, 2048)) && (BitAt(s, 2048) == BitAt(c, 4096))
    requires (BitAt(s, 4096) == BitAt(c, 8192)) && (BitAt(s, 8192) == BitAt(c, 16384))
          && (BitAt(s, 16384) == BitAt(c, 32768)) && (BitAt(s, 32768) == false)
    ensures At(s, k) == (k < 15 && At(c, k + 1))
  {
    hide BitAt;
    if k < 8 {
      if k < 4 {
        assert k == 0 || k == 1 || k == 2 || k == 3;
      }
    }
  }

  lemma PolynomialBitAt(s: bv16, k: nat)
    requires k < WIDTH
    ensures At(s ^ 0xA001, k) == (At(s, k) != POLYNOMIAL[k])
  {
    hide BitAt;
    PolynomialBits(s);
    PolynomialTable(s, s ^ 0xA001, k);
  }

  lemma PolynomialTable(s: bv16, x: bv16, k: nat)
    requires k < WIDTH
    requires (BitAt(x, 1) == !BitAt(s, 1)) && (BitAt(x, 2) == BitAt(s, 2))
          && (BitAt(x, 4) == BitAt(s, 4)) && (BitAt(x, 8) == BitAt(s, 8))
    requires (BitAt(x, 16) == BitAt(s, 16)) && (BitAt(x, 32) == BitAt(s, 32))
          && (BitAt(x, 64) == BitAt(s, 64)) && (BitAt(x, 128) == BitAt(s, 128))
    requires (BitAt(x, 256) == BitAt(s, 256)) && (BitAt(x, 512) == BitAt(s, 512))
          && (BitAt(x, 1024) == BitAt(s, 1024)) && (BitAt(x, 2048) == BitAt(s, 2048))
    requires (BitAt(x, 4096) == BitAt(s, 4096)) && (BitAt(x, 8192) == !BitAt(s, 8192))
          && (BitAt(x, 16384) == BitAt(s, 16384)) && (BitAt(x, 32768) == !BitAt(s, 32768))
    ensures At(x, k) == (At(s, k) != POLYNOMIAL[k])
  {
    hide BitAt;
  }

  lemma XorByteBitAt(c: bv16, b: Byte, k: nat)
    requires k < WIDTH
    ensures At(c ^ (b as bv16), k) == (At(c, k) != At(b as bv16, k))
  {
    hide BitAt;
    XorByteBits(c, b);
    XorTable(c, b as bv16, c ^ (b as bv16), k);
  }

  lemma XorTable(c: bv16, w: bv16, x: bv16, k: nat)
    requires k < WIDTH
    requires (BitAt(x, 1) == (BitAt(c, 1) != BitAt(w, 1))) && (BitAt(x, 2) == (BitAt(c, 2) != BitAt(w, 2)))
          && (BitAt(x, 4) == (BitAt(c, 4) != BitAt(w, 4))) && (BitAt(x, 8) == (BitAt(c, 8) != BitAt(w, 8)))
    requires (BitAt(x, 16) == (BitAt(c, 16) != BitAt(w, 16))) && (BitAt(x, 32) == (BitAt(c, 32) != BitAt(w, 32)))
          && (BitAt(x, 64) == (BitAt(c, 64) != BitAt(w, 64))) && (BitAt(x, 128) == (BitAt(c, 128) != BitAt(w, 128)))
    requires (BitAt(x, 256) == (BitAt(c, 256) != BitAt(w, 256))) && (BitAt(x, 512) == (BitAt(c, 512) != BitAt(w, 512)))
          && (BitAt(x, 1024) == (BitAt(c, 1024) != BitAt(w, 1024))) && (BitAt(x, 2048) == (BitAt(c, 2048) != BitAt(w, 2048)))
    requires (BitAt(x, 4096) == (BitAt(c, 4096) != BitAt(w, 4096))) && (BitAt(x, 8192) == (BitAt(c, 8192) != BitAt(w, 8192)))
          && (BitAt(x, 16384) == (BitAt(c, 16384) != BitAt(w, 16384))) && (BitAt(x, 32768) == (BitAt(c, 32768) != BitAt(w, 32768)))
    ensures At(x, k) == (At(c, k) != At(w, k))
  {
    hide BitAt;
  }

  function Step(c: bv16): bv16 {
    if BitAt(c, 1) then (c >> 1) ^ 0xA001 else c >> 1
  }

  lemma ShiftAssembled(c: bv16, s: bv16, x: bv16)
    requires forall k :: 0 <= k < WIDTH ==> At(s, k) == (k < 15 && At(c, k + 1))
    requires forall k :: 0 <= k < WIDTH ==> At(x, k) == (At(s, k) != POLYNOMIAL[k])
    ensures ToRegister(if BitAt(c, 1) then x else s) == Shift(ToRegister(c))
  {
    hide BitAt;
    var next := if BitAt(c, 1) then x else s;
    forall k | 0 <= k < WIDTH
      ensures ToRegister(next)[k] == Shift(ToRegister(c))[k]
    {
      var r := ToRegister(c);
      var shifted := r[1..] + [false];
      assert At(s, k) == (k < 15 && At(c, k + 1));
      if k < 15 {
        assert shifted[k] == r[k + 1] == At(c, k + 1);
      } else {
        assert shifted[k] == false;
      }
      assert r[0] == At(c, 0) && At(c, 0) == BitAt(c, 1);
      assert r[0] ==> Xor(shifted, POLYNOMIAL)[k] == At(x, k);
    }
  }

  /** The code's conditional shift is the reference shift. */
  lemma ToRegisterShift(c: bv16)
    ensures ToRegister(Step(c)) == Shift(ToRegister(c))
  {
    hide BitAt, ToRegister;
    var s, x := c >> 1, (c >> 1) ^ 0xA001;
    forall k | 0 <= k < WIDTH
      ensures At(s, k) == (k < 15 && At(c, k + 1))
      ensures At(x, k) == (At(s, k) != POLYNOMIAL[k])
    {
      ShiftBitAt(c, k);
      PolynomialBitAt(s, k);
    }
    ShiftAssembled(c, s, x);
  }

  lemma ToRegisterXorByte(c: bv16, b: Byte)
    ensures ToRegister(c ^ (b as bv16)) == Xor(ToRegister(c), Pad(BitsOf(b)))
  {
    ByteBits(b);
    hide BitAt;
    var mixed, wide := c ^ (b as bv16), b as bv16;
    forall k | 0 <= k < WIDTH
      ensures ToRegister(mixed)[k] == Xor(ToRegister(c), ToRegister(wide))[k]
    {
      XorByteBitAt(c, b, k);
    }
  }

  function Low(c: bv16): Byte { (c & 0xFF) as Byte }
  function High(c: bv16): Byte { (c >> 8) as Byte }
  function Word(low: Byte, high: Byte): bv16 { (low as bv16) | ((high as bv16) << 8) }

  lemma WordSplits(c: bv16)
    ensures Word(Low(c), High(c)) == c
  {
  }

  lemma WordJoins(low: Byte, high: Byte)
    ensures Low(Word(low, high)) == low && High(Word(low, high)) == high
  {
  }

  lemma RawLowBits(low: Byte, high: Byte)
    ensures (BitAt(Word(low, high), 1) <==> low & 1 != 0) && (BitAt(Word(low, high), 2) <==> low & 2 != 0)
    ensures (BitAt(Word(low, high), 4) <==> low & 4 != 0) && (BitAt(Word(low, high), 8) <==> low & 8 != 0)
    ensures (BitAt(Word(low, high), 16) <==> low & 16 != 0) && (BitAt(Word(low, high), 32) <==> low & 32 != 0)
    ensures (BitAt(Word(low, high), 64) <==> low & 64 != 0) && (BitAt(Word(low, high), 128) <==> low & 128 != 0)
  {
  }

  lemma RawHighBits(low: Byte, high: Byte)
    ensures (BitAt(Word(low, high), 256) <==> high & 1 != 0) && (BitAt(Word(low, high), 512) <==> high & 2 != 0)
    ensures (BitAt(Word(low, high), 1024) <==> high & 4 != 0) && (BitAt(Word(low, high), 2048) <==> high & 8 != 0)
    ensures (BitAt(Word(low, high), 4096) <==> high & 16 != 0) && (BitAt(Word(low, high), 8192) <==> high & 32 != 0)
    ensures (BitAt(Word(low, high), 16384) <==> high & 64 != 0) && (BitAt(Word(low, high), 32768) <==> high & 128 != 0)
  {
  }

  lemma WordLowBits(low: Byte, high: Byte)
    ensures (BitAt(Word(low, high), 1) == BitsOf(low)[0]) && (BitAt(Word(low, high), 2) == BitsOf(low)[1])
         && (BitAt(Word(low, high), 4) == BitsOf(low)[2]) && (BitAt(Word(low, high), 8) == BitsOf(low)[3])
    ensures (BitAt(Word(low, high), 16) == BitsOf(low)[4]) && (BitAt(Word(low, high), 32) == BitsOf(low)[5])
         && (BitAt(Word(low, high), 64) == BitsOf(low)[6]) && (BitAt(Word(low, high), 128) == BitsOf(low)[7])
  {
    RawLowBits(low, high);
    hide BitAt, Word;
  }

  lemma WordHighBits(low: Byte, high: Byte)
    ensures (BitAt(Word(low, high), 256) == BitsOf(high)[0]) && (BitAt(Word(low, high), 512) == BitsOf(high)[1])
         && (BitAt(Word(low, high), 1024) == BitsOf(high)[2]) && (BitAt(Word(low, high), 2048) == BitsOf(high)[3])
    ensures (BitAt(Word(low, high), 4096) == BitsOf(high)[4]) && (BitAt(Word(low, high), 8192) == BitsOf(high)[5])
         && (BitAt(Word(low, high), 16384) == BitsOf(high)[6]) && (BitAt(Word(low, high), 32768) == BitsOf(high)[7])
  {
    RawHighBits(low, high);
    hide BitAt, Word;
  }

  lemma LowTable(low: Vector, w: bv16, k: nat)
    requires |low| == 8 && k < 8
    requires (BitAt(w, 1) == low[0]) && (BitAt(w, 2) == low[1]) && (BitAt(w, 4) == low[2]) && (BitAt(w, 8) == low[3])
    requires (BitAt(w, 16) == low[4]) && (BitAt(w, 32) == low[5])
          && (BitAt(w, 64) == low[6]) && (BitAt(w, 128) == low[7])
    ensures At(w, k) == low[k]
  {
    hide BitAt;
    assert k == 0 || k == 1 || k == 2 || k == 3 || k == 4 || k == 5 || k == 6 || k == 7;
  }

  lemma HighTable(high: Vector, w: bv16, k: nat)
    requires |high| == 8 && 8 <= k < WIDTH
    requires (BitAt(w, 256) == high[0]) && (BitAt(w, 512) == high[1])
          && (BitAt(w, 1024) == high[2]) && (BitAt(w, 2048) == high[3])
    requires (BitAt(w, 4096) == high[4]) && (BitAt(w, 8192) == high[5])
          && (BitAt(w, 16384) == high[6]) && (BitAt(w, 32768) == high[7])
    ensures At(w, k) == high[k - 8]
  {
    hide BitAt;
    assert k == 8 || k == 9 || k == 10 || k == 11 || k == 12 || k == 13 || k == 14 || k == 15;
  }

  lemma WordTable(low: Vector, high: Vector, w: bv16)
    requires |low| == 8 && |high| == 8
    requires (forall k :: 0 <= k < 8 ==> At(w, k) == low[k]) && forall k :: 8 <= k < WIDTH ==> At(w, k) == high[k - 8]
    ensures ToRegister(w) == low + high
  {
    hide At;
    forall k | 0 <= k < WIDTH
      ensures ToRegister(w)[k] == (low + high)[k]
    {
    }
  }

  /** A word's register bits are those of its low byte followed by those of its high byte. */
  lemma WordIsLittleEndian(low: Byte, high: Byte)
    ensures ToRegister(Word(low, high)) == BitsOf(low) + BitsOf(high)
  {
    WordLowBits(low, high);
    WordHighBits(low, high);
    hide BitAt, Word, BitsOf;
    var w := Word(low, high);
    forall k | 0 <= k < 8
      ensures At(w, k) == BitsOf(low)[k]
    {
      LowTable(BitsOf(low), w, k);
    }
    forall k | 8 <= k < WIDTH
      ensures At(w, k) == BitsOf(high)[k - 8]
    {
      HighTable(BitsOf(high), w, k);
    }
    WordTable(BitsOf(low), BitsOf(high), w);
  }

  lemma SameBits(a: bv16, b: bv16)
    requires (BitAt(a, 1) == BitAt(b, 1)) && (BitAt(a, 2) == BitAt(b, 2))
          && (BitAt(a, 4) == BitAt(b, 4)) && (BitAt(a, 8) == BitAt(b, 8))
    requires (BitAt(a, 16) == BitAt(b, 16)) && (BitAt(a, 32) == BitAt(b, 32))
          && (BitAt(a, 64) == BitAt(b, 64)) && (BitAt(a, 128) == BitAt(b, 128))
    requires (BitAt(a, 256) == BitAt(b, 256)) && (BitAt(a, 512) == BitAt(b, 512))
          && (BitAt(a, 1024) == BitAt(b, 1024)) && (BitAt(a, 2048) == BitAt(b, 2048))
    requires (BitAt(a, 4096) == BitAt(b, 4096)) && (BitAt(a, 8192) == BitAt(b, 8192))
          && (BitAt(a, 16384) == BitAt(b, 16384)) && (BitAt(a, 32768) == BitAt(b, 32768))
    ensures a == b
  {
  }

  lemma ToRegisterInjective(a: bv16, b: bv16)
    requires ToRegister(a) == ToRegister(b)
    ensures a == b
  {
    hide BitAt;
    forall k | 0 <= k < WIDTH
      ensures BitAt(a, MASKS[k]) == BitAt(b, MASKS[k])
    {
      assert ToRegister(a)[k] == BitAt(a, MASKS[k]) && ToRegister(b)[k] == BitAt(b, MASKS[k]);
    }
    assert forall k :: k in MASKS ==> BitAt(a, k) == BitAt(b, k);
    SameBits(a, b);
  }
}
