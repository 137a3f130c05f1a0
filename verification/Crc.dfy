/**
 * CRC-16 of section 6.2.2 of the MODBUS over Serial Line Specification and Implementation Guide
 * V1.02, as protocol/codec.py computes it: it is the reference checksum, and it detects errors.
 */
module Crc {
  import opened Gf2
  import opened CrcBits

  // ----- The code's checksum, and that it is the reference one -----

  function StepN(c: bv16, n: nat): bv16
    decreases n
  {
    if n == 0 then c else StepN(Step(c), n - 1)
  }

  function CrcFrom(c: bv16, payload: seq<Byte>): bv16
    decreases |payload|
  {
    if payload == [] then c else CrcFrom(StepN(c ^ (payload[0] as bv16), 8), payload[1..])
  }

  function CrcOf(payload: seq<Byte>): bv16 {
    CrcFrom(0xFFFF, payload)
  }

  method Crc16(payload: seq<Byte>) returns (crc: bv16)
    ensures crc == CrcOf(payload)
  {
    hide Step;
    crc := 0xFFFF;
    for i := 0 to |payload|
      invariant CrcFrom(crc, payload[i..]) == CrcOf(payload)
    {
      ghost var start := crc ^ (payload[i] as bv16);
      crc := crc ^ (payload[i] as bv16);
      for j := 0 to 8
        invariant StepN(crc, 8 - j) == StepN(start, 8)
      {
        crc := Step(crc);
      }
      assert payload[i..][1..] == payload[i + 1..];
    }
  }

  lemma {:induction false} StepNIsShiftN(c: bv16, n: nat)
    ensures ToRegister(StepN(c, n)) == ShiftN(ToRegister(c), n)
    decreases n
  {
    hide BitAt, Shift, ToRegister;
    if n > 0 {
      ToRegisterShift(c);
      StepNIsShiftN(Step(c), n - 1);
    }
  }

  lemma {:induction false} CrcFromIsFeed(c: bv16, payload: seq<Byte>)
    ensures ToRegister(CrcFrom(c, payload)) == Feed(ToRegister(c), Bits(payload))
    decreases |payload|
  {
    hide BitAt, Shift, ToRegister, Step, Xor, Pad;
    if payload != [] {
      var b := payload[0];
      ToRegisterXorByte(c, b);
      StepNIsShiftN(c ^ (b as bv16), 8);
      FeedWindow(ToRegister(c), BitsOf(b));
      FeedAppend(ToRegister(c), BitsOf(b), Bits(payload[1..]));
      CrcFromIsFeed(StepN(c ^ (b as bv16), 8), payload[1..]);
    }
  }

  lemma AllOnes()
    ensures ToRegister(0xFFFF) == INITIAL && ToRegister(0) == Zeros(WIDTH)
  {
    assert forall k :: 0 <= k < WIDTH ==> BitAt(0xFFFF, MASKS[k]);
  }

  /** The table-free loop computes the register of the reference definition. */
  lemma CrcIsReference(payload: seq<Byte>)
    ensures ToRegister(CrcOf(payload)) == Feed(INITIAL, Bits(payload))
  {
    hide BitAt, ToRegister;
    AllOnes();
    CrcFromIsFeed(0xFFFF, payload);
  }

  // ----- Frames -----

  function AppendCrc(payload: seq<Byte>): seq<Byte> {
    payload + [Low(CrcOf(payload)), High(CrcOf(payload))]
  }

  predicate ValidCrc(frame: seq<Byte>) {
    |frame| >= 3 && CrcOf(frame[..|frame| - 2]) == Word(frame[|frame| - 2], frame[|frame| - 1])
  }

  /** The register after a payload and a trailing word is zero exactly when the word is the checksum. */
  lemma ResidueOf(payload: seq<Byte>, low: Byte, high: Byte)
    ensures Feed(INITIAL, Bits(payload + [low, high])) == Zeros(WIDTH) <==> CrcOf(payload) == Word(low, high)
  {
    hide BitAt, ToRegister, BitsOf, Low, High, Word;
    var r := Feed(INITIAL, Bits(payload));
    var tail := BitsOf(low) + BitsOf(high);
    BitsAppend(payload, [low, high]);
    assert Bits([low, high]) == tail by {
      assert [low, high][1..] == [high];
      assert [high][1..] == [];
    }
    FeedAppend(INITIAL, Bits(payload), tail);
    FeedWindow(r, tail);
    assert Pad(tail) == tail;
    ShiftNZero(Xor(r, tail), WIDTH);
    CrcIsReference(payload);
    WordIsLittleEndian(low, high);
    XorIsZero(r, tail);
    if r == tail {
      ToRegisterInjective(CrcOf(payload), Word(low, high));
    }
  }

  /** A frame's checksum is right exactly when feeding the whole frame leaves the register zero. */
  lemma ValidIsZeroResidue(frame: seq<Byte>)
    requires |frame| >= 3
    ensures ValidCrc(frame) <==> CrcOf(frame) == 0
    ensures ValidCrc(frame) <==> Feed(INITIAL, Bits(frame)) == Zeros(WIDTH)
  {
    var n := |frame| - 2;
    TrailingWord(frame);
    hide *;
    ResidueOf(frame[..n], frame[n], frame[n + 1]);
    CrcIsReference(frame);
    ZeroRegister(CrcOf(frame));
  }

  lemma TrailingWord(frame: seq<Byte>)
    requires |frame| >= 3
    ensures var n := |frame| - 2;
      frame == frame[..n] + [frame[n], frame[n + 1]] && (ValidCrc(frame) <==> CrcOf(frame[..n]) == Word(frame[n], frame[n + 1]))
  {
    hide Word, CrcOf;
  }

  lemma ZeroRegister(c: bv16)
    ensures ToRegister(c) == Zeros(WIDTH) <==> c == 0
  {
    hide BitAt, ToRegister;
    AllOnes();
    if ToRegister(c) == Zeros(WIDTH) {
      ToRegisterInjective(c, 0);
    }
  }

  /** Appending the checksum leaves a zero residue, whatever the payload. */
  lemma AppendedResidueIsZero(payload: seq<Byte>)
    ensures CrcOf(AppendCrc(payload)) == 0
    ensures payload != [] ==> ValidCrc(AppendCrc(payload))
  {
    hide BitAt, ToRegister, Low, High, Word;
    var c := CrcOf(payload);
    WordSplits(c);
    ResidueOf(payload, Low(c), High(c));
    CrcIsReference(AppendCrc(payload));
    ZeroRegister(CrcOf(AppendCrc(payload)));
    assert AppendCrc(payload)[..|payload|] == payload;
  }

  // ----- Error detection -----

  function ErrorBits(frame: seq<Byte>, received: seq<Byte>): (e: Vector)
    requires |frame| == |received|
    ensures |e| == 8 * |frame|
  {
    Xor(Bits(frame), Bits(received))
  }

  lemma ErrorsAre(frame: seq<Byte>, received: seq<Byte>)
    requires |frame| == |received|
    ensures ErrorBits(frame, received) == Xor(Bits(frame), Bits(received))
  {
  }

  /** Exactly which alterations of a valid frame go unnoticed: those whose own residue is zero. */
  lemma UndetectedExactly(frame: seq<Byte>, received: seq<Byte>)
    requires ValidCrc(frame) && |received| == |frame|
    ensures ValidCrc(received) <==> Feed(Zeros(WIDTH), ErrorBits(frame, received)) == Zeros(WIDTH)
  {
    assert |frame| >= 3;
    hide *;
    ValidIsZeroResidue(frame);
    ValidIsZeroResidue(received);
    FeedXor(INITIAL, INITIAL, Bits(frame), Bits(received));
    XorIsZero(INITIAL, INITIAL);
    ErrorsAre(frame, received);
    XorIsZero(Feed(INITIAL, Bits(frame)), Feed(INITIAL, Bits(received)));
  }

  /** Any odd number of flipped bits is detected. */
  lemma OddErrorsDetected(frame: seq<Byte>, received: seq<Byte>)
    requires ValidCrc(frame) && |received| == |frame|
    requires Odd(ErrorBits(frame, received))
    ensures !ValidCrc(received)
  {
    hide ValidCrc;
    UndetectedExactly(frame, received);
    FeedParity(Zeros(WIDTH), ErrorBits(frame, received));
    OddZeros(WIDTH);
  }

  /** Any burst of errors within sixteen consecutive bits is detected, wherever it falls. */
  lemma BurstErrorsDetected(frame: seq<Byte>, received: seq<Byte>, start: nat)
    requires ValidCrc(frame) && |received| == |frame|
    requires Burst(ErrorBits(frame, received), start)
    ensures !ValidCrc(received)
  {
    hide ValidCrc;
    UndetectedExactly(frame, received);
    BurstLeavesResidue(ErrorBits(frame, received), start);
  }

  /** The worked example of the specification: the bytes 02 07 are followed by 41 12. */
  lemma SpecificationExample()
    ensures AppendCrc([0x02, 0x07]) == [0x02, 0x07, 0x41, 0x12]
  {
    FirstByteOfExample();
    SecondByteOfExample();
    var payload: seq<Byte> := [0x02, 0x07];
    assert payload[1..] == [0x07] && payload[1..][1..] == [];
    hide StepN;
    assert CrcOf(payload) == 0x1241;
  }

  lemma FirstByteOfExample()
    ensures StepN(0xFFFF ^ (0x02 as Byte as bv16), 8) == 0x813E
  {
    assert Step(0xFFFD) == 0xDFFF && Step(0xDFFF) == 0xCFFE && Step(0xCFFE) == 0x67FF && Step(0x67FF) == 0x93FE;
    assert Step(0x93FE) == 0x49FF && Step(0x49FF) == 0x84FE && Step(0x84FE) == 0x427F && Step(0x427F) == 0x813E;
    EightSteps(0xFFFD, 0xDFFF, 0xCFFE, 0x67FF, 0x93FE, 0x49FF, 0x84FE, 0x427F, 0x813E);
  }

  lemma SecondByteOfExample()
    ensures StepN(0x813E ^ (0x07 as Byte as bv16), 8) == 0x1241
  {
    assert Step(0x8139) == 0xE09D && Step(0xE09D) == 0xD04F && Step(0xD04F) == 0xC826 && Step(0xC826) == 0x6413;
    assert Step(0x6413) == 0x9208 && Step(0x9208) == 0x4904 && Step(0x4904) == 0x2482 && Step(0x2482) == 0x1241;
    EightSteps(0x8139, 0xE09D, 0xD04F, 0xC826, 0x6413, 0x9208, 0x4904, 0x2482, 0x1241);
  }

  lemma EightSteps(a: bv16, b: bv16, c: bv16, d: bv16, e: bv16, f: bv16, g: bv16, h: bv16, i: bv16)
    requires Step(a) == b && Step(b) == c && Step(c) == d && Step(d) == e
    requires Step(e) == f && Step(f) == g && Step(g) == h && Step(h) == i
    ensures StepN(a, 8) == i
  {
    hide Step;
    assert StepN(h, 1) == i && StepN(g, 2) == i && StepN(f, 3) == i && StepN(e, 4) == i;
    assert StepN(d, 5) == i && StepN(c, 6) == i && StepN(b, 7) == i;
  }
}
