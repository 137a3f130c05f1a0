/**
 * The RTU receiver of transports/modbus.py. It walks a byte stream without knowing where the frame
 * ends; the parsers of `Codec` walk the bytes it returns, knowing only where they end.
 */
module Rtu {
  import opened Options
  import opened Bytes
  import opened Codec
  import Crc
  import CrcBits

  // ----- Frames -----

  function Vectors(payload: seq<Byte>): (v: seq<bv8>)
    ensures |v| == |payload| && forall i :: 0 <= i < |v| ==> v[i] == Vector(payload[i])
  {
    seq(|payload|, i requires 0 <= i < |payload| => Vector(payload[i]))
  }

  function AppendCrc(payload: seq<Byte>): seq<Byte> {
    var c := Crc.CrcOf(Vectors(payload));
    payload + [Number(CrcBits.Low(c)), Number(CrcBits.High(c))]
  }

  predicate ValidCrc(frame: seq<Byte>) {
    Crc.ValidCrc(Vectors(frame))
  }

  function Frame(unit: Byte, pdu: seq<Byte>): seq<Byte> {
    AppendCrc([unit] + pdu)
  }

  lemma AppendedIsValid(payload: seq<Byte>)
    requires payload != []
    ensures ValidCrc(AppendCrc(payload))
  {
    hide Crc.CrcOf, CrcBits.Low, CrcBits.High, Crc.ValidCrc, Number, Vector;
    var c := Crc.CrcOf(Vectors(payload));
    VectorOfNumber(CrcBits.Low(c));
    VectorOfNumber(CrcBits.High(c));
    assert Vectors(AppendCrc(payload)) == Crc.AppendCrc(Vectors(payload));
    Crc.AppendedResidueIsZero(Vectors(payload));
  }

  /** The last two bytes of a valid frame are the checksum of the rest. */
  lemma ValidIsAppended(frame: seq<Byte>)
    requires ValidCrc(frame)
    ensures |frame| >= 3 && frame == AppendCrc(frame[..|frame| - 2])
  {
    hide Crc.CrcOf, CrcBits.Low, CrcBits.High, CrcBits.Word, Number, Vector;
    var n := |frame| - 2;
    assert Vectors(frame)[..n] == Vectors(frame[..n]);
    CrcBits.WordJoins(Vector(frame[n]), Vector(frame[n + 1]));
    NumberOfVector(frame[n]);
    NumberOfVector(frame[n + 1]);
  }

  // ----- What the receiver does with a stream -----

  /** `consumed` counts the bytes taken from the stream, whatever the result. */
  datatype Received = Received(result: Result<seq<Byte>>, consumed: nat)

  /** Where `count` length-prefixed objects end; `None` when the stream runs out first. */
  function ObjectsEnd(s: seq<Byte>, cursor: nat, count: nat): (end: Option<nat>)
    ensures end.Some? && cursor <= |s| ==> cursor <= end.value <= |s|
    decreases count
  {
    if count == 0 then Some(cursor)
    else if cursor + 2 > |s| || cursor + 2 + s[cursor + 1] > |s| then None
    else ObjectsEnd(s, cursor + 2 + s[cursor + 1], count - 1)
  }

  function Checked(s: seq<Byte>, size: nat, functionCode: Byte): Received
    requires 4 <= size
  {
    if size > |s| then Received(Err(Timeout), |s|)
    else if !ValidCrc(s[..size]) then Received(Err(Protocol), size)
    else if s[1] != functionCode then Received(Err(Protocol), size)
    else Received(Ok(s[1..size - 2]), size)
  }

  lemma CheckedPrefix(s: seq<Byte>, size: nat, functionCode: Byte)
    requires 4 <= size <= |s|
    ensures Checked(s[..size], size, functionCode) == Checked(s, size, functionCode)
  {
    hide ValidCrc;
    assert s[..size][..size] == s[..size];
    assert s[..size][1..size - 2] == s[1..size - 2];
  }

  /** One exchange over the bytes a device sends, for a request of the given unit and function. */
  function Receive(unit: Byte, functionCode: Byte, s: seq<Byte>): Received {
    if |s| < 2 then Received(Err(Timeout), |s|)
    else if s[0] != unit then Received(Err(Protocol), 2)
    else if s[1] >= 0x80 then
      if |s| < 5 then Received(Err(Timeout), |s|)
      else if !ValidCrc(s[..5]) then Received(Err(Protocol), 5)
      else Received(Err(Device(s[1] - 0x80, s[2])), 5)
    else if s[1] == 0x03 || s[1] == 0x04 then
      if |s| < 3 then Received(Err(Timeout), |s|)
      else Checked(s, (s[2] as int) + 5, functionCode)
    else if s[1] == 0x2B then
      if |s| < 8 then Received(Err(Timeout), |s|)
      else if s[2] != 0x0E || s[3] != 0x01 then Received(Err(Protocol), 8)
      else
        var end := ObjectsEnd(s, 8, s[7]);
        if end.None? then Received(Err(Timeout), |s|) else Checked(s, end.value + 2, functionCode)
    else Received(Err(Protocol), 2)
  }

  /** The PDUs a receiver can return: register data of its declared size, and parseable identifications. */
  predicate WellFormed(pdu: seq<Byte>) {
    || (|pdu| >= 2 && (pdu[0] == 0x03 || pdu[0] == 0x04) && |pdu| == (pdu[1] as int) + 2)
    || IdentificationOf(pdu).Ok?
  }

  /** The two walks agree: on the stream up to the end of the objects, and on the PDU inside it. */
  lemma {:induction false} WalksAgree(s: seq<Byte>, n: nat, cursor: nat, count: nat)
    requires 1 <= cursor <= n <= |s|
    ensures ObjectsEnd(s, cursor, count) == Some(n) <==>
            ObjectsFrom(s[1..n], cursor - 1, count).Some? && ObjectsFrom(s[1..n], cursor - 1, count).value.1 == n - 1
    decreases count
  {
    var pdu := s[1..n];
    if count != 0 && cursor + 2 <= |s| && cursor + 2 + s[cursor + 1] <= |s| {
      var next := cursor + 2 + s[cursor + 1];
      if next <= n {
        assert pdu[cursor] == s[cursor + 1];
        WalksAgree(s, n, next, count - 1);
      }
    }
  }

  /**
   * Whatever the stream, a PDU that is returned is well formed and of the requested function, the
   * bytes taken are exactly its frame, and a device identification parses up to its last byte.
   */
  lemma ReceivedIsWellFormed(unit: Byte, functionCode: Byte, s: seq<Byte>)
    requires Receive(unit, functionCode, s).result.Ok?
    ensures var r := Receive(unit, functionCode, s); var pdu := r.result.value;
      && WellFormed(pdu) && pdu[0] == functionCode
      && r.consumed == |pdu| + 3 <= |s|
      && s[..r.consumed] == Frame(unit, pdu)
  {
    hide ValidCrc, AppendCrc, IdentificationOf;
    var r := Receive(unit, functionCode, s);
    var pdu := r.result.value;
    var n := r.consumed;
    ValidIsAppended(s[..n]);
    assert pdu == s[1..n - 2] && s[0] == unit;
    assert s[..n][..n - 2] == [s[0]] + s[1..n - 2];
    if s[1] == 0x2B {
      IdentificationInside(s, n - 2);
    }
  }

  /** Between the unit byte and the checksum lies exactly what the parser accepts. */
  lemma IdentificationInside(s: seq<Byte>, n: nat)
    requires 8 <= n <= |s| && s[1] == 0x2B && s[2] == 0x0E && s[3] == 0x01
    ensures ObjectsEnd(s, 8, s[7]) == Some(n) <==> IdentificationOf(s[1..n]).Ok?
  {
    WalksAgree(s, n, 8, s[7]);
    assert s[1..n][..3] == [0x2B, 0x0E, 0x01];
  }

  lemma {:induction false} ObjectsEndPrefix(s: seq<Byte>, rest: seq<Byte>, cursor: nat, count: nat)
    requires ObjectsEnd(s, cursor, count).Some? && cursor <= |s|
    ensures ObjectsEnd(s + rest, cursor, count) == ObjectsEnd(s, cursor, count)
    decreases count
  {
    if count != 0 {
      ObjectsEndPrefix(s, rest, cursor + 2 + s[cursor + 1], count - 1);
    }
  }

  /** A framed well-formed PDU is received as sent, and nothing after the frame is touched. */
  lemma FramedIsReceived(unit: Byte, pdu: seq<Byte>, rest: seq<Byte>)
    requires WellFormed(pdu)
    ensures Receive(unit, pdu[0], Frame(unit, pdu) + rest) == Received(Ok(pdu), |pdu| + 3)
  {
    hide ValidCrc, IdentificationOf, Vector, Number, ObjectsEnd;
    var frame := Frame(unit, pdu);
    var s := frame + rest;
    AppendedIsValid([unit] + pdu);
    assert frame[..|pdu| + 1] == [unit] + pdu;
    assert s[..|pdu| + 3] == frame;
    assert s[1..|pdu| + 1] == pdu;
    if IdentificationOf(pdu).Ok? {
      IdentificationSize(pdu);
      IdentificationInside(s, |pdu| + 1);
    }
  }

  lemma IdentificationSize(pdu: seq<Byte>)
    requires IdentificationOf(pdu).Ok?
    ensures |pdu| >= 7 && pdu[0] == 0x2B && pdu[1] == 0x0E && pdu[2] == 0x01
  {
  }

  lemma FramePrefixIsReceived(unit: Byte, pdu: seq<Byte>, s: seq<Byte>)
    requires WellFormed(pdu) && Frame(unit, pdu) <= s
    ensures Receive(unit, pdu[0], s) == Received(Ok(pdu), |pdu| + 3)
  {
    hide WellFormed, Receive, Frame;
    var rest := s[|Frame(unit, pdu)|..];
    assert s == Frame(unit, pdu) + rest;
    FramedIsReceived(unit, pdu, rest);
  }

  /** Receiver and parsers accept the same PDUs, in both directions and for every stream. */
  lemma ReceiverAcceptsExactly(unit: Byte, functionCode: Byte, s: seq<Byte>, pdu: seq<Byte>)
    ensures Receive(unit, functionCode, s) == Received(Ok(pdu), |pdu| + 3) <==>
            WellFormed(pdu) && pdu[0] == functionCode && Frame(unit, pdu) <= s
  {
    hide Receive, Frame;
    if WellFormed(pdu) && pdu[0] == functionCode && Frame(unit, pdu) <= s {
      FramePrefixIsReceived(unit, pdu, s);
    }
    if Receive(unit, functionCode, s) == Received(Ok(pdu), |pdu| + 3) {
      ReceivedIsWellFormed(unit, functionCode, s);
    }
  }

  /** A device error is reported exactly for an undamaged exception frame, with its function and code. */
  lemma ExceptionExactly(unit: Byte, functionCode: Byte, s: seq<Byte>, f: Byte, code: Byte)
    ensures Receive(unit, functionCode, s).result == Err(Device(f, code)) <==>
            f < 0x80 && AppendCrc([unit, 0x80 + f, code]) <= s
    ensures Receive(unit, functionCode, s).result == Err(Device(f, code)) ==> Receive(unit, functionCode, s).consumed == 5
  {
    hide ValidCrc, AppendCrc, ObjectsEnd;
    if f < 0x80 {
      var payload := [unit, 0x80 + f, code];
      AppendedIsValid(payload);
      AppendedShape(payload);
      if AppendCrc(payload) <= s {
        assert s[..5] == AppendCrc(payload) && AppendCrc(payload)[..3] == payload;
        assert s[0] == payload[0] && s[1] == payload[1] && s[2] == payload[2];
      }
    }
    if Receive(unit, functionCode, s).result == Err(Device(f, code)) {
      ValidIsAppended(s[..5]);
      assert s[..5][..3] == [unit, 0x80 + f, code];
    }
  }

  lemma AppendedShape(payload: seq<Byte>)
    ensures |AppendCrc(payload)| == |payload| + 2 && AppendCrc(payload)[..|payload|] == payload
  {
    hide Vector, Number, Crc.CrcOf;
  }

  /** Once something other than a timeout is decided, no later byte changes it or is taken. */
  lemma DecidedForGood(unit: Byte, functionCode: Byte, s: seq<Byte>, rest: seq<Byte>)
    requires Receive(unit, functionCode, s).result != Err(Timeout)
    ensures Receive(unit, functionCode, s + rest) == Receive(unit, functionCode, s)
  {
    hide ValidCrc, ObjectsEnd;
    var t := s + rest;
    assert t[..2] == s[..2];
    if s[0] == unit && s[1] >= 0x80 {
      assert t[..5] == s[..5];
    } else if s[0] == unit && (s[1] == 0x03 || s[1] == 0x04) {
      CheckedContinues(s, rest, (s[2] as int) + 5, functionCode);
    } else if s[0] == unit && s[1] == 0x2B && s[2] == 0x0E && s[3] == 0x01 {
      ObjectsEndPrefix(s, rest, 8, s[7]);
      CheckedContinues(s, rest, ObjectsEnd(s, 8, s[7]).value + 2, functionCode);
    }
  }

  lemma CheckedContinues(s: seq<Byte>, rest: seq<Byte>, size: nat, functionCode: Byte)
    requires 4 <= size && Checked(s, size, functionCode).result != Err(Timeout)
    ensures Checked(s + rest, size, functionCode) == Checked(s, size, functionCode)
  {
    assert (s + rest)[..size] == s[..size];
    assert (s + rest)[1..size - 2] == s[1..size - 2];
  }

  lemma {:induction false} ObjectsEndInTime(s: seq<Byte>, cursor: nat, count: nat)
    requires cursor + 257 * count <= |s|
    ensures ObjectsEnd(s, cursor, count).Some? && ObjectsEnd(s, cursor, count).value <= cursor + 257 * count
    decreases count
  {
    if count != 0 {
      ObjectsEndInTime(s, cursor + 2 + s[cursor + 1], count - 1);
    }
  }

  /** No response is longer than an identification of 255 objects of 255 bytes. */
  const LONGEST := 8 + 257 * 255 + 2

  /** A timeout means that the bytes ran out: all were taken, and some longer stream is decided. */
  lemma TimeoutMeansTooFew(unit: Byte, functionCode: Byte, s: seq<Byte>)
    requires Receive(unit, functionCode, s).result == Err(Timeout)
    ensures Receive(unit, functionCode, s).consumed == |s| < LONGEST
    ensures forall rest :: |s + rest| >= LONGEST ==> Receive(unit, functionCode, s + rest).result != Err(Timeout)
  {
    EnoughDecides(unit, functionCode, s);
    forall rest: seq<Byte> | |s + rest| >= LONGEST
      ensures Receive(unit, functionCode, s + rest).result != Err(Timeout)
    {
      EnoughDecides(unit, functionCode, s + rest);
    }
    hide ValidCrc, ObjectsEnd;
  }

  lemma EnoughDecides(unit: Byte, functionCode: Byte, s: seq<Byte>)
    ensures |s| >= LONGEST ==> Receive(unit, functionCode, s).result != Err(Timeout)
  {
    if |s| >= LONGEST {
      ObjectsEndInTime(s, 8, s[7]);
    }
    hide ValidCrc, ObjectsEnd;
  }

  /** A frame that is still incomplete is waited for, wherever it breaks off. */
  lemma IncompleteFrameIsAwaited(unit: Byte, pdu: seq<Byte>, s: seq<Byte>)
    requires WellFormed(pdu) && s < Frame(unit, pdu)
    ensures Receive(unit, pdu[0], s) == Received(Err(Timeout), |s|)
  {
    var frame := Frame(unit, pdu);
    var rest := frame[|s|..];
    assert frame == s + rest && frame + [] == frame;
    FramedIsReceived(unit, pdu, []);
    FrameSize(unit, pdu);
    TakesWhatIsThere(unit, pdu[0], s);
    hide Receive, WellFormed, Frame;
    if Receive(unit, pdu[0], s).result != Err(Timeout) {
      DecidedForGood(unit, pdu[0], s, rest);
    } else {
      TimeoutMeansTooFew(unit, pdu[0], s);
    }
  }

  lemma FrameSize(unit: Byte, pdu: seq<Byte>)
    ensures |Frame(unit, pdu)| == |pdu| + 3
  {
    AppendedShape([unit] + pdu);
  }

  lemma TakesWhatIsThere(unit: Byte, functionCode: Byte, s: seq<Byte>)
    ensures Receive(unit, functionCode, s).consumed <= |s|
  {
    hide ValidCrc, ObjectsEnd;
  }

  /** Any list of 1 to 125 words survives encoding, framing, receiving and parsing. */
  lemma RegistersRoundTrip(unit: Byte, functionCode: Byte, words: seq<Word>, rest: seq<Byte>)
    requires functionCode == 0x03 || functionCode == 0x04
    requires 1 <= |words| <= 125
    ensures var r := Receive(unit, functionCode, Frame(unit, RegisterResponse(functionCode, words)) + rest);
      r.result.Ok? && ParseRegisterResponse(r.result.value, functionCode, |words|) == Ok(words)
  {
    FramedIsReceived(unit, RegisterResponse(functionCode, words), rest);
    ResponseParses(functionCode, words);
  }

  /** So does any list of identification objects. */
  lemma IdentificationRoundTrip(unit: Byte, i: Identification, more: Byte, next: Byte, rest: seq<Byte>)
    requires Encodable(i.objects)
    ensures var r := Receive(unit, 0x2B, Frame(unit, EncodeIdentification(i, more, next)) + rest);
      r.result.Ok? && IdentificationOf(r.result.value) == Ok(i)
  {
    EncodedParses(i, more, next);
    FramedIsReceived(unit, EncodeIdentification(i, more, next), rest);
  }

  // ----- The receiver itself -----

  /** A serial port with the bytes that will arrive; a read may return any part of what is asked for. */
  class SerialPort {
    const input: seq<Byte>
    var position: nat

    ghost predicate Valid()
      reads this
    {
      position <= |input|
    }

    constructor (input: seq<Byte>)
      ensures this.input == input && position == 0 && Valid()
    {
      this.input := input;
      position := 0;
    }

    method Read(size: nat, atMost: nat) returns (chunk: seq<Byte>)
      requires Valid() && size > 0
      modifies this
      ensures Valid() && |chunk| <= size
      ensures position == old(position) + |chunk| && chunk == input[old(position)..position]
      ensures chunk == [] <==> old(position) == |input|
    {
      var n := if 0 < atMost < size then atMost else size;
      if position + n > |input| {
        n := |input| - position;
      }
      chunk := input[position..position + n];
      position := position + n;
    }

    /** Collects chunks until the size is reached; a port with no more bytes runs into the deadline. */
    method ReadExact(size: nat) returns (payload: Option<seq<Byte>>)
      requires Valid()
      modifies this
      ensures Valid()
      ensures payload.Some? <==> old(position) + size <= |input|
      ensures payload.Some? ==> position == old(position) + size && payload.value == input[old(position)..position]
      ensures payload.None? ==> position == |input|
    {
      var collected: seq<Byte> := [];
      while |collected| < size
        invariant Valid() && |collected| <= size
        invariant position == old(position) + |collected| && collected == input[old(position)..position]
        decreases size - |collected|
      {
        var atMost :| 0 <= atMost;
        var chunk := Read(size - |collected|, atMost);
        if chunk == [] {
          return None;
        }
        collected := collected + chunk;
      }
      payload := Some(collected);
    }
  }

  class RtuClient {
    const unit: Byte
    const port: SerialPort

    constructor (unit: Byte, port: SerialPort)
      ensures this.unit == unit && this.port == port
    {
      this.unit, this.port := unit, port;
    }

    /** Reads one response piece by piece; the result and the bytes taken are those of `Receive`. */
    method ExchangeBlocking(functionCode: Byte) returns (result: Result<seq<Byte>>)
      requires port.position == 0
      modifies port
      ensures port.Valid()
      ensures Received(result, port.position) == Receive(unit, functionCode, port.input)
    {
      hide ValidCrc, ObjectsEnd;
      var prefix := port.ReadExact(2);
      if prefix.None? {
        return Err(Timeout);
      }
      if prefix.value[0] != unit {
        return Err(Protocol);
      }
      var code := prefix.value[1];
      if code >= 0x80 {
        result := ReceiveException(prefix.value);
      } else if code == 0x03 || code == 0x04 {
        var count := port.ReadExact(1);
        if count.None? {
          return Err(Timeout);
        }
        var data := port.ReadExact((count.value[0] as int) + 2);
        if data.None? {
          return Err(Timeout);
        }
        assert prefix.value + count.value + data.value == port.input[..port.position];
        CheckedPrefix(port.input, port.position, functionCode);
        result := Check(prefix.value + count.value + data.value, functionCode);
      } else if code == 0x2B {
        result := ReceiveIdentification(prefix.value, functionCode);
      } else {
        result := Err(Protocol);
      }
    }

    method ReceiveException(prefix: seq<Byte>) returns (result: Result<seq<Byte>>)
      requires port.Valid() && port.position == 2 && prefix == port.input[..2]
      requires prefix[0] == unit && prefix[1] >= 0x80
      modifies port
      ensures port.Valid() && forall f :: Received(result, port.position) == Receive(unit, f, port.input)
    {
      var tail := port.ReadExact(3);
      if tail.None? {
        return Err(Timeout);
      }
      assert prefix + tail.value == port.input[..5];
      if !ValidCrc(prefix + tail.value) {
        return Err(Protocol);
      }
      result := Err(Device(prefix[1] - 0x80, tail.value[0]));
    }

    method ReceiveIdentification(prefix: seq<Byte>, functionCode: Byte) returns (result: Result<seq<Byte>>)
      requires port.Valid() && port.position == 2 && prefix == port.input[..2]
      requires prefix[0] == unit && prefix[1] == 0x2B
      modifies port
      ensures port.Valid() && Received(result, port.position) == Receive(unit, functionCode, port.input)
    {
      hide ValidCrc, ObjectsEnd;
      var fixed := port.ReadExact(6);
      if fixed.None? {
        return Err(Timeout);
      }
      if fixed.value[0] != 0x0E || fixed.value[1] != 0x01 {
        return Err(Protocol);
      }
      var objects := ReadObjects(fixed.value[5]);
      if objects.None? {
        return Err(Timeout);
      }
      var crc := port.ReadExact(2);
      if crc.None? {
        return Err(Timeout);
      }
      assert prefix + fixed.value + objects.value + crc.value == port.input[..port.position];
      CheckedPrefix(port.input, port.position, functionCode);
      result := Check(prefix + fixed.value + objects.value + crc.value, functionCode);
    }

    method ReadObjects(count: nat) returns (objects: Option<seq<Byte>>)
      requires port.Valid()
      modifies port
      ensures port.Valid()
      ensures objects.Some? <==> ObjectsEnd(port.input, old(port.position), count).Some?
      ensures objects.Some? ==> ObjectsEnd(port.input, old(port.position), count) == Some(port.position)
      ensures old(port.position) <= port.position
      ensures objects.Some? ==> objects.value == port.input[old(port.position)..port.position]
      ensures objects.None? ==> port.position == |port.input|
    {
      var collected: seq<Byte> := [];
      for i := 0 to count
        invariant port.Valid() && port.position == old(port.position) + |collected|
        invariant collected == port.input[old(port.position)..port.position]
        invariant ObjectsEnd(port.input, port.position, count - i) == ObjectsEnd(port.input, old(port.position), count)
      {
        hide Vector, Number;
        var header := port.ReadExact(2);
        if header.None? {
          return None;
        }
        var value := port.ReadExact(header.value[1]);
        if value.None? {
          return None;
        }
        collected := collected + header.value + value.value;
      }
      objects := Some(collected);
    }

    static method Check(response: seq<Byte>, functionCode: Byte) returns (result: Result<seq<Byte>>)
      requires |response| >= 4
      ensures Received(result, |response|) == Checked(response, |response|, functionCode)
    {
      assert response[..|response|] == response;
      if !ValidCrc(response) {
        return Err(Protocol);
      }
      var pdu := response[1..|response| - 2];
      if pdu[0] != functionCode {
        return Err(Protocol);
      }
      result := Ok(pdu);
    }
  }
}
