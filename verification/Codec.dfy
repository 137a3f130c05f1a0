/**
 * The read-only PDUs of protocol/codec.py: sections 6.3, 6.4 and 6.21 of the MODBUS Application
 * Protocol Specification V1.1b3.
 */
module Codec {
  import opened Options
  import opened Text
  import opened Bytes

  datatype Error = InvalidArgument | Protocol | Device(functionCode: Byte, code: Byte) | Timeout | Closed

  datatype Result<+T> = Ok(value: T) | Err(error: Error)

  // ----- Register reads -----

  function BigEndian(w: Word): seq<Byte> {
    [w / 256, w % 256]
  }

  function FromBigEndian(high: Byte, low: Byte): Word {
    256 * high + low
  }

  function ReadRegistersPdu(functionCode: int, address: int, count: int): Result<seq<Byte>> {
    if functionCode != 0x03 && functionCode != 0x04 then Err(InvalidArgument)
    else if !(0 <= address <= 0xFFFF) then Err(InvalidArgument)
    else if !(1 <= count <= 125) then Err(InvalidArgument)
    else Ok([functionCode] + BigEndian(address) + BigEndian(count))
  }

  const READ_DEVICE_IDENTIFICATION: seq<Byte> := [0x2B, 0x0E, 0x01, 0x00]

  /** The address and count a request PDU names, as the observer of exchanges recovers them. */
  function RequestShape(pdu: seq<Byte>): Option<(Word, Word)> {
    if |pdu| >= 5 && (pdu[0] == 0x03 || pdu[0] == 0x04) then
      Some((FromBigEndian(pdu[1], pdu[2]), FromBigEndian(pdu[3], pdu[4])))
    else None
  }

  function WordsOf(bytes: seq<Byte>): (words: seq<Word>)
    ensures |words| == |bytes| / 2
  {
    if |bytes| < 2 then [] else [FromBigEndian(bytes[0], bytes[1])] + WordsOf(bytes[2..])
  }

  function BytesOf(words: seq<Word>): (bytes: seq<Byte>)
    ensures |bytes| == 2 * |words|
  {
    if words == [] then [] else BigEndian(words[0]) + BytesOf(words[1..])
  }

  function ParseRegisterResponse(pdu: seq<Byte>, functionCode: Byte, count: nat): Result<seq<Word>> {
    if |pdu| < 2 || pdu[0] != functionCode then Err(Protocol)
    else if pdu[1] != count * 2 || |pdu| - 2 != count * 2 then Err(Protocol)
    else Ok(WordsOf(pdu[2..]))
  }

  /** The response PDU a device sends for a list of register values. */
  function RegisterResponse(functionCode: Byte, words: seq<Word>): seq<Byte>
    requires |words| <= 127
  {
    [functionCode, 2 * |words|] + BytesOf(words)
  }

  lemma {:induction false} WordsRoundTrip(words: seq<Word>)
    ensures WordsOf(BytesOf(words)) == words
  {
    if words != [] {
      WordsRoundTrip(words[1..]);
      assert BytesOf(words)[2..] == BytesOf(words[1..]);
    }
  }

  lemma {:induction false} BytesRoundTrip(bytes: seq<Byte>)
    requires |bytes| % 2 == 0
    ensures BytesOf(WordsOf(bytes)) == bytes
  {
    if |bytes| >= 2 {
      BytesRoundTrip(bytes[2..]);
      assert bytes == bytes[..2] + bytes[2..];
    }
  }

  lemma ParsedIsResponse(pdu: seq<Byte>, functionCode: Byte, count: nat)
    requires count <= 127 && ParseRegisterResponse(pdu, functionCode, count).Ok?
    ensures pdu == RegisterResponse(functionCode, ParseRegisterResponse(pdu, functionCode, count).value)
  {
    BytesRoundTrip(pdu[2..]);
    assert pdu == [pdu[0], pdu[1]] + pdu[2..];
  }

  lemma ResponseParses(functionCode: Byte, words: seq<Word>)
    requires |words| <= 127
    ensures ParseRegisterResponse(RegisterResponse(functionCode, words), functionCode, |words|) == Ok(words)
  {
    WordsRoundTrip(words);
    assert RegisterResponse(functionCode, words)[2..] == BytesOf(words);
  }

  /** A register response is accepted exactly when it is the encoding of the words it parses to. */
  lemma RegisterResponseExactly(pdu: seq<Byte>, functionCode: Byte, count: nat, words: seq<Word>)
    requires count <= 127
    ensures ParseRegisterResponse(pdu, functionCode, count) == Ok(words) <==>
            |words| == count && pdu == RegisterResponse(functionCode, words)
  {
    if ParseRegisterResponse(pdu, functionCode, count) == Ok(words) {
      ParsedIsResponse(pdu, functionCode, count);
    }
    if |words| == count && pdu == RegisterResponse(functionCode, words) {
      ResponseParses(functionCode, words);
    }
  }

  // ----- Device identification -----

  datatype Object = Object(id: Byte, bytes: seq<Byte>)

  datatype Identification = Identification(conformity: Byte, objects: seq<Object>)

  /** The object list from a cursor on, and where it ends; `None` when the bytes run out. */
  function ObjectsFrom(pdu: seq<Byte>, cursor: nat, count: nat): Option<(seq<Object>, nat)>
    decreases count
  {
    if count == 0 then Some(([], cursor))
    else if cursor + 2 > |pdu| then None
    else
      var length := pdu[cursor + 1];
      if cursor + 2 + length > |pdu| then None
      else
        var rest := ObjectsFrom(pdu, cursor + 2 + length, count - 1);
        if rest.None? then None
        else Some(([Object(pdu[cursor], pdu[cursor + 2..cursor + 2 + length])] + rest.value.0, rest.value.1))
  }

  function IdentificationOf(pdu: seq<Byte>): Result<Identification> {
    if |pdu| < 7 then Err(Protocol)
    else if pdu[..3] != [0x2B, 0x0E, 0x01] then Err(Protocol)
    else
      var objects := ObjectsFrom(pdu, 7, pdu[6]);
      if objects.None? || objects.value.1 != |pdu| then Err(Protocol)
      else Ok(Identification(pdu[3], objects.value.0))
  }

  /** What the whole walk yields, from the objects read so far and the walk that is left. */
  function Joined(before: seq<Object>, rest: Option<(seq<Object>, nat)>): Option<(seq<Object>, nat)> {
    if rest.None? then None else Some((before + rest.value.0, rest.value.1))
  }

  lemma JoinedStep(before: seq<Object>, pdu: seq<Byte>, cursor: nat, left: nat)
    requires left > 0 && cursor + 2 <= |pdu| && cursor + 2 + pdu[cursor + 1] <= |pdu|
    ensures var end := cursor + 2 + pdu[cursor + 1];
      Joined(before, ObjectsFrom(pdu, cursor, left)) ==
      Joined(before + [Object(pdu[cursor], pdu[cursor + 2..end])], ObjectsFrom(pdu, end, left - 1))
  {
    var end := cursor + 2 + pdu[cursor + 1];
    var o := Object(pdu[cursor], pdu[cursor + 2..end]);
    var rest := ObjectsFrom(pdu, end, left - 1);
    assert rest.Some? ==> (before + [o]) + rest.value.0 == before + ([o] + rest.value.0);
  }

  /** The parser's loop over a moving cursor. */
  method ParseDeviceIdentification(pdu: seq<Byte>) returns (r: Result<Identification>)
    ensures r == IdentificationOf(pdu)
  {
    if |pdu| < 7 || pdu[..3] != [0x2B, 0x0E, 0x01] {
      return Err(Protocol);
    }
    var cursor, objects := 7, [];
    var count := pdu[6];
    ghost var all := ObjectsFrom(pdu, 7, count);
    assert all.Some? ==> [] + all.value.0 == all.value.0;
    for i := 0 to count
      invariant 7 <= cursor <= |pdu|
      invariant all == Joined(objects, ObjectsFrom(pdu, cursor, count - i))
    {
      if cursor + 2 > |pdu| {
        return Err(Protocol);
      }
      var id, length := pdu[cursor], pdu[cursor + 1];
      if cursor + 2 + length > |pdu| {
        return Err(Protocol);
      }
      JoinedStep(objects, pdu, cursor, count - i);
      cursor := cursor + 2;
      objects := objects + [Object(id, pdu[cursor..cursor + length])];
      cursor := cursor + length;
    }
    assert objects + [] == objects;
    if cursor != |pdu| {
      return Err(Protocol);
    }
    r := Ok(Identification(pdu[3], objects));
  }

  function EncodeObjects(objects: seq<Object>): seq<Byte>
    requires forall o :: o in objects ==> |o.bytes| < 256
  {
    if objects == [] then []
    else [objects[0].id, |objects[0].bytes|] + objects[0].bytes + EncodeObjects(objects[1..])
  }

  predicate Encodable(objects: seq<Object>) {
    |objects| < 256 && forall o :: o in objects ==> |o.bytes| < 256
  }

  function EncodeIdentification(i: Identification, more: Byte, next: Byte): seq<Byte>
    requires Encodable(i.objects)
  {
    [0x2B, 0x0E, 0x01, i.conformity, more, next, |i.objects|] + EncodeObjects(i.objects)
  }

  function HeadOf(o: Object): seq<Byte>
    requires |o.bytes| < 256
  {
    [o.id, |o.bytes|] + o.bytes
  }

  lemma ObjectAt(prefix: seq<Byte>, o: Object, tail: seq<Byte>, pdu: seq<Byte>)
    requires |o.bytes| < 256 && pdu == prefix + HeadOf(o) + tail
    ensures |pdu| >= |prefix| + 2 + |o.bytes|
    ensures pdu[|prefix|] == o.id && pdu[|prefix| + 1] == |o.bytes|
    ensures pdu[|prefix| + 2..|prefix| + 2 + |o.bytes|] == o.bytes
  {
  }

  lemma {:induction false} ObjectsRoundTrip(prefix: seq<Byte>, objects: seq<Object>)
    requires forall o :: o in objects ==> |o.bytes| < 256
    ensures ObjectsFrom(prefix + EncodeObjects(objects), |prefix|, |objects|)
         == Some((objects, |prefix| + |EncodeObjects(objects)|))
    decreases |objects|
  {
    hide HeadOf, ObjectsFrom, EncodeObjects;
    if objects == [] {
      NoObjects(prefix);
    } else {
      var o, tail := objects[0], EncodeObjects(objects[1..]);
      EncodeHead(objects);
      var pdu := prefix + EncodeObjects(objects);
      assert pdu == prefix + HeadOf(o) + tail;
      ObjectsRoundTrip(prefix + HeadOf(o), objects[1..]);
      HeadSize(o);
      ObjectsStep(prefix, o, tail, pdu, |objects|);
      assert [o] + objects[1..] == objects;
    }
  }

  lemma NoObjects(prefix: seq<Byte>)
    ensures EncodeObjects([]) == [] && ObjectsFrom(prefix + EncodeObjects([]), |prefix|, 0) == Some(([], |prefix|))
  {
  }

  lemma HeadSize(o: Object)
    requires |o.bytes| < 256
    ensures |HeadOf(o)| == 2 + |o.bytes|
  {
  }

  lemma EncodeHead(objects: seq<Object>)
    requires objects != [] && forall o :: o in objects ==> |o.bytes| < 256
    ensures EncodeObjects(objects) == HeadOf(objects[0]) + EncodeObjects(objects[1..])
  {
  }

  lemma ObjectsStep(prefix: seq<Byte>, o: Object, tail: seq<Byte>, pdu: seq<Byte>, count: nat)
    requires |o.bytes| < 256 && pdu == prefix + HeadOf(o) + tail && count > 0
    requires ObjectsFrom(pdu, |prefix| + 2 + |o.bytes|, count - 1).Some?
    ensures var rest := ObjectsFrom(pdu, |prefix| + 2 + |o.bytes|, count - 1).value;
      ObjectsFrom(pdu, |prefix|, count) == Some(([o] + rest.0, rest.1))
  {
    ObjectAt(prefix, o, tail, pdu);
  }

  lemma {:induction false} ObjectsAreEncoded(pdu: seq<Byte>, cursor: nat, count: nat)
    requires cursor <= |pdu| && ObjectsFrom(pdu, cursor, count).Some?
    ensures var (objects, end) := ObjectsFrom(pdu, cursor, count).value;
      && |objects| == count && cursor <= end <= |pdu|
      && (forall o :: o in objects ==> |o.bytes| < 256)
      && pdu[cursor..end] == EncodeObjects(objects)
    decreases count
  {
    if count != 0 {
      var length := pdu[cursor + 1];
      ObjectsAreEncoded(pdu, cursor + 2 + length, count - 1);
      var (objects, end) := ObjectsFrom(pdu, cursor, count).value;
      assert pdu[cursor..end] ==
        [pdu[cursor], pdu[cursor + 1]] + pdu[cursor + 2..cursor + 2 + length] + pdu[cursor + 2 + length..end];
      assert objects[1..] == ObjectsFrom(pdu, cursor + 2 + length, count - 1).value.0;
    }
  }

  lemma ParsedIsEncoded(pdu: seq<Byte>)
    requires IdentificationOf(pdu).Ok?
    ensures Encodable(IdentificationOf(pdu).value.objects)
    ensures pdu == EncodeIdentification(IdentificationOf(pdu).value, pdu[4], pdu[5])
  {
    ObjectsAreEncoded(pdu, 7, pdu[6]);
    assert pdu == pdu[..3] + [pdu[3], pdu[4], pdu[5], pdu[6]] + pdu[7..];
  }

  lemma EncodedParses(i: Identification, more: Byte, next: Byte)
    requires Encodable(i.objects)
    ensures IdentificationOf(EncodeIdentification(i, more, next)) == Ok(i)
  {
    var prefix := [0x2B, 0x0E, 0x01, i.conformity, more, next, |i.objects|];
    ObjectsRoundTrip(prefix, i.objects);
    assert EncodeIdentification(i, more, next)[..3] == [0x2B, 0x0E, 0x01];
  }

  /** The parser accepts exactly the encodings of object lists, and returns the list encoded. */
  lemma IdentificationExactly(pdu: seq<Byte>, i: Identification)
    ensures IdentificationOf(pdu) == Ok(i) <==>
            Encodable(i.objects) && exists more, next :: pdu == EncodeIdentification(i, more, next)
  {
    if IdentificationOf(pdu) == Ok(i) {
      ParsedIsEncoded(pdu);
    }
    if Encodable(i.objects) {
      if more, next :| pdu == EncodeIdentification(i, more, next) {
        EncodedParses(i, more, next);
      }
    }
  }

  // ----- Object text -----

  /** Bytes outside ASCII become the replacement character; surrounding whitespace is dropped. */
  function TextOf(bytes: seq<Byte>): string {
    Strip(seq(|bytes|, i requires 0 <= i < |bytes| => if bytes[i] < 128 then bytes[i] as char else '\U{FFFD}'))
  }

  /** The text of the last object with an id, or the empty string. */
  function TextFor(objects: seq<Object>, id: Byte): string {
    if objects == [] then ""
    else
      var last := objects[|objects| - 1];
      if last.id == id then TextOf(last.bytes) else TextFor(objects[..|objects| - 1], id)
  }

  /** That is: the text of object `k`, if no later object has its id. */
  lemma {:induction false} TextForExactly(objects: seq<Object>, k: nat)
    requires k < |objects| && forall j :: k < j < |objects| ==> objects[j].id != objects[k].id
    ensures TextFor(objects, objects[k].id) == TextOf(objects[k].bytes)
  {
    hide TextOf;
    if k < |objects| - 1 {
      TextForExactly(objects[..|objects| - 1], k);
    }
  }

  /** Which requests are sent at all, and that the bytes tell them apart. */
  lemma RequestAcceptedExactly(functionCode: int, address: int, count: int)
    ensures ReadRegistersPdu(functionCode, address, count).Ok? <==>
      functionCode in {0x03, 0x04} && 0 <= address < 0x1_0000 && 1 <= count <= 125
    ensures ReadRegistersPdu(functionCode, address, count).Ok? ==>
      var pdu := ReadRegistersPdu(functionCode, address, count).value;
      |pdu| == 5 && pdu[0] == functionCode && RequestShape(pdu) == Some((address, count))
  {
  }
}
