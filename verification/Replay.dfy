/**
 * Recording exchanges at the transport boundary (transports/modbus.py) and replaying them
 * (capture/replay.py): a client program cannot tell the replay from the live device.
 */
module Replay {
  import opened Options
  import opened Bytes
  import opened Codec

  datatype Request =
    | ReadHolding(address: int, count: int)
    | ReadInput(address: int, count: int)
    | ReadIdentification

  datatype Answer = Words(words: seq<Word>) | Identified(identification: Identification)

  function FunctionCode(r: Request): Byte {
    match r
    case ReadHolding(_, _) => 0x03
    case ReadInput(_, _) => 0x04
    case ReadIdentification => 0x2B
  }

  function RequestPdu(r: Request): Result<seq<Byte>> {
    match r
    case ReadIdentification => Ok(READ_DEVICE_IDENTIFICATION)
    case _ => ReadRegistersPdu(FunctionCode(r), r.address, r.count)
  }

  /** The address and count an exchange is matched on; device identifications have neither. */
  function ShapeOf(r: Request): Option<(int, int)> {
    if r.ReadIdentification? then None else Some((r.address, r.count))
  }

  function Decode(r: Request, pdu: seq<Byte>): Result<Answer> {
    if r.ReadIdentification? then
      var i := IdentificationOf(pdu);
      if i.Ok? then Ok(Identified(i.value)) else Err(i.error)
    else if r.count < 0 then Err(Protocol)
    else
      var w := ParseRegisterResponse(pdu, FunctionCode(r), r.count);
      if w.Ok? then Ok(Words(w.value)) else Err(w.error)
  }

  // ----- Live requests and what the observer records of them -----

  datatype Transaction = Transaction(functionCode: Byte, shape: Option<(int, int)>, reply: Result<seq<Byte>>)

  /** `reply` is what the transport made of the exchange: a response PDU or an error. */
  function Live(r: Request, reply: Result<seq<Byte>>): Result<Answer> {
    var pdu := RequestPdu(r);
    if pdu.Err? then Err(pdu.error)
    else if reply.Err? then Err(reply.error)
    else Decode(r, reply.value)
  }

  /** A request that is refused before it is sent leaves no exchange. */
  function Recorded(r: Request, reply: Result<seq<Byte>>): seq<Transaction> {
    var pdu := RequestPdu(r);
    if pdu.Err? then []
    else
      var shape := RequestShape(pdu.value);
      [Transaction(pdu.value[0], if shape.None? then None else Some((shape.value.0 as int, shape.value.1 as int)), reply)]
  }

  /** The request shape is recovered from the bytes that were sent. */
  lemma RecordedShape(r: Request, reply: Result<seq<Byte>>)
    requires RequestPdu(r).Ok?
    ensures Recorded(r, reply) == [Transaction(FunctionCode(r), ShapeOf(r), reply)]
  {
  }

  // ----- Replay -----

  datatype ReplayError = ReplayClosed | Mismatch | RecordedTimeout | RecordedFailure(error: Error) | Unreadable(error: Error)

  datatype Replayed = Replayed(result: Option<Answer>, error: Option<ReplayError>, index: nat)

  function Failed(e: ReplayError, index: nat): Replayed {
    Replayed(None, Some(e), index)
  }

  /** One read against the recording: the next transaction is consumed whether or not it matches. */
  function ReplayOf(ts: seq<Transaction>, index: nat, closed: bool, r: Request): Replayed {
    if closed then Failed(ReplayClosed, index)
    else if index >= |ts| then Failed(Mismatch, index)
    else
      var item := ts[index];
      if item.functionCode != FunctionCode(r) || item.shape != ShapeOf(r) then Failed(Mismatch, index + 1)
      else if item.reply.Err? then
        Failed(if item.reply.error == Timeout then RecordedTimeout else RecordedFailure(item.reply.error), index + 1)
      else
        var answer := Decode(r, item.reply.value);
        if answer.Ok? then Replayed(Some(answer.value), None, index + 1) else Failed(Unreadable(answer.error), index + 1)
  }

  class ReplayModbusClient {
    const transactions: seq<Transaction>
    var index: nat
    var closed: bool

    ghost predicate Valid()
      reads this
    {
      index <= |transactions|
    }

    constructor (transactions: seq<Transaction>)
      ensures Valid() && this.transactions == transactions && index == 0 && !closed
    {
      this.transactions, index, closed := transactions, 0, false;
    }

    /** The next transaction, if it is the one the request asks for and was not a failure. */
    method Next(functionCode: Byte, shape: Option<(int, int)>) returns (item: Option<Transaction>, error: Option<ReplayError>)
      requires Valid()
      modifies this`index
      ensures Valid()
      ensures index == if !closed && old(index) < |transactions| then old(index) + 1 else old(index)
      ensures item.Some? <==> error.None?
      ensures item.Some? ==> !closed && old(index) < |transactions| && item.value == transactions[old(index)]
      ensures item.Some? ==> item.value.functionCode == functionCode && item.value.shape == shape && item.value.reply.Ok?
      ensures error == Some(ReplayClosed) <==> closed
      ensures error == Some(Mismatch) <==>
        (!closed && (old(index) == |transactions|
          || transactions[old(index)].functionCode != functionCode || transactions[old(index)].shape != shape))
      ensures error.Some? && error != Some(ReplayClosed) && error != Some(Mismatch) ==>
        transactions[old(index)].reply.Err? &&
        error.value == if transactions[old(index)].reply.error == Timeout then RecordedTimeout
                       else RecordedFailure(transactions[old(index)].reply.error)
    {
      if closed {
        return None, Some(ReplayClosed);
      }
      if index >= |transactions| {
        return None, Some(Mismatch);
      }
      var next := transactions[index];
      index := index + 1;
      if next.functionCode != functionCode || next.shape != shape {
        return None, Some(Mismatch);
      }
      if next.reply.Err? {
        return None, Some(if next.reply.error == Timeout then RecordedTimeout else RecordedFailure(next.reply.error));
      }
      return Some(next), None;
    }

    /** The three read methods. */
    method Read(r: Request) returns (answer: Option<Answer>, error: Option<ReplayError>)
      requires Valid()
      modifies this`index
      ensures Valid()
      ensures Replayed(answer, error, index) == ReplayOf(transactions, old(index), closed, r)
    {
      var item, failure := Next(FunctionCode(r), ShapeOf(r));
      if failure.Some? {
        return None, failure;
      }
      var decoded := Decode(r, item.value.reply.value);
      if decoded.Err? {
        return None, Some(Unreadable(decoded.error));
      }
      return Some(decoded.value), None;
    }

    method Close()
      modifies this`closed
      ensures closed
    {
      closed := true;
    }

    function Consumed(): nat
      reads this
    {
      index
    }

    function Remaining(): (n: nat)
      requires Valid()
      reads this
      ensures Consumed() + n == |transactions|
    {
      |transactions| - index
    }
  }

  // ----- Programs -----

  /** All request errors look alike to the program. */
  datatype Seen = Value(answer: Answer) | Failure

  /** A deterministic client: the next request, from everything seen so far; `None` when it stops. */
  type Program = seq<Seen> -> Option<Request>

  function SeenLive(r: Request, reply: Result<seq<Byte>>): Seen {
    var o := Live(r, reply);
    if o.Ok? then Value(o.value) else Failure
  }

  function SeenReplay(r: Replayed): Seen {
    if r.result.Some? then Value(r.result.value) else Failure
  }

  /** What the program saw live, given the transport's replies in order. */
  function LiveHistory(p: Program, replies: seq<Result<seq<Byte>>>): seq<Seen> {
    if replies == [] then []
    else
      var n := |replies| - 1;
      var before := LiveHistory(p, replies[..n]);
      var r := p(before);
      if r.None? then before else before + [SeenLive(r.value, replies[n])]
  }

  function Recording(p: Program, replies: seq<Result<seq<Byte>>>): seq<Transaction> {
    if replies == [] then []
    else
      var n := |replies| - 1;
      var r := p(LiveHistory(p, replies[..n]));
      Recording(p, replies[..n]) + if r.None? then [] else Recorded(r.value, replies[n])
  }

  /** What it sees from the replay client after at most `n` requests, and how much it consumed. */
  function ReplayHistory(p: Program, ts: seq<Transaction>, n: nat): (seq<Seen>, nat) {
    if n == 0 then ([], 0)
    else
      var (before, index) := ReplayHistory(p, ts, n - 1);
      var r := p(before);
      if r.None? then (before, index)
      else
        var o := ReplayOf(ts, index, false, r.value);
        (before + [SeenReplay(o)], o.index)
  }

  /** Every request the program makes against these replies is a valid one. */
  ghost predicate AsksValidly(p: Program, replies: seq<Result<seq<Byte>>>) {
    forall i :: 0 <= i < |replies| ==>
      var r := p(LiveHistory(p, replies[..i])); r.Some? ==> RequestPdu(r.value).Ok?
  }

  lemma {:induction false} ReplayPrefix(p: Program, ts: seq<Transaction>, more: seq<Transaction>, n: nat)
    requires ReplayHistory(p, ts, n).1 <= |ts| && forall k :: 0 <= k <= n ==> Unexhausted(p, ts, k)
    ensures ReplayHistory(p, ts + more, n) == ReplayHistory(p, ts, n)
  {
    if n > 0 {
      assert Unexhausted(p, ts, n - 1) && Unexhausted(p, ts, n);
      ReplayPrefix(p, ts, more, n - 1);
    }
  }

  /** The program either stopped by its k-th request or found a transaction for it. */
  ghost predicate Unexhausted(p: Program, ts: seq<Transaction>, k: nat) {
    k > 0 ==>
      var (before, index) := ReplayHistory(p, ts, k - 1);
      index <= |ts| && (p(before).Some? ==> index < |ts|)
  }

  /** Replaying a request against its own record shows what the live request showed. */
  lemma OwnRecordReplays(ts: seq<Transaction>, r: Request, reply: Result<seq<Byte>>)
    requires RequestPdu(r).Ok?
    ensures |Recorded(r, reply)| == 1
    ensures SeenReplay(ReplayOf(ts + Recorded(r, reply), |ts|, false, r)) == SeenLive(r, reply)
    ensures ReplayOf(ts + Recorded(r, reply), |ts|, false, r).index == |ts| + 1
  {
  }

  /** The replay of a recording shows the program exactly what it saw live, and consumes it all. */
  lemma {:induction false} ReplayIsIndistinguishable(p: Program, replies: seq<Result<seq<Byte>>>)
    requires AsksValidly(p, replies)
    ensures ReplayHistory(p, Recording(p, replies), |replies|) == (LiveHistory(p, replies), |Recording(p, replies)|)
    ensures forall k :: 0 <= k <= |replies| ==> Unexhausted(p, Recording(p, replies), k)
  {
    if replies != [] {
      var n := |replies| - 1;
      assert forall i :: 0 <= i < n ==> replies[..n][..i] == replies[..i];
      ReplayIsIndistinguishable(p, replies[..n]);
      NeverExhausted(p, replies);
      OneMoreRequest(p, replies);
    }
  }

  lemma NeverExhausted(p: Program, replies: seq<Result<seq<Byte>>>)
    requires replies != [] && AsksValidly(p, replies)
    requires var init := replies[..|replies| - 1];
      && ReplayHistory(p, Recording(p, init), |init|) == (LiveHistory(p, init), |Recording(p, init)|)
      && forall k :: 0 <= k <= |init| ==> Unexhausted(p, Recording(p, init), k)
    ensures forall k :: 0 <= k <= |replies| ==> Unexhausted(p, Recording(p, replies), k)
  {
    hide Recorded, ReplayOf, SeenLive, SeenReplay, RequestPdu, LiveHistory;
    var n := |replies| - 1;
    var ts := Recording(p, replies[..n]);
    var r := p(LiveHistory(p, replies[..n]));
    var added := if r.None? then [] else Recorded(r.value, replies[n]);
    forall k | 0 <= k <= n
      ensures Unexhausted(p, ts + added, k)
    {
      ReplayPrefixUpTo(p, ts, added, k);
    }
    ReplayPrefix(p, ts, added, n);
    if r.Some? {
      assert RequestPdu(r.value).Ok?;
      OwnRecordReplays(ts, r.value, replies[n]);
    }
  }

  lemma OneMoreRequest(p: Program, replies: seq<Result<seq<Byte>>>)
    requires replies != [] && AsksValidly(p, replies)
    requires var init := replies[..|replies| - 1];
      && ReplayHistory(p, Recording(p, init), |init|) == (LiveHistory(p, init), |Recording(p, init)|)
      && forall k :: 0 <= k <= |init| ==> Unexhausted(p, Recording(p, init), k)
    ensures ReplayHistory(p, Recording(p, replies), |replies|) == (LiveHistory(p, replies), |Recording(p, replies)|)
  {
    hide Recorded, ReplayOf, SeenLive, SeenReplay, RequestPdu;
    var n := |replies| - 1;
    var ts := Recording(p, replies[..n]);
    var r := p(LiveHistory(p, replies[..n]));
    var added := if r.None? then [] else Recorded(r.value, replies[n]);
    ReplayPrefix(p, ts, added, n);
    if r.Some? {
      assert RequestPdu(r.value).Ok?;
      OwnRecordReplays(ts, r.value, replies[n]);
    } else {
      assert ts + added == ts;
    }
  }

  lemma ReplayPrefixUpTo(p: Program, ts: seq<Transaction>, more: seq<Transaction>, k: nat)
    requires forall j :: 0 <= j <= k ==> Unexhausted(p, ts, j)
    ensures Unexhausted(p, ts + more, k)
  {
    if k > 0 {
      assert Unexhausted(p, ts, k);
      ReplayPrefix(p, ts, more, k - 1);
    }
  }

  /** A recorded failure is replayed as what it was, a timeout as a timeout; a closed client takes nothing. */
  lemma RecordedErrorIsReplayed(r: Request, e: Error, ts: seq<Transaction>, index: nat)
    requires RequestPdu(r).Ok? && index < |ts| && [ts[index]] == Recorded(r, Err(e))
    ensures ReplayOf(ts, index, false, r)
      == Failed(if e == Timeout then RecordedTimeout else RecordedFailure(e), index + 1)
    ensures ReplayOf(ts, index, true, r) == Failed(ReplayClosed, index)
  {
  }

  /** A request unlike the recorded one is refused as a mismatch, whatever the recording holds. */
  lemma DivergenceIsMismatch(r: Request, reply: Result<seq<Byte>>, ts: seq<Transaction>, index: nat, other: Request)
    requires RequestPdu(r).Ok? && index < |ts| && [ts[index]] == Recorded(r, reply)
    ensures ReplayOf(ts, index, false, other).error == Some(Mismatch) <==> other != r
    ensures other != r ==> ReplayOf(ts, index, false, other).index == index + 1
  {
  }

  // ----- Single steps -----

  lemma LiveStep(p: Program, replies: seq<Result<seq<Byte>>>, k: nat)
    requires k < |replies|
    ensures
      var before, r := LiveHistory(p, replies[..k]), p(LiveHistory(p, replies[..k]));
      && LiveHistory(p, replies[..k + 1]) == (if r.None? then before else before + [SeenLive(r.value, replies[k])])
      && Recording(p, replies[..k + 1])
         == Recording(p, replies[..k]) + if r.None? then [] else Recorded(r.value, replies[k])
  {
    hide SeenLive, Recorded;
    assert replies[..k + 1][..k] == replies[..k];
  }

  lemma ReplayStep(p: Program, ts: seq<Transaction>, n: nat)
    ensures
      var (before, index) := ReplayHistory(p, ts, n);
      ReplayHistory(p, ts, n + 1)
      == if p(before).None? then (before, index)
         else
           var o := ReplayOf(ts, index, false, p(before).value);
           (before + [SeenReplay(o)], o.index)
  {
    hide ReplayOf, SeenReplay;
  }

  /** A refused request fails in both, unless the replay has a transaction of its shape. */
  lemma RefusedFails(ts: seq<Transaction>, index: nat, r: Request, reply: Result<seq<Byte>>)
    requires RequestPdu(r).Err? && (index < |ts| ==> ts[index].shape != ShapeOf(r))
    ensures SeenLive(r, reply) == Failure && Recorded(r, reply) == []
    ensures SeenReplay(ReplayOf(ts, index, false, r)) == Failure
    ensures ReplayOf(ts, index, false, r).index == if index < |ts| then index + 1 else index
  {
  }

  // ----- Another program on the recording -----

  lemma {:induction false} RecordingGrows(p: Program, replies: seq<Result<seq<Byte>>>, k: nat)
    requires k <= |replies|
    ensures Recording(p, replies[..k]) <= Recording(p, replies)
  {
    if k == |replies| {
      assert replies[..k] == replies;
    } else {
      var init := replies[..|replies| - 1];
      assert init[..k] == replies[..k];
      RecordingGrows(p, init, k);
    }
  }

  /** In the middle of the replay, the program has seen what it had seen live after as many replies. */
  lemma ReplayedSoFar(p: Program, replies: seq<Result<seq<Byte>>>, k: nat)
    requires AsksValidly(p, replies) && k <= |replies|
    ensures ReplayHistory(p, Recording(p, replies), k) == (LiveHistory(p, replies[..k]), |Recording(p, replies[..k])|)
  {
    hide ReplayHistory, LiveHistory, Recording, RequestPdu;
    var part, ts := replies[..k], Recording(p, replies);
    assert forall i :: 0 <= i < k ==> part[..i] == replies[..i];
    ReplayIsIndistinguishable(p, part);
    RecordingGrows(p, replies, k);
    assert ts == Recording(p, part) + ts[|Recording(p, part)|..];
    ReplayPrefix(p, Recording(p, part), ts[|Recording(p, part)|..], k);
  }

  /** Until now the other program asked what the recorded one had asked. */
  ghost predicate AsksAlike(p: Program, q: Program, replies: seq<Result<seq<Byte>>>, k: nat)
    requires k <= |replies|
  {
    forall i :: 0 <= i < k ==> q(LiveHistory(p, replies[..i])) == p(LiveHistory(p, replies[..i]))
  }

  lemma {:induction false} SameQuestionsSameReplay(p: Program, q: Program, replies: seq<Result<seq<Byte>>>, k: nat)
    requires AsksValidly(p, replies) && k <= |replies| && AsksAlike(p, q, replies, k)
    ensures ReplayHistory(q, Recording(p, replies), k) == ReplayHistory(p, Recording(p, replies), k)
  {
    if k > 0 {
      SameQuestionsSameReplay(p, q, replies, k - 1);
      ReplayedSoFar(p, replies, k - 1);
    }
  }

  /**
   * Any other program sees on the recording exactly the live history up to its first divergent
   * request, which is then a mismatch: also when the recorded program had stopped by then.
   */
  lemma DivergenceIsFirstMismatch(p: Program, q: Program, replies: seq<Result<seq<Byte>>>, k: nat)
    requires AsksValidly(p, replies) && k < |replies| && AsksAlike(p, q, replies, k)
    requires q(LiveHistory(p, replies[..k])).Some?
    ensures
      var ts := Recording(p, replies);
      var (seen, index) := ReplayHistory(q, ts, k);
      && seen == LiveHistory(p, replies[..k])
      && (ReplayOf(ts, index, false, q(seen).value).error == Some(Mismatch) <==> q(seen) != p(seen))
  {
    hide ReplayHistory, LiveHistory, Recording, Recorded, RequestPdu, AsksAlike, ReplayOf;
    var ts := Recording(p, replies);
    var before := Recording(p, replies[..k]);
    var r := p(LiveHistory(p, replies[..k]));
    var other := q(LiveHistory(p, replies[..k])).value;
    SameQuestionsSameReplay(p, q, replies, k);
    ReplayedSoFar(p, replies, k);
    LiveStep(p, replies, k);
    RecordingGrows(p, replies, k + 1);
    if r.Some? {
      OneRecorded(r.value, replies[k]);
      assert ts[|before|] == Recorded(r.value, replies[k])[0];
      DivergenceIsMismatch(r.value, replies[k], ts, |before|, other);
    } else {
      NothingAfterStop(p, replies, k);
      ExhaustedIsMismatch(ts, other);
    }
  }

  lemma OneRecorded(r: Request, reply: Result<seq<Byte>>)
    requires RequestPdu(r).Ok?
    ensures |Recorded(r, reply)| == 1 && Recorded(r, reply) == [Recorded(r, reply)[0]]
  {
  }

  lemma ExhaustedIsMismatch(ts: seq<Transaction>, r: Request)
    ensures ReplayOf(ts, |ts|, false, r) == Failed(Mismatch, |ts|)
  {
  }

  /** A program that stopped records nothing more. */
  lemma {:induction false} NothingAfterStop(p: Program, replies: seq<Result<seq<Byte>>>, k: nat)
    requires k <= |replies| && p(LiveHistory(p, replies[..k])).None?
    ensures Recording(p, replies) == Recording(p, replies[..k]) && LiveHistory(p, replies) == LiveHistory(p, replies[..k])
  {
    if k == |replies| {
      assert replies[..k] == replies;
    } else {
      var init := replies[..|replies| - 1];
      assert init[..k] == replies[..k];
      NothingAfterStop(p, init, k);
    }
  }

  // ----- Refused requests -----

  function Asked(p: Program, replies: seq<Result<seq<Byte>>>, i: nat): Option<Request>
    requires i <= |replies|
  {
    p(LiveHistory(p, replies[..i]))
  }

  predicate Refused(p: Program, replies: seq<Result<seq<Byte>>>, i: nat)
    requires i <= |replies|
  {
    Asked(p, replies, i).Some? && RequestPdu(Asked(p, replies, i).value).Err?
  }

  predicate Sent(p: Program, replies: seq<Result<seq<Byte>>>, i: nat)
    requires i <= |replies|
  {
    Asked(p, replies, i).Some? && RequestPdu(Asked(p, replies, i).value).Ok?
  }

  /** In this live session no request is sent after one was refused. */
  ghost predicate Orderly(p: Program, replies: seq<Result<seq<Byte>>>) {
    forall i, j :: 0 <= i < j < |replies| && Refused(p, replies, i) ==> !Sent(p, replies, j)
  }

  /** The replay shows what the live session showed, and uses up the recording. */
  ghost predicate ReplaysAlike(p: Program, replies: seq<Result<seq<Byte>>>) {
    ReplayHistory(p, Recording(p, replies), |replies|) == (LiveHistory(p, replies), |Recording(p, replies)|)
  }

  lemma {:induction false} OrderlyReplaysAlike(p: Program, replies: seq<Result<seq<Byte>>>)
    requires Orderly(p, replies)
    ensures ReplaysAlike(p, replies)
  {
    if forall i :: 0 <= i < |replies| ==> !Refused(p, replies, i) {
      forall i | 0 <= i < |replies|
        ensures p(LiveHistory(p, replies[..i])).Some? ==> RequestPdu(p(LiveHistory(p, replies[..i])).value).Ok?
      {
        assert !Refused(p, replies, i);
      }
      ReplayIsIndistinguishable(p, replies);
    } else {
      var n := |replies| - 1;
      var init := replies[..n];
      assert forall j :: 0 <= j <= n ==> init[..j] == replies[..j];
      assert forall j :: 0 <= j < n ==> Refused(p, init, j) == Refused(p, replies, j) && Sent(p, init, j) == Sent(p, replies, j);
      OrderlyReplaysAlike(p, init);
      NotSentAlike(p, replies);
    }
  }

  lemma NotSentAlike(p: Program, replies: seq<Result<seq<Byte>>>)
    requires replies != [] && ReplaysAlike(p, replies[..|replies| - 1]) && !Sent(p, replies, |replies| - 1)
    ensures ReplaysAlike(p, replies)
  {
    hide ReplayHistory, LiveHistory, Recording, Recorded, RequestPdu, ReplayOf, SeenLive, SeenReplay;
    var n := |replies| - 1;
    assert replies[..n + 1] == replies;
    LiveStep(p, replies, n);
    ReplayStep(p, Recording(p, replies[..n]), n);
    var r := Asked(p, replies, n);
    if r.Some? {
      RefusedFails(Recording(p, replies[..n]), |Recording(p, replies[..n])|, r.value, replies[n]);
    }
    assert Recording(p, replies) == Recording(p, replies[..n]);
  }

  /** After a refusal that used up the next exchange, refusals find the recording exhausted. */
  lemma {:induction false} StaysExhausted(p: Program, replies: seq<Result<seq<Byte>>>, i: nat, t: Transaction, k: nat)
    requires i < k <= |replies| && AsksValidly(p, replies[..i]) && Refused(p, replies, i)
    requires t.shape != ShapeOf(Asked(p, replies, i).value)
    requires forall j :: i < j < k ==> !Sent(p, replies, j)
    ensures Recording(p, replies[..k]) == Recording(p, replies[..i])
    ensures
      var ts := Recording(p, replies[..i]);
      ReplayHistory(p, ts + [t], k) == (LiveHistory(p, replies[..k]), |ts| + 1)
  {
    hide ReplayHistory, LiveHistory, Recording, Recorded, RequestPdu, ReplayOf, SeenLive, SeenReplay, AsksValidly;
    var ts := Recording(p, replies[..i]);
    var r := Asked(p, replies, k - 1);
    if k == i + 1 {
      ReplayIsIndistinguishable(p, replies[..i]);
      ReplayPrefix(p, ts, [t], i);
    } else {
      StaysExhausted(p, replies, i, t, k - 1);
    }
    LiveStep(p, replies, k - 1);
    ReplayStep(p, ts + [t], k - 1);
    assert (ts + [t])[|ts|] == t;
    assert k > i + 1 ==> !Sent(p, replies, k - 1);
    if r.Some? {
      RefusedFails(ts + [t], if k == i + 1 then |ts| else |ts| + 1, r.value, replies[k - 1]);
    }
    assert ts + [] == ts;
  }

  /** Every request that can be sent has a reply it can read. */
  lemma ReadableReply(r: Request) returns (pdu: seq<Byte>)
    requires RequestPdu(r).Ok?
    ensures Decode(r, pdu).Ok?
  {
    if r.ReadIdentification? {
      pdu := [0x2B, 0x0E, 0x01, 0x00, 0x00, 0x00, 0x00];
      assert IdentificationOf(pdu).Ok?;
    } else {
      var words: seq<Word> := seq(r.count, i => 0);
      ResponseParses(FunctionCode(r), words);
      pdu := RegisterResponse(FunctionCode(r), words);
    }
  }

  lemma RefusedShapeIsNeverRecorded(bad: Request, good: Request, reply: Result<seq<Byte>>)
    requires RequestPdu(bad).Err? && RequestPdu(good).Ok?
    ensures |Recorded(good, reply)| == 1 && Recorded(good, reply)[0].shape != ShapeOf(bad)
  {
    RecordedShape(good, reply);
  }

  /** A request sent after a refused one is answered live, and fails in the replay. */
  lemma SentAfterRefusalDiffers(p: Program, replies: seq<Result<seq<Byte>>>, i: nat, j: nat)
    returns (answered: seq<Result<seq<Byte>>>)
    requires i < j < |replies| && AsksValidly(p, replies[..i]) && Refused(p, replies, i) && Sent(p, replies, j)
    requires forall k :: i < k < j ==> !Sent(p, replies, k)
    ensures !ReplaysAlike(p, answered)
  {
    hide ReplayHistory, LiveHistory, Recording, Recorded, RequestPdu, ReplayOf, SeenLive, SeenReplay, AsksValidly, Decode;
    var good := Asked(p, replies, j).value;
    var pdu := ReadableReply(good);
    answered := replies[..j] + [Ok(pdu)];
    assert answered[..j] == replies[..j] && answered[..j + 1] == answered;
    RefusedShapeIsNeverRecorded(Asked(p, replies, i).value, good, Ok(pdu));
    OneRecorded(good, Ok(pdu));
    var ts, t := Recording(p, replies[..i]), Recorded(good, Ok(pdu))[0];
    StaysExhausted(p, replies, i, t, j);
    LiveStep(p, answered, j);
    ReplayStep(p, ts + [t], j);
    ExhaustedIsMismatch(ts + [t], good);
    AnsweredIsSeen(good, pdu, |ts| + 1);
    var before := LiveHistory(p, replies[..j]);
    assert (before + [Failure])[|before|] != (before + [SeenLive(good, Ok(pdu))])[|before|];
  }

  lemma AnsweredIsSeen(r: Request, pdu: seq<Byte>, index: nat)
    requires RequestPdu(r).Ok? && Decode(r, pdu).Ok?
    ensures SeenLive(r, Ok(pdu)).Value? && SeenReplay(Failed(Mismatch, index)) == Failure
  {
  }

  /** The first refused request, and the first one sent after it. */
  lemma FirstDisorder(p: Program, replies: seq<Result<seq<Byte>>>) returns (i: nat, j: nat)
    requires !Orderly(p, replies)
    ensures i < j < |replies| && AsksValidly(p, replies[..i]) && Refused(p, replies, i) && Sent(p, replies, j)
    ensures forall k :: i < k < j ==> !Sent(p, replies, k)
  {
    hide LiveHistory, RequestPdu;
    ghost var a, b :| 0 <= a < b < |replies| && Refused(p, replies, a) && Sent(p, replies, b);
    i := 0;
    while !Refused(p, replies, i)
      invariant i <= a && forall k :: 0 <= k < i ==> !Refused(p, replies, k)
      decreases a - i
    {
      i := i + 1;
    }
    j := i + 1;
    while !Sent(p, replies, j)
      invariant i < j <= b && forall k :: i < k < j ==> !Sent(p, replies, k)
      decreases b - j
    {
      j := j + 1;
    }
    assert forall k :: 0 <= k < i ==> replies[..i][..k] == replies[..k] && !Refused(p, replies, k);
  }

  /**
   * When the replay repeats every live session of a program: exactly when in none of them a request
   * is sent after one was refused.
   */
  lemma ReplayRepeatsExactly(p: Program)
    ensures (forall replies :: ReplaysAlike(p, replies)) <==> (forall replies :: Orderly(p, replies))
  {
    if forall replies :: Orderly(p, replies) {
      forall replies
        ensures ReplaysAlike(p, replies)
      {
        OrderlyReplaysAlike(p, replies);
      }
    } else {
      var replies :| !Orderly(p, replies);
      var i, j := FirstDisorder(p, replies);
      var answered := SentAfterRefusalDiffers(p, replies, i, j);
    }
  }

  /**
   * The smallest such session: a refused request is never recorded, yet the replay client spends
   * the next transaction on it.
   */
  lemma RefusedRequestDesynchronises(bad: Request, good: Request, lost: Result<seq<Byte>>, reply: Result<seq<Byte>>)
    requires RequestPdu(bad).Err? && RequestPdu(good).Ok?
    ensures Recorded(bad, lost) == []
    ensures var ts := Recorded(bad, lost) + Recorded(good, reply);
      && ReplayOf(ts, 0, false, bad) == Failed(Mismatch, 1)
      && ReplayOf(ts, 1, false, good) == Failed(Mismatch, 1)
  {
  }
}
