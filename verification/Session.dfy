/**
 The two periodic loops as written: one reused buffer and one reused MAC object per process.
 Each is proved against the stateless description in module Frames.
 */
module Session {
  import opened ByteTypes
  import opened Crypto
  import opened Frames

  const OK: int := 0
  const NOT_OK: int := 1

  class MacObject {
    const suite: Suite
    var state: Mac

    constructor (suite: Suite, key: Bytes)
      ensures this.suite == suite && state == Mac(key, [])
    {
      this.suite := suite;
      state := Mac(key, []);
    }

    method Update(data: Bytes)
      modifies this
      ensures state == old(state).Update(data)
    {
      state := state.Update(data);
    }

    method Final() returns (tag: Tag)
      modifies this
      ensures (tag, state) == old(state).Final(suite)
    {
      var (t, s) := state.Final(suite);
      tag, state := t, s;
    }
  }

  /**
   One end of a message queue. `delivers` says which calls of mq_send the operating system lets
   succeed; mq_receive hands out the queued messages in order and fails once there are none left.
   */
  class Queue {
    const delivers: nat -> bool
    var attempts: nat
    var messages: seq<Bytes>

    ghost predicate Valid()
      reads this
    {
      forall m | m in messages :: |m| <= MESSAGE_SIZE
    }

    method Send(message: Bytes) returns (result: int)
      requires Valid()
      modifies this
      ensures Valid() && attempts == old(attempts) + 1
      ensures if |message| <= MESSAGE_SIZE && delivers(old(attempts))
              then result == 0 && messages == old(messages) + [message]
              else result == -1 && messages == old(messages)
    {
      result := -1;
      if |message| <= MESSAGE_SIZE && delivers(attempts) {
        messages := messages + [message];
        result := 0;
      }
      attempts := attempts + 1;
    }

    method Receive(buffer: array<Byte>) returns (received: int)
      requires Valid() && buffer.Length == MESSAGE_SIZE
      modifies this, buffer
      ensures Valid() && attempts == old(attempts)
      ensures old(messages) == [] ==> received == -1 && messages == [] && buffer[..] == old(buffer[..])
      ensures old(messages) != [] ==>
        && received == |old(messages)[0]| && messages == old(messages)[1..]
        && buffer[..received] == old(messages)[0] && buffer[received..] == old(buffer[..])[received..]
    {
      if messages == [] {
        return -1;
      }
      var message := messages[0];
      assert message in messages;
      forall i | 0 <= i < |message| {
        buffer[i] := message[i];
      }
      messages := messages[1..];
      received := |message|;
    }
  }

  /** The one-shot MAC: a fresh object, one update, one final. */
  method CalculateMac(suite: Suite, data: Bytes, key: Bytes) returns (tag: Tag)
    ensures tag == suite.cmac(key, data)
  {
    var mac := new MacObject(suite, key);
    mac.Update(data);
    assert [] + data == data;
    tag := mac.Final();
  }

  /** How many sends in a row succeed, starting with attempt `from`, out of `n`. */
  function Delivered(delivers: nat -> bool, from: nat, n: nat): (r: nat)
    ensures r <= n
    ensures forall k | from <= k < from + r :: delivers(k)
    ensures r < n ==> !delivers(from + r)
    decreases n
  {
    if n == 0 || !delivers(from) then 0 else 1 + Delivered(delivers, from + 1, n - 1)
  }

  lemma DeliveredIs(delivers: nat -> bool, from: nat, n: nat, r: nat)
    requires r <= n
    requires forall k | from <= k < from + r :: delivers(k)
    requires r < n ==> !delivers(from + r)
    ensures Delivered(delivers, from, n) == r
    decreases n
  {
  }

  /**
   One round of the sender's loop up to mq_send. Whatever tag the buffer still holds from the
   previous round, the outcome is the frame built from scratch, and the MAC object is clean again.
   */
  method PrepareFrame(buffer: array<Byte>, mac: MacObject, index: nat)
    requires buffer.Length == FRAME_SIZE && buffer[..BUFFER_SIZE - 1] == Fill(BUFFER_SIZE - 1, 0xFF)
    requires mac.state.pending == []
    modifies buffer, mac
    ensures mac.state == old(mac.state)
    ensures buffer[..] == Frame(mac.suite, mac.state.key, index)
    ensures buffer[..BUFFER_SIZE - 1] == Fill(BUFFER_SIZE - 1, 0xFF)
  {
    buffer[BUFFER_SIZE - 1] := Counter(index);
    assert buffer[..BUFFER_SIZE] == Body(index);
    mac.Update(buffer[..BUFFER_SIZE]);
    assert [] + buffer[..BUFFER_SIZE] == Body(index);
    var tag := mac.Final();
    forall i | 0 <= i < CMAC_SIZE {
      buffer[BUFFER_SIZE + i] := tag[i];
    }
    assert buffer[..BUFFER_SIZE] == Body(index);
    assert buffer[BUFFER_SIZE..] == tag;
    assert buffer[..] == buffer[..BUFFER_SIZE] + buffer[BUFFER_SIZE..];
  }

  lemma OneMoreFrame(before: seq<Bytes>, suite: Suite, key: Bytes, n: nat)
    ensures before + FramesUpTo(suite, key, n + 1) == before + FramesUpTo(suite, key, n) + [Frame(suite, key, n)]
  {
  }

  /**
   Sends frames 0, 1, ... until one is refused. Although the buffer still holds the previous tag
   when the next counter is stamped, every message is the frame built from scratch.
   */
  method SendPeriodicMessages(mq: Queue, suite: Suite, key: Bytes, count: nat) returns (status: int)
    requires mq.Valid()
    modifies mq
    ensures mq.Valid()
    ensures var n := Delivered(mq.delivers, old(mq.attempts), count);
      && mq.messages == old(mq.messages) + FramesUpTo(suite, key, n)
      && status == if n == count then OK else NOT_OK
  {
    hide Frame, FramesUpTo, Delivered;
    var buffer := new Byte[FRAME_SIZE](_ => 0xFF);
    status := OK;
    var mac := new MacObject(suite, key);
    var index := 0;
    while index < count
      invariant 0 <= index <= count
      invariant mq.Valid() && mq.attempts == old(mq.attempts) + index
      invariant forall k | old(mq.attempts) <= k < old(mq.attempts) + index :: mq.delivers(k)
      invariant mq.messages == old(mq.messages) + FramesUpTo(suite, key, index)
      invariant buffer[..BUFFER_SIZE - 1] == Fill(BUFFER_SIZE - 1, 0xFF)
      invariant mac.suite == suite && mac.state == Mac(key, [])
    {
      PrepareFrame(buffer, mac, index);
      var result := mq.Send(buffer[..]);
      if result == -1 {
        DeliveredIs(mq.delivers, old(mq.attempts), count, index);
        return NOT_OK;
      }
      OneMoreFrame(old(mq.messages), suite, key, index);
      index := index + 1;
    }
    DeliveredIs(mq.delivers, old(mq.attempts), count, count);
  }

  /** The messages up to the first empty one, which ends the receiver's loop. */
  function UntilEmpty(messages: seq<Bytes>): (r: seq<Bytes>)
    ensures r <= messages && [] !in r
    ensures |r| < |messages| ==> messages[|r|] == []
  {
    if messages == [] || |messages[0]| == 0 then [] else [messages[0]] + UntilEmpty(messages[1..])
  }

  /** What is left on the queue when the loop ends: all that follows the first empty message. */
  function AfterEmpty(messages: seq<Bytes>): (r: seq<Bytes>)
    ensures [] !in messages ==> r == []
    ensures [] in messages ==> messages == UntilEmpty(messages) + [[]] + r
  {
    if messages == [] then [] else if |messages[0]| == 0 then messages[1..] else AfterEmpty(messages[1..])
  }

  /** The messages up to the first that cannot hold a tag. */
  function UntilShort(messages: seq<Bytes>): (r: seq<Bytes>)
    ensures r <= messages && forall k :: 0 <= k < |r| ==> 16 <= |r[k]|
    ensures |r| < |messages| ==> |messages[|r|]| < 16
  {
    if messages == [] || |messages[0]| < CMAC_SIZE then [] else [messages[0]] + UntilShort(messages[1..])
  }

  /** Every message can hold a tag. */
  predicate LongEnough(messages: seq<Bytes>) {
    forall k | 0 <= k < |messages| :: CMAC_SIZE <= |messages[k]|
  }

  lemma {:induction false} AllLong(messages: seq<Bytes>)
    requires LongEnough(messages)
    ensures UntilShort(messages) == messages && UntilEmpty(messages) == messages && AfterEmpty(messages) == []
  {
    if messages != [] {
      assert CMAC_SIZE <= |messages[0]|;
      assert forall k | 0 <= k < |messages[1..]| :: messages[1..][k] == messages[k + 1];
      AllLong(messages[1..]);
    }
  }

  function Verdicts(suite: Suite, key: Bytes, messages: seq<Bytes>): (r: seq<bool>)
    requires LongEnough(messages)
    ensures |r| == |messages|
    ensures forall k :: 0 <= k < |r| ==> r[k] == Passes(suite, key, messages[k])
  {
    seq(|messages|, k requires 0 <= k < |messages| => Passes(suite, key, messages[k]))
  }

  /**
   One comparison with the reused MAC object, which is left clean for the next message. A message
   too short to hold a tag makes the slices run out of range: there is no outcome.
   */
  method CheckMessage(mac: MacObject, message: Bytes) returns (ok: Option<bool>)
    requires mac.state.pending == []
    modifies mac
    ensures mac.state == old(mac.state)
    ensures ok == if CMAC_SIZE <= |message| then Some(Passes(mac.suite, mac.state.key, message)) else None
    ensures ok == None <==> |message| < 16
    ensures ok == Some(true) <==>
      |message| >= 16 && exists body: Bytes :: message == body + mac.suite.cmac(mac.state.key, body)
  {
    if |message| < CMAC_SIZE {
      return None;
    }
    var n := |message| - CMAC_SIZE;
    var receivedTag := message[n..];
    mac.Update(message[..n]);
    assert [] + message[..n] == message[..n];
    var tag := mac.Final();
    PassesIff(mac.suite, mac.state.key, message);
    ok := Some(receivedTag == tag);
  }

  /** How the receiver's loop ends: it returns a status, or a slice leaves the message. */
  datatype LoopEnd = Returned(status: int) | OutOfRange

  /** `seen` has been taken off `all` and checked; `queued` is left. */
  ghost predicate Midway(all: seq<Bytes>, seen: seq<Bytes>, queued: seq<Bytes>) {
    && UntilEmpty(all) == seen + UntilEmpty(queued)
    && UntilShort(all) == seen + UntilShort(queued)
    && AfterEmpty(all) == AfterEmpty(queued)
    && LongEnough(seen)
  }

  lemma Unfolded(queued: seq<Bytes>)
    requires queued != [] && CMAC_SIZE <= |queued[0]|
    ensures UntilEmpty(queued) == [queued[0]] + UntilEmpty(queued[1..])
    ensures UntilShort(queued) == [queued[0]] + UntilShort(queued[1..])
    ensures AfterEmpty(queued) == AfterEmpty(queued[1..])
  {
  }

  lemma TakeOne(all: seq<Bytes>, seen: seq<Bytes>, queued: seq<Bytes>)
    requires Midway(all, seen, queued) && queued != [] && CMAC_SIZE <= |queued[0]|
    ensures Midway(all, seen + [queued[0]], queued[1..])
  {
    hide UntilEmpty, UntilShort, AfterEmpty;
    Unfolded(queued);
    assert seen + UntilEmpty(queued) == (seen + [queued[0]]) + UntilEmpty(queued[1..]);
    assert seen + UntilShort(queued) == (seen + [queued[0]]) + UntilShort(queued[1..]);
  }

  lemma ShortOne(all: seq<Bytes>, seen: seq<Bytes>, queued: seq<Bytes>)
    requires Midway(all, seen, queued) && queued != [] && 0 < |queued[0]| < CMAC_SIZE
    ensures UntilShort(all) == seen && !LongEnough(UntilEmpty(all))
  {
    assert UntilEmpty(all)[|seen|] == queued[0];
    assert seen + [] == seen;
  }

  lemma AtEnd(all: seq<Bytes>, seen: seq<Bytes>, queued: seq<Bytes>, left: seq<Bytes>)
    requires Midway(all, seen, queued)
    requires if queued == [] then left == [] else |queued[0]| == 0 && left == queued[1..]
    ensures UntilEmpty(all) == seen && UntilShort(all) == seen && AfterEmpty(all) == left
  {
    assert seen + [] == seen;
  }

  lemma OneMoreVerdict(suite: Suite, key: Bytes, seen: seq<Bytes>, message: Bytes)
    requires LongEnough(seen) && CMAC_SIZE <= |message|
    ensures LongEnough(seen + [message])
    ensures Verdicts(suite, key, seen + [message]) == Verdicts(suite, key, seen) + [Passes(suite, key, message)]
  {
  }

  /** Every verdict says whether the message is a payload followed by the CMAC of that payload. */
  lemma VerdictsAre(suite: Suite, key: Bytes, messages: seq<Bytes>)
    requires LongEnough(messages)
    ensures forall k :: 0 <= k < |messages| ==>
      (Verdicts(suite, key, messages)[k] <==> exists body: Bytes :: messages[k] == body + suite.cmac(key, body))
  {
    forall k | 0 <= k < |messages|
      ensures Verdicts(suite, key, messages)[k] <==> exists body: Bytes :: messages[k] == body + suite.cmac(key, body)
    {
      PassesIff(suite, key, messages[k]);
    }
  }

  /** mq_receive into the reused buffer, then the copy of exactly the bytes received. */
  method TakeMessage(mq: Queue, buffer: array<Byte>) returns (message: Option<Bytes>)
    requires mq.Valid() && buffer.Length == MESSAGE_SIZE
    modifies mq, buffer
    ensures mq.Valid()
    ensures old(mq.messages) == [] ==> message == None && mq.messages == []
    ensures old(mq.messages) != [] ==>
      && mq.messages == old(mq.messages)[1..]
      && message == if |old(mq.messages)[0]| == 0 then None else Some(old(mq.messages)[0])
  {
    var received := mq.Receive(buffer);
    message := if received > 0 then Some(buffer[..received]) else None;
  }

  /**
   Takes messages until one is empty or the receive fails. The loop stays in range if and only if
   every message before the first empty one can hold a tag. Each outcome is that of the stateless
   comparison on the message alone, whatever the reused buffer and MAC object saw before.
   */
  method ReceivePeriodicMessages(mq: Queue, suite: Suite, key: Bytes) returns (end: LoopEnd, verdicts: seq<bool>)
    requires mq.Valid()
    modifies mq
    ensures mq.Valid()
    ensures end == if LongEnough(UntilEmpty(old(mq.messages))) then Returned(OK) else OutOfRange
    ensures verdicts == Verdicts(suite, key, UntilShort(old(mq.messages)))
    ensures forall k :: 0 <= k < |verdicts| ==>
      (verdicts[k] <==> exists body: Bytes :: old(mq.messages)[k] == body + suite.cmac(key, body))
    ensures end.Returned? <==> UntilShort(old(mq.messages)) == UntilEmpty(old(mq.messages))
    ensures end.Returned? ==> mq.messages == AfterEmpty(old(mq.messages))
  {
    hide AfterEmpty, Passes, UntilEmpty, UntilShort, Verdicts;
    var buffer := new Byte[MESSAGE_SIZE](_ => 0);
    var mac := new MacObject(suite, key);
    verdicts := [];
    ghost var all, seen: seq<Bytes> := mq.messages, [];
    while true
      invariant mq.Valid()
      invariant Midway(all, seen, mq.messages)
      invariant verdicts == Verdicts(suite, key, seen)
      invariant mac.suite == suite && mac.state == Mac(key, [])
      decreases |mq.messages|
    {
      ghost var queued := mq.messages;
      var received := TakeMessage(mq, buffer);
      if received == None {
        AtEnd(all, seen, queued, mq.messages);
        break;
      }
      var message := received.value;
      var ok := CheckMessage(mac, message);
      if ok == None {
        ShortOne(all, seen, queued);
        VerdictsAre(suite, key, seen);
        return OutOfRange, verdicts;
      }
      TakeOne(all, seen, queued);
      OneMoreVerdict(suite, key, seen, message);
      verdicts := verdicts + [ok.value];
      seen := seen + [message];
    }
    VerdictsAre(suite, key, seen);
    end := Returned(OK);
  }

  /** What the sender's loop puts on the queue, the receiver's loop accepts, message by message. */
  lemma SentMessagesVerify(suite: Suite, key: Bytes, n: nat)
    ensures var sent := FramesUpTo(suite, key, n);
      && LongEnough(UntilEmpty(sent)) && UntilShort(sent) == sent && AfterEmpty(sent) == []
      && (forall k | 0 <= k < n :: |sent[k]| <= MESSAGE_SIZE)
      && Verdicts(suite, key, UntilShort(sent)) == seq(n, _ => true)
  {
    var sent := FramesUpTo(suite, key, n);
    AllLong(sent);
    forall k | 0 <= k < n
      ensures Passes(suite, key, sent[k])
    {
      assert sent[k][..BUFFER_SIZE] == Body(k);
    }
  }
}
