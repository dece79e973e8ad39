/** The periodic message: twenty bytes of payload followed by their CMAC. */
module Frames {
  import opened ByteTypes
  import opened Crypto

  const MESSAGE_SIZE: nat := 1024
  const BUFFER_SIZE: nat := 20
  const FRAME_SIZE: nat := BUFFER_SIZE + CMAC_SIZE

  type FrameBuffer = b: Bytes | |b| == FRAME_SIZE witness seq(FRAME_SIZE, _ => 0xFF)
  type ReceiveBuffer = b: Bytes | |b| == MESSAGE_SIZE witness seq(MESSAGE_SIZE, _ => 0)

  function Fill(n: nat, b: Byte): (r: Bytes)
    ensures |r| == n
  {
    seq(n, _ => b)
  }

  function FreshBuffer(): FrameBuffer {
    Fill(FRAME_SIZE, 0xFF)
  }

  function ZeroBuffer(): ReceiveBuffer {
    Fill(MESSAGE_SIZE, 0)
  }

  function Counter(index: nat): Byte {
    index % 256
  }

  /** The payload of message `index`: nineteen fill bytes, then the counter. */
  function Body(index: nat): (r: Bytes)
    ensures |r| == BUFFER_SIZE
  {
    Fill(BUFFER_SIZE - 1, 0xFF) + [Counter(index)]
  }

  /** Message `index` built from scratch, with the one-shot MAC of its payload. */
  function Frame(suite: Suite, key: Bytes, index: nat): FrameBuffer {
    Body(index) + suite.cmac(key, Body(index))
  }

  function FramesUpTo(suite: Suite, key: Bytes, n: nat): (r: seq<Bytes>)
    ensures |r| == n
    ensures forall k :: 0 <= k < n ==> r[k] == Frame(suite, key, k)
  {
    seq(n, k requires 0 <= k => Frame(suite, key, k))
  }

  /** The receiver's comparison: do the last sixteen bytes equal the CMAC of the rest? */
  predicate Passes(suite: Suite, key: Bytes, message: Bytes)
    requires CMAC_SIZE <= |message|
  {
    var n := |message| - CMAC_SIZE;
    message[n..] == suite.cmac(key, message[..n])
  }

  /** A message passes exactly when it is some payload followed by the CMAC of that payload, all sixteen bytes of it. */
  lemma PassesIff(suite: Suite, key: Bytes, message: Bytes)
    requires CMAC_SIZE <= |message|
    ensures Passes(suite, key, message) <==> exists body: Bytes :: message == body + suite.cmac(key, body)
  {
    var n := |message| - CMAC_SIZE;
    assert message == message[..n] + message[n..];
    if body: Bytes :| message == body + suite.cmac(key, body) {
      assert message[..n] == body && message[n..] == suite.cmac(key, body);
    }
  }

  /** The payload decides the message: two messages that pass and agree before the tag are equal. */
  lemma PassingIsUnique(suite: Suite, key: Bytes, m: Bytes, m': Bytes)
    requires 16 <= |m| == |m'| && Passes(suite, key, m) && Passes(suite, key, m')
    requires m[..|m| - 16] == m'[..|m| - 16]
    ensures m == m'
  {
    assert m == m[..|m| - 16] + m[|m| - 16..] && m' == m'[..|m| - 16] + m'[|m| - 16..];
  }
}
