/**
 What the two processes do with a message from the queue whatever it holds, in whatever state: the
 runs of the system itself only ever carry genuine ones.
 */
module ProtocolReactions {
  import opened ByteTypes
  import opened Crypto
  import opened Frames
  import opened Protocol
  import opened ProtocolInvariant
  import opened ProtocolSchedules

  const ONE_STEP: seq<Process> := [TheReceiver]
  const THREE_STEPS: seq<Process> := [TheReceiver, TheReceiver, TheReceiver]

  lemma ThreeSteps(c: Config, st: State, p: Process)
    requires CanStep(c, st, p) && CanStep(c, Step(c, st, p), p) && CanStep(c, Step(c, Step(c, st, p), p), p)
    ensures Feasible(c, st, [p, p, p])
    ensures Run(c, st, [p, p, p]) == Step(c, Step(c, Step(c, st, p), p), p)
  {
    hide Step, CanStep;
    OneMoreStep(c, st, [], p);
    OneMoreStep(c, st, [p], p);
    OneMoreStep(c, st, [p, p], p);
    assert [] + [p] == [p] && [p] + [p] == [p, p] && [p, p] + [p] == [p, p, p];
  }

  lemma OneStep(c: Config, st: State, p: Process)
    ensures Feasible(c, st, [p]) <==> CanStep(c, st, p)
    ensures Feasible(c, st, [p]) ==> Run(c, st, [p]) == Step(c, st, p)
  {
    hide Step, CanStep;
    OneMoreStep(c, st, [], p);
    assert [] + [p] == [p];
  }

  /** The receiver's three steps on a message long enough to hold a tag. */
  lemma Checked(c: Config, st: State)
    requires st.receiver.pc == Waiting && st.toReceiver != [] && 16 <= |st.toReceiver[0]| <= 1024
    requires st.receiver.mac.pending == []
    ensures Feasible(c, st, THREE_STEPS)
    ensures var m, r, st' := st.toReceiver[0], st.receiver, Run(c, st, THREE_STEPS);
      && st'.receiver.pc == Waiting && st'.receiver.mac == r.mac
      && st'.toReceiver == st.toReceiver[1..] && st'.sender == st.sender
      && st'.history.verdicts == st.history.verdicts + [Passes(c.suite, r.mac.key, m)]
  {
    var m := st.toReceiver[0];
    var st1 := Step(c, st, TheReceiver);
    assert st1.receiver.message == m;
    var st2 := Step(c, st1, TheReceiver);
    assert [] + m[..|m| - 16] == m[..|m| - 16];
    ThreeSteps(c, st, TheReceiver);
  }

  /**
   Any message the periodic loop takes is accepted if and only if it is a payload followed by the
   CMAC of that payload under the receiver's MAC key. An empty message ends the loop, one of 1 to 15
   bytes is sliced out of range.
   */
  lemma AcceptedIffGenuine(c: Config, st: State)
    requires st.receiver.pc == Waiting && st.toReceiver != [] && |st.toReceiver[0]| <= 1024
    requires st.receiver.mac.pending == []
    ensures var m, key := st.toReceiver[0], st.receiver.mac.key;
      && Feasible(c, st, ONE_STEP)
      && (Run(c, st, ONE_STEP).receiver.pc == ReceiverDone <==> m == [])
      && (Run(c, st, ONE_STEP).receiver.pc == ReceiverFaulted <==> 1 <= |m| <= 15)
      && (16 <= |m| ==>
            && Feasible(c, st, THREE_STEPS)
            && var st' := Run(c, st, THREE_STEPS);
               && st'.receiver.pc == Waiting && st'.receiver.mac == st.receiver.mac
               && st'.toReceiver == st.toReceiver[1..]
               && exists v :: st'.history.verdicts == st.history.verdicts + [v]
                           && (v <==> exists body: Bytes :: m == body + c.suite.cmac(key, body)))
  {
    OneStep(c, st, TheReceiver);
    if 16 <= |st.toReceiver[0]| {
      Checked(c, st);
      PassesIff(c.suite, st.receiver.mac.key, st.toReceiver[0]);
    }
  }

  /**
   The sender enters its periodic loop if and only if what it took decrypts to a key of sixteen
   bytes, and then it uses that key; otherwise an exception leaves the process.
   */
  lemma AnswerAcceptedIff(c: Config, st: State, key: Bytes)
    requires st.sender.pc == AwaitingSymmetricKey && st.toSender != []
    ensures Feasible(c, st, [TheSender])
    ensures var st' := Run(c, st, [TheSender]);
      && st'.toSender == st.toSender[1..] && st'.toReceiver == st.toReceiver && st'.receiver == st.receiver
      && (c.suite.dec(c.secretKey, st.toSender[0]) == Some(key) && |key| == 16 <==>
            st'.sender.pc == LoopHead && st'.sender.key == st'.sender.mac.key == key)
      && (st'.sender.pc == LoopHead || st'.sender.pc == SenderFaulted)
  {
    OneStep(c, st, TheSender);
  }

  /**
   The receiver goes on to answer, with the key it took, if and only if what it took is an RSA public key;
   otherwise an exception leaves the process.
   */
  lemma PublicKeyAcceptedIff(c: Config, st: State, key: nat)
    requires st.receiver.pc == AwaitingPublicKey && st.toReceiver != []
    ensures Feasible(c, st, ONE_STEP)
    ensures var st' := Run(c, st, ONE_STEP);
      && st'.toReceiver == st.toReceiver[1..] && st'.toSender == st.toSender && st'.sender == st.sender
      && (c.suite.load(st.toReceiver[0]) == Some(key) <==>
            st'.receiver.pc == DerivingKey && st'.receiver.publicKey == Some(key))
      && (c.suite.load(st.toReceiver[0]) == None <==> st'.receiver.pc == ReceiverFaulted)
  {
    OneStep(c, st, TheReceiver);
  }

  /** From there it sends its generated key, encrypted under the key it took, unless that exceeds 1024 bytes. */
  lemma ReplyIs(c: Config, st: State, key: nat)
    requires st.receiver.pc == DerivingKey && st.receiver.publicKey == Some(key) && |st.toSender| < c.capacity
    ensures var reply, two := c.suite.enc(key, c.symmetricKey, c.nonce), [TheReceiver, TheReceiver];
      && Feasible(c, st, two)
      && Run(c, st, two).toSender == (if |reply| <= 1024 then st.toSender + [reply] else st.toSender)
      && Run(c, st, two).receiver.pc == Waiting
      && Run(c, st, two).receiver.mac == Mac(c.symmetricKey, [])
  {
    OneMoreStep(c, st, [TheReceiver], TheReceiver);
    OneStep(c, st, TheReceiver);
    assert [TheReceiver] + [TheReceiver] == [TheReceiver, TheReceiver];
  }
}
