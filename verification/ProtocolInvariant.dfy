/** The inductive invariant of the protocol, and the proof that every step keeps it. */
module ProtocolInvariant {
  import opened ByteTypes
  import opened Crypto
  import opened Frames
  import opened Protocol

  /** Has the sender left receive_symmetric_key? */
  predicate KeyReceived(pc: SenderPc) {
    pc != SendingPublicKey && pc != AwaitingSymmetricKey
  }

  predicate KeyKnown(pc: ReceiverPc) {
    pc == SendingSymmetricKey || InPeriodicPhase(pc)
  }

  predicate InPeriodicPhase(pc: ReceiverPc) {
    pc == Waiting || pc == Authenticating || pc == Comparing
  }

  /** The public key message, once it has been put on the queue. */
  function KeyMessages(c: Config, st: State): seq<Bytes> {
    if st.sender.pc == SendingPublicKey || MESSAGE_SIZE < |c.PublicKeyMessage()| then [] else [c.PublicKeyMessage()]
  }

  /** The reply, once it has been put on the queue. */
  function AnswerMessages(c: Config, st: State): seq<Bytes> {
    if !InPeriodicPhase(st.receiver.pc) || MESSAGE_SIZE < |c.SymmetricKeyMessage()| then []
    else [c.SymmetricKeyMessage()]
  }

  /** The sender's reused buffer at the loop head: still the previous frame, stale tag included. */
  function BufferAt(c: Config, index: nat): FrameBuffer {
    if index == 0 then FreshBuffer() else c.KeyFrame(index - 1)
  }

  /** The receiver's reused buffer after `taken` frames: the last one over the initial zeros. */
  function InboxAt(c: Config, taken: nat): ReceiveBuffer {
    if taken == 0 then ZeroBuffer() else Overwrite(ZeroBuffer(), 0, c.KeyFrame(taken - 1))
  }

  function LastFrame(c: Config, taken: nat): Bytes {
    if taken == 0 then [] else c.KeyFrame(taken - 1)
  }

  predicate SenderInv(c: Config, s: Sender) {
    var key := c.symmetricKey;
    match s.pc
    case SendingPublicKey => s == Init(c).sender.(pc := SendingPublicKey)
    case AwaitingSymmetricKey => s == Init(c).sender.(pc := AwaitingSymmetricKey)
    case LoopHead =>
      s.key == key && s.mac == Mac(key, []) && s.index <= c.frames && s.buffer == BufferAt(c, s.index)
    case Updating =>
      && s.key == key && s.mac == Mac(key, []) && s.index < c.frames
      && s.buffer == BufferAt(c, s.index)[BUFFER_SIZE - 1 := Counter(s.index)]
    case Finalising =>
      && s.key == key && s.mac == Mac(key, Body(s.index)) && s.index < c.frames
      && s.buffer == BufferAt(c, s.index)[BUFFER_SIZE - 1 := Counter(s.index)]
    case SendingFrame =>
      s.key == key && s.mac == Mac(key, []) && s.index < c.frames && s.buffer == c.KeyFrame(s.index)
    case SenderDone =>
      s.key == key && s.mac == Mac(key, []) && s.index == c.frames && s.buffer == BufferAt(c, s.index)
    case SenderFaulted => false
  }

  predicate ReceiverInv(c: Config, r: Receiver, taken: nat, verdicts: seq<bool>) {
    var key := c.symmetricKey;
    && r.publicKey == (if r.pc == AwaitingPublicKey then None else Some(c.suite.publicOf(c.secretKey)))
    && r.key == (if KeyKnown(r.pc) then key else Fill(SYM_KEY_SIZE, 0))
    && match r.pc
       case Waiting =>
         && r.mac == Mac(key, []) && r.buffer == InboxAt(c, taken) && r.message == LastFrame(c, taken)
         && verdicts == seq(taken, _ => true)
       case Authenticating =>
         && r.mac == Mac(key, []) && r.buffer == InboxAt(c, taken) && r.message == LastFrame(c, taken)
         && 1 <= taken && verdicts == seq(taken - 1, _ => true)
       case Comparing =>
         && 1 <= taken && r.mac == Mac(key, Body(taken - 1)) && r.buffer == InboxAt(c, taken)
         && r.message == LastFrame(c, taken) && verdicts == seq(taken - 1, _ => true)
       case ReceiverDone => false
       case ReceiverFaulted => false
       case _ =>
         && r.mac == Mac([], []) && r.buffer == ZeroBuffer() && r.message == []
         && taken == 0 && verdicts == []
  }

  predicate ChannelInv(c: Config, st: State) {
    var h := st.history;
    && h.keysTaken == (if st.receiver.pc == AwaitingPublicKey then [] else [c.PublicKeyMessage()])
    && h.keysTaken + h.framesTaken + st.toReceiver == KeyMessages(c, st) + h.framesSent
    && (st.receiver.pc != AwaitingPublicKey ==> KeyMessages(c, st) == [c.PublicKeyMessage()])
    && h.framesSent == FramesUpTo(c.suite, c.symmetricKey, st.sender.index)
    && (if KeyReceived(st.sender.pc) then InPeriodicPhase(st.receiver.pc) else st.sender.index == 0)
    && h.answersTaken + st.toSender == AnswerMessages(c, st)
    && h.answersTaken ==
       (if KeyReceived(st.sender.pc) then [c.SymmetricKeyMessage()] else [])
    && |st.toReceiver| <= c.capacity
    && |st.toSender| <= c.capacity
  }

  predicate Inv(c: Config, st: State) {
    && SenderInv(c, st.sender)
    && ReceiverInv(c, st.receiver, |st.history.framesTaken|, st.history.verdicts)
    && ChannelInv(c, st)
  }

  lemma InitInv(c: Config)
    requires c.Valid()
    ensures Inv(c, Init(c))
  {
  }

  lemma SendKeyKeepsInv(c: Config, st: State)
    requires c.Valid() && Inv(c, st) && CanStep(c, st, TheSender) && st.sender.pc == SendingPublicKey
    ensures Inv(c, SenderStep(c, st))
  {
  }

  lemma TakeAnswerKeepsInv(c: Config, st: State)
    requires c.Valid() && Inv(c, st) && CanStep(c, st, TheSender) && st.sender.pc == AwaitingSymmetricKey
    ensures Inv(c, SenderStep(c, st))
  {
    assert st.history.answersTaken + st.toSender == st.toSender;
    assert st.toSender == [c.SymmetricKeyMessage()];
    assert c.suite.dec(c.secretKey, st.toSender[0]) == Some(c.symmetricKey);
    var st' := SenderStep(c, st);
    assert st'.receiver == st.receiver && st'.toReceiver == st.toReceiver;
  }

  /** Steps that touch no queue keep the channel invariant. */
  lemma LocalStepKeepsChannels(c: Config, st: State, st': State)
    requires ChannelInv(c, st)
    requires st'.toReceiver == st.toReceiver && st'.toSender == st.toSender
    requires st'.history == st.history.(verdicts := st'.history.verdicts)
    requires st'.sender.index == st.sender.index && KeyReceived(st'.sender.pc) == KeyReceived(st.sender.pc)
    requires KeyMessages(c, st') == KeyMessages(c, st) && AnswerMessages(c, st') == AnswerMessages(c, st)
    requires InPeriodicPhase(st'.receiver.pc) == InPeriodicPhase(st.receiver.pc)
    requires (st'.receiver.pc == AwaitingPublicKey) == (st.receiver.pc == AwaitingPublicKey)
    ensures ChannelInv(c, st')
  {
  }

  lemma LocalWorkKeepsSenderInv(c: Config, st: State)
    requires SenderInv(c, st.sender) && st.sender.pc in {LoopHead, Updating, Finalising}
    ensures SenderInv(c, SenderStep(c, st).sender)
  {
  }

  lemma LocalWorkKeepsInv(c: Config, st: State)
    requires c.Valid() && Inv(c, st) && st.sender.pc in {LoopHead, Updating, Finalising}
    ensures Inv(c, SenderStep(c, st))
  {
    LocalWorkKeepsSenderInv(c, st);
    var st' := SenderStep(c, st);
    assert st' == st.(sender := st'.sender) && st'.sender.index == st.sender.index;
    LocalStepKeepsChannels(c, st, st');
  }

  lemma SendFrameKeepsChannels(c: Config, st: State)
    requires SenderInv(c, st.sender) && ChannelInv(c, st) && CanStep(c, st, TheSender) && st.sender.pc == SendingFrame
    ensures ChannelInv(c, SenderStep(c, st))
  {
    var st' := SenderStep(c, st);
    var h, h' := st.history, st'.history;
    assert h'.framesSent == FramesUpTo(c.suite, c.symmetricKey, st.sender.index + 1);
    assert h'.keysTaken + h'.framesTaken + st'.toReceiver
        == (h.keysTaken + h.framesTaken + st.toReceiver) + [st.sender.buffer];
    assert KeyMessages(c, st') + h'.framesSent == (KeyMessages(c, st) + h.framesSent) + [st.sender.buffer];
  }

  lemma SendFrameKeepsInv(c: Config, st: State)
    requires c.Valid() && Inv(c, st) && CanStep(c, st, TheSender) && st.sender.pc == SendingFrame
    ensures Inv(c, SenderStep(c, st))
  {
    SendFrameKeepsChannels(c, st);
  }

  lemma SenderKeepsInv(c: Config, st: State)
    requires c.Valid() && Inv(c, st) && CanStep(c, st, TheSender)
    ensures Inv(c, SenderStep(c, st))
  {
    match st.sender.pc
    case SendingPublicKey => SendKeyKeepsInv(c, st);
    case AwaitingSymmetricKey => TakeAnswerKeepsInv(c, st);
    case SendingFrame => SendFrameKeepsInv(c, st);
    case _ => LocalWorkKeepsInv(c, st);
  }

  lemma CancelHead<T>(x: T, a: seq<T>, b: seq<T>, z: seq<T>)
    requires [x] + a + b == [x] + z
    ensures a + b == z
  {
    assert ([x] + a + b)[1..] == a + b;
    assert ([x] + z)[1..] == z;
  }

  /** Seen from the periodic loop: frames taken, then frames still queued, are the frames sent. */
  lemma TakenAreSent(c: Config, st: State)
    requires Inv(c, st) && InPeriodicPhase(st.receiver.pc)
    ensures st.history.framesTaken + st.toReceiver == st.history.framesSent
    ensures |st.history.framesTaken| <= st.sender.index
    ensures forall k | 0 <= k < |st.history.framesTaken| :: st.history.framesTaken[k] == c.KeyFrame(k)
  {
    var h := st.history;
    CancelHead(c.PublicKeyMessage(), h.framesTaken, st.toReceiver, h.framesSent);
    forall k | 0 <= k < |h.framesTaken|
      ensures h.framesTaken[k] == c.KeyFrame(k)
    {
      assert h.framesTaken[k] == (h.framesTaken + st.toReceiver)[k];
    }
  }

  /** The head of the queue, seen from the periodic loop, is the next frame. */
  lemma NextFrame(c: Config, st: State)
    requires Inv(c, st) && st.receiver.pc == Waiting && st.toReceiver != []
    ensures st.toReceiver[0] == c.KeyFrame(|st.history.framesTaken|)
  {
    TakenAreSent(c, st);
    var h := st.history;
    assert (h.framesTaken + st.toReceiver)[|h.framesTaken|] == st.toReceiver[0];
  }

  lemma FramePasses(c: Config, k: nat)
    ensures c.KeyFrame(k)[..BUFFER_SIZE] == Body(k)
    ensures c.KeyFrame(k)[BUFFER_SIZE..] == c.suite.cmac(c.symmetricKey, Body(k))
  {
  }

  lemma FirstIsPublicKey(c: Config, st: State)
    requires ChannelInv(c, st) && st.receiver.pc == AwaitingPublicKey && st.toReceiver != []
    requires st.history.framesTaken == []
    ensures st.toReceiver == [c.PublicKeyMessage()]
    ensures st.history.framesSent == []
  {
    var h := st.history;
    assert h.keysTaken + h.framesTaken + st.toReceiver == st.toReceiver;
    assert KeyMessages(c, st) + h.framesSent == KeyMessages(c, st);
  }

  lemma TakeKeyKeepsInv(c: Config, st: State)
    requires c.Valid() && Inv(c, st) && CanStep(c, st, TheReceiver) && st.receiver.pc == AwaitingPublicKey
    ensures Inv(c, ReceiverStep(c, st))
  {
    FirstIsPublicKey(c, st);
    var st' := ReceiverStep(c, st);
    var h, h' := st.history, st'.history;
    assert h'.keysTaken == [c.PublicKeyMessage()];
    assert h'.keysTaken + h'.framesTaken + st'.toReceiver == h.keysTaken + h.framesTaken + st.toReceiver;
    assert st'.sender == st.sender;
  }

  lemma AnswerKeepsInv(c: Config, st: State)
    requires c.Valid() && Inv(c, st) && CanStep(c, st, TheReceiver)
    requires st.receiver.pc == DerivingKey || st.receiver.pc == SendingSymmetricKey
    ensures Inv(c, ReceiverStep(c, st))
  {
  }

  lemma TakeFrameKeepsChannels(c: Config, st: State)
    requires ChannelInv(c, st) && CanStep(c, st, TheReceiver) && st.receiver.pc == Waiting
    requires st.toReceiver[0] == c.KeyFrame(|st.history.framesTaken|)
    ensures ChannelInv(c, ReceiverStep(c, st))
  {
  }

  lemma OverwriteAgain<T>(buffer: seq<T>, a: seq<T>, b: seq<T>)
    requires |a| == |b| <= |buffer|
    ensures Overwrite(Overwrite(buffer, 0, a), 0, b) == Overwrite(buffer, 0, b)
    ensures Overwrite(buffer, 0, b)[..|b|] == b
  {
  }

  lemma TakeFrameKeepsReceiverInv(c: Config, st: State)
    requires ReceiverInv(c, st.receiver, |st.history.framesTaken|, st.history.verdicts)
    requires CanStep(c, st, TheReceiver) && st.receiver.pc == Waiting
    requires st.toReceiver[0] == c.KeyFrame(|st.history.framesTaken|)
    ensures var st' := ReceiverStep(c, st);
      ReceiverInv(c, st'.receiver, |st'.history.framesTaken|, st'.history.verdicts)
  {
    hide Overwrite, Frame;
    var taken := |st.history.framesTaken|;
    OverwriteAgain(ZeroBuffer(), LastFrame(c, if taken == 0 then 1 else taken), c.KeyFrame(taken));
  }

  lemma TakeFrameKeepsInv(c: Config, st: State)
    requires c.Valid() && Inv(c, st) && CanStep(c, st, TheReceiver) && st.receiver.pc == Waiting
    ensures Inv(c, ReceiverStep(c, st))
  {
    NextFrame(c, st);
    TakeFrameKeepsChannels(c, st);
    TakeFrameKeepsReceiverInv(c, st);
  }

  lemma CheckKeepsInv(c: Config, st: State)
    requires c.Valid() && Inv(c, st)
    requires st.receiver.pc == Authenticating || st.receiver.pc == Comparing
    ensures Inv(c, ReceiverStep(c, st))
  {
  }

  lemma ReceiverKeepsInv(c: Config, st: State)
    requires c.Valid() && Inv(c, st) && CanStep(c, st, TheReceiver)
    ensures Inv(c, ReceiverStep(c, st))
  {
    match st.receiver.pc
    case AwaitingPublicKey => TakeKeyKeepsInv(c, st);
    case Waiting => TakeFrameKeepsInv(c, st);
    case Authenticating => CheckKeepsInv(c, st);
    case Comparing => CheckKeepsInv(c, st);
    case _ => AnswerKeepsInv(c, st);
  }

  lemma StepKeepsInv(c: Config, st: State, p: Process)
    requires c.Valid() && Inv(c, st) && CanStep(c, st, p)
    ensures Inv(c, Step(c, st, p))
  {
    match p
    case TheSender => SenderKeepsInv(c, st);
    case TheReceiver => ReceiverKeepsInv(c, st);
  }

  lemma {:induction false} RunKeepsInv(c: Config, st: State, schedule: seq<Process>)
    requires c.Valid() && Inv(c, st) && Feasible(c, st, schedule)
    ensures Inv(c, Run(c, st, schedule))
    decreases |schedule|
  {
    if schedule != [] {
      StepKeepsInv(c, st, schedule[0]);
      RunKeepsInv(c, Step(c, st, schedule[0]), schedule[1..]);
    }
  }

  lemma ReachableInv(c: Config, st: State)
    requires c.Valid() && Reachable(c, st)
    ensures Inv(c, st)
  {
    InitInv(c);
    var schedule :| Feasible(c, Init(c), schedule) && Run(c, Init(c), schedule) == st;
    RunKeepsInv(c, Init(c), schedule);
  }
}
