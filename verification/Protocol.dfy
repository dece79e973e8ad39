/**
 The two processes as a transition system over two bounded blocking FIFO queues.

 Each process is deterministic, so one step is named by the process that takes it and a run is
 a sequence of process names: quantifying over schedules quantifies over all interleavings.
 Randomness (keys, encryption nonce) is drawn from the configuration.
 */
module Protocol {
  import opened ByteTypes
  import opened Crypto
  import opened Frames

  datatype Config = Config(
    suite: Suite,
    secretKey: nat,         // the sender's RSA key
    initialKey: Bytes,      // what the sender's symmetric_key holds before the exchange
    symmetricKey: Bytes,    // what the receiver's generator will produce
    nonce: Bytes,           // randomness of the RSA encryption
    frames: nat,            // kNumMessagesToSend
    capacity: nat)          // kMaxMessages
  {
    ghost predicate Valid() {
      suite.Lawful() && |symmetricKey| == SYM_KEY_SIZE && 1 <= capacity
    }

    function PublicKeyMessage(): Bytes {
      suite.der(suite.publicOf(secretKey))
    }

    function SymmetricKeyMessage(): Bytes {
      suite.enc(suite.publicOf(secretKey), symmetricKey, nonce)
    }

    /** Both messages of the key exchange fit into a queue slot. */
    predicate Fits() {
      |PublicKeyMessage()| <= MESSAGE_SIZE && |SymmetricKeyMessage()| <= MESSAGE_SIZE
    }

    function KeyFrame(k: nat): FrameBuffer {
      Frame(suite, symmetricKey, k)
    }
  }

  datatype SenderPc =
    | SendingPublicKey
    | AwaitingSymmetricKey
    | LoopHead        // test of the for loop, then the counter byte
    | Updating        // mac->update over the payload
    | Finalising      // mac->final, then memcpy of the tag
    | SendingFrame
    | SenderDone
    | SenderFaulted   // an exception left the process

  datatype Sender = Sender(pc: SenderPc, key: Bytes, mac: Mac, index: nat, buffer: FrameBuffer)

  datatype ReceiverPc =
    | AwaitingPublicKey
    | DerivingKey
    | SendingSymmetricKey
    | Waiting         // mq_receive of the periodic loop
    | Authenticating  // update over everything but the last sixteen bytes
    | Comparing       // final, then the comparison
    | ReceiverDone    // an empty message ended the loop
    | ReceiverFaulted // an exception, or iterator arithmetic outside the message

  datatype Receiver = Receiver(
    pc: ReceiverPc,
    publicKey: Option<nat>,
    key: Bytes,
    mac: Mac,
    buffer: ReceiveBuffer,
    message: Bytes)        // temp_vec

  /** What each call site put on or took off a queue so far, and every comparison's outcome. */
  datatype History = History(
    framesSent: seq<Bytes>,
    keysTaken: seq<Bytes>,
    framesTaken: seq<Bytes>,
    answersTaken: seq<Bytes>,
    verdicts: seq<bool>)

  datatype State = State(
    sender: Sender,
    receiver: Receiver,
    toReceiver: seq<Bytes>,
    toSender: seq<Bytes>,
    history: History)

  datatype Process = TheSender | TheReceiver

  function Init(c: Config): State {
    State(
      Sender(SendingPublicKey, c.initialKey, Mac([], []), 0, FreshBuffer()),
      Receiver(AwaitingPublicKey, None, Fill(SYM_KEY_SIZE, 0), Mac([], []), ZeroBuffer(), []),
      [], [], History([], [], [], [], []))
  }

  /** Can the process move, or is it blocked on a queue or finished? */
  predicate CanStep(c: Config, st: State, p: Process) {
    match p
    case TheSender =>
      (match st.sender.pc
       case SendingPublicKey => MESSAGE_SIZE < |c.PublicKeyMessage()| || |st.toReceiver| < c.capacity
       case AwaitingSymmetricKey => st.toSender != []
       case SendingFrame => |st.toReceiver| < c.capacity
       case SenderDone => false
       case SenderFaulted => false
       case _ => true)
    case TheReceiver =>
      (match st.receiver.pc
       case AwaitingPublicKey => st.toReceiver != []
       case SendingSymmetricKey => MESSAGE_SIZE < |Answer(c, st)| || |st.toSender| < c.capacity
       case Waiting => st.toReceiver != []
       case ReceiverDone => false
       case ReceiverFaulted => false
       case _ => true)
  }

  /** The receiver's reply, encrypted under whatever public key it has loaded. */
  function Answer(c: Config, st: State): Bytes {
    match st.receiver.publicKey
    case None => []
    case Some(pk) => c.suite.enc(pk, st.receiver.key, c.nonce)
  }

  function Step(c: Config, st: State, p: Process): State
    requires CanStep(c, st, p)
  {
    match p
    case TheSender => SenderStep(c, st)
    case TheReceiver => ReceiverStep(c, st)
  }

  function SenderStep(c: Config, st: State): State
    requires CanStep(c, st, TheSender)
  {
    var s := st.sender;
    match s.pc
    case SendingPublicKey =>
      var key := c.PublicKeyMessage();
      // An oversized key is reported by send_public_key; main overwrites the status and goes on.
      st.(sender := s.(pc := AwaitingSymmetricKey),
          toReceiver := if |key| <= MESSAGE_SIZE then st.toReceiver + [key] else st.toReceiver)
    case AwaitingSymmetricKey =>
      var answer := st.toSender[0];
      var st' := st.(toSender := st.toSender[1..],
                     history := st.history.(answersTaken := st.history.answersTaken + [answer]));
      (match c.suite.dec(c.secretKey, answer)
       case Some(key) =>
         if |key| == SYM_KEY_SIZE then
           st'.(sender := Sender(LoopHead, key, Mac(key, []), 0, FreshBuffer()))
         else
           st'.(sender := s.(pc := SenderFaulted, key := key))
       case None => st'.(sender := s.(pc := SenderFaulted)))
    case LoopHead =>
      if s.index < c.frames then
        st.(sender := s.(pc := Updating, buffer := s.buffer[BUFFER_SIZE - 1 := Counter(s.index)]))
      else
        st.(sender := s.(pc := SenderDone))
    case Updating =>
      st.(sender := s.(pc := Finalising, mac := s.mac.Update(s.buffer[..BUFFER_SIZE])))
    case Finalising =>
      var (tag, mac) := s.mac.Final(c.suite);
      st.(sender := s.(pc := SendingFrame, mac := mac, buffer := Overwrite(s.buffer, BUFFER_SIZE, tag)))
    case SendingFrame =>
      st.(sender := s.(pc := LoopHead, index := s.index + 1),
          toReceiver := st.toReceiver + [s.buffer],
          history := st.history.(framesSent := st.history.framesSent + [s.buffer]))
  }

  function ReceiverStep(c: Config, st: State): State
    requires CanStep(c, st, TheReceiver)
  {
    var r := st.receiver;
    match r.pc
    case AwaitingPublicKey =>
      var message := st.toReceiver[0];
      var loaded := c.suite.load(message);
      st.(toReceiver := st.toReceiver[1..],
          history := st.history.(keysTaken := st.history.keysTaken + [message]),
          receiver := r.(pc := if loaded.Some? then DerivingKey else ReceiverFaulted, publicKey := loaded))
    case DerivingKey =>
      st.(receiver := r.(pc := SendingSymmetricKey, key := c.symmetricKey))
    case SendingSymmetricKey =>
      var answer := Answer(c, st);
      // A refused mq_send is reported by send_symmetric_key; main overwrites the status and goes on.
      st.(receiver := r.(pc := Waiting, mac := Mac(r.key, []), buffer := ZeroBuffer()),
          toSender := if |answer| <= MESSAGE_SIZE then st.toSender + [answer] else st.toSender)
    case Waiting =>
      var message := st.toReceiver[0];
      var st' := st.(toReceiver := st.toReceiver[1..],
                     history := st.history.(framesTaken := st.history.framesTaken + [message]));
      if message == [] then
        st'.(receiver := r.(pc := ReceiverDone))
      else if |message| < CMAC_SIZE || MESSAGE_SIZE < |message| then
        st'.(receiver := r.(pc := ReceiverFaulted))
      else
        var buffer := Overwrite(r.buffer, 0, message);
        st'.(receiver := r.(pc := Authenticating, buffer := buffer, message := buffer[..|message|]))
    case Authenticating =>
      if |r.message| < CMAC_SIZE then
        st.(receiver := r.(pc := ReceiverFaulted))
      else
        st.(receiver := r.(pc := Comparing, mac := r.mac.Update(r.message[..|r.message| - CMAC_SIZE])))
    case Comparing =>
      if |r.message| < CMAC_SIZE then
        st.(receiver := r.(pc := ReceiverFaulted))
      else
        var (tag, mac) := r.mac.Final(c.suite);
        st.(receiver := r.(pc := Waiting, mac := mac),
            history := st.history.(verdicts := st.history.verdicts + [r.message[|r.message| - CMAC_SIZE..] == tag]))
  }

  /** Can the scheduler pick the processes in this order? */
  predicate Feasible(c: Config, st: State, schedule: seq<Process>)
    decreases |schedule|
  {
    schedule == [] ||
    (CanStep(c, st, schedule[0]) && Feasible(c, Step(c, st, schedule[0]), schedule[1..]))
  }

  function Run(c: Config, st: State, schedule: seq<Process>): State
    requires Feasible(c, st, schedule)
    decreases |schedule|
  {
    if schedule == [] then st else Run(c, Step(c, st, schedule[0]), schedule[1..])
  }

  predicate Quiescent(c: Config, st: State) {
    !CanStep(c, st, TheSender) && !CanStep(c, st, TheReceiver)
  }

  /** `st` is reached from the initial state by some schedule. */
  ghost predicate Reachable(c: Config, st: State) {
    exists schedule :: Feasible(c, Init(c), schedule) && Run(c, Init(c), schedule) == st
  }
}
