/** What every run of the two processes satisfies, whatever the interleaving. */
module ProtocolTheorems {
  import opened ByteTypes
  import opened Crypto
  import opened Frames
  import opened Protocol
  import opened ProtocolInvariant

  /** Is the receiver between taking a frame and comparing its tag? */
  predicate Checking(st: State) {
    st.receiver.pc == Authenticating || st.receiver.pc == Comparing
  }

  lemma RunInv(c: Config, schedule: seq<Process>)
    requires c.Valid() && Feasible(c, Init(c), schedule)
    ensures Inv(c, Run(c, Init(c), schedule))
  {
    InitInv(c);
    RunKeepsInv(c, Init(c), schedule);
  }

  // ---------- Authentication ----------

  /** Every comparison made so far succeeded, every taken frame had one (or is about to), nothing faulted. */
  ghost predicate Authenticated(c: Config, st: State) {
    var h := st.history;
    && (forall v | v in h.verdicts :: v)
    && |h.verdicts| + (if Checking(st) then 1 else 0) == |h.framesTaken|
    && (forall m | m in h.framesTaken :: |m| == 36 && m[20..] == c.suite.cmac(c.symmetricKey, m[..20]))
    && st.sender.pc != SenderFaulted && st.receiver.pc != ReceiverFaulted && st.receiver.pc != ReceiverDone
  }

  lemma TakenPass(c: Config, st: State)
    requires Inv(c, st)
    ensures forall m | m in st.history.framesTaken :: |m| == 36 && m[20..] == c.suite.cmac(c.symmetricKey, m[..20])
  {
    if InPeriodicPhase(st.receiver.pc) {
      TakenAreSent(c, st);
    }
    forall k | 0 <= k < |st.history.framesTaken|
      ensures c.KeyFrame(k)[20..] == c.suite.cmac(c.symmetricKey, c.KeyFrame(k)[..20])
    {
      FramePasses(c, k);
    }
  }

  lemma InvAuthenticates(c: Config, st: State)
    requires Inv(c, st)
    ensures Authenticated(c, st)
  {
    TakenPass(c, st);
  }

  /**
   Along every run, each frame the receiver takes is compared exactly once and passes. Neither
   process ever faults, so every slice of the received message is in range.
   */
  lemma EveryComparisonSucceeds(c: Config, schedule: seq<Process>)
    requires c.Valid() && Feasible(c, Init(c), schedule)
    ensures Authenticated(c, Run(c, Init(c), schedule))
  {
    RunInv(c, schedule);
    InvAuthenticates(c, Run(c, Init(c), schedule));
  }

  // ---------- Key agreement ----------

  ghost predicate Agreed(c: Config, st: State) {
    && st.sender.key == st.receiver.key == c.symmetricKey
    && st.sender.mac.key == st.receiver.mac.key == c.symmetricKey
  }

  lemma InvAgrees(c: Config, st: State)
    requires Inv(c, st) && KeyReceived(st.sender.pc)
    ensures Agreed(c, st)
  {
  }

  lemma {:induction false} KeyExchangeIsOver(c: Config, st: State, schedule: seq<Process>)
    requires Feasible(c, st, schedule) && KeyReceived(st.sender.pc)
    ensures KeyReceived(Run(c, st, schedule).sender.pc)
    decreases |schedule|
  {
    if schedule != [] {
      KeyExchangeIsOver(c, Step(c, st, schedule[0]), schedule[1..]);
    }
  }

  /**
   Once the sender has left receive_symmetric_key, both sides hold the key the receiver generated,
   whatever the sender's buffer held before, and every continuation of the run keeps it.
   */
  lemma KeysAgree(c: Config, before: seq<Process>, after: seq<Process>)
    requires c.Valid() && Feasible(c, Init(c), before)
    requires KeyReceived(Run(c, Init(c), before).sender.pc)
    requires Feasible(c, Run(c, Init(c), before), after)
    ensures Agreed(c, Run(c, Run(c, Init(c), before), after))
  {
    var st := Run(c, Init(c), before);
    KeyExchangeIsOver(c, st, after);
    RunInv(c, before);
    RunKeepsInv(c, st, after);
    InvAgrees(c, Run(c, st, after));
  }

  // ---------- Phases and conservation ----------

  /**
   get_public_key takes the public key and nothing else, the periodic loop takes frames 0, 1, 2, ...
   and nothing else, and the reverse queue carries the encrypted key and nothing else.
   */
  ghost predicate PhaseSafe(c: Config, st: State) {
    var h := st.history;
    && h.keysTaken <= [c.PublicKeyMessage()]
    && h.framesTaken <= FramesUpTo(c.suite, c.symmetricKey, c.frames)
    && h.answersTaken + st.toSender <= [c.SymmetricKeyMessage()]
    && (h.framesTaken != [] ==>
          h.keysTaken == [c.PublicKeyMessage()] && h.answersTaken == [c.SymmetricKeyMessage()])
  }

  lemma IndexInRange(c: Config, st: State)
    requires Inv(c, st)
    ensures st.sender.index <= c.frames
    ensures !KeyReceived(st.sender.pc) ==> st.sender.index == 0
    ensures |st.history.framesTaken| <= st.sender.index
  {
    if InPeriodicPhase(st.receiver.pc) {
      TakenAreSent(c, st);
    }
  }

  lemma InvIsPhaseSafe(c: Config, st: State)
    requires Inv(c, st)
    ensures PhaseSafe(c, st)
  {
    IndexInRange(c, st);
    if InPeriodicPhase(st.receiver.pc) {
      TakenAreSent(c, st);
    }
  }

  lemma PhasesAgree(c: Config, schedule: seq<Process>)
    requires c.Valid() && Feasible(c, Init(c), schedule)
    ensures PhaseSafe(c, Run(c, Init(c), schedule))
  {
    RunInv(c, schedule);
    InvIsPhaseSafe(c, Run(c, Init(c), schedule));
  }

  /** Nothing is lost, duplicated or reordered on the way, and no queue overflows. */
  ghost predicate Conserved(c: Config, st: State) {
    var h := st.history;
    && (InPeriodicPhase(st.receiver.pc) ==> h.framesTaken + st.toReceiver == h.framesSent)
    && (!InPeriodicPhase(st.receiver.pc) ==>
          h.framesSent == [] && h.keysTaken + st.toReceiver <= [c.PublicKeyMessage()])
    && |h.framesSent| == st.sender.index <= c.frames
    && |st.toReceiver| <= c.capacity && |st.toSender| <= c.capacity
    && forall k | 0 <= k < |h.framesSent| :: WellShaped(h.framesSent[k], k)
  }

  /** Nineteen 0xFF bytes, the message number modulo 256, sixteen more bytes. */
  predicate WellShaped(frame: Bytes, k: nat) {
    && |frame| == 36
    && (forall i | 0 <= i < 19 :: frame[i] == 0xFF)
    && frame[19] == k % 256
  }

  lemma FrameIsWellShaped(c: Config, k: nat)
    ensures WellShaped(c.KeyFrame(k), k)
  {
  }

  lemma InvConserves(c: Config, st: State)
    requires Inv(c, st)
    ensures Conserved(c, st)
  {
    IndexInRange(c, st);
    var h := st.history;
    if InPeriodicPhase(st.receiver.pc) {
      TakenAreSent(c, st);
    } else {
      assert KeyMessages(c, st) + h.framesSent == KeyMessages(c, st);
    }
    forall k | 0 <= k < |h.framesSent|
      ensures WellShaped(h.framesSent[k], k)
    {
      FrameIsWellShaped(c, k);
    }
  }

  lemma FramesAreConserved(c: Config, schedule: seq<Process>)
    requires c.Valid() && Feasible(c, Init(c), schedule)
    ensures Conserved(c, Run(c, Init(c), schedule))
  {
    RunInv(c, schedule);
    InvConserves(c, Run(c, Init(c), schedule));
  }

  // ---------- Termination and deadlock ----------

  function SenderRank(c: Config, st: State): int {
    var left := 4 * (c.frames - st.sender.index);
    match st.sender.pc
    case SendingPublicKey => left + 3
    case AwaitingSymmetricKey => left + 2
    case LoopHead => left + 1
    case Updating => left
    case Finalising => left - 1
    case SendingFrame => left - 2
    case _ => 0
  }

  function ReceiverRank(c: Config, st: State): int {
    var left := 3 * (c.frames - |st.history.framesTaken|);
    match st.receiver.pc
    case AwaitingPublicKey => left + 3
    case DerivingKey => left + 2
    case SendingSymmetricKey => left + 1
    case Waiting => left
    case Authenticating => left + 2
    case Comparing => left + 1
    case _ => 0
  }

  /** The number of steps still to be taken if nothing blocks for good. */
  function Rank(c: Config, st: State): int {
    SenderRank(c, st) + ReceiverRank(c, st)
  }

  lemma RankIsNatural(c: Config, st: State)
    requires Inv(c, st)
    ensures 0 <= Rank(c, st)
  {
    IndexInRange(c, st);
  }

  lemma SenderLowersRank(c: Config, st: State)
    requires CanStep(c, st, TheSender)
    requires SenderStep(c, st).sender.pc != SenderFaulted
    requires st.sender.index <= c.frames
    requires st.sender.pc == AwaitingSymmetricKey ==> st.sender.index == 0
    ensures Rank(c, SenderStep(c, st)) == Rank(c, st) - 1
  {
  }

  lemma ReceiverLowersRank(c: Config, st: State)
    requires CanStep(c, st, TheReceiver)
    requires ReceiverStep(c, st).receiver.pc != ReceiverFaulted && ReceiverStep(c, st).receiver.pc != ReceiverDone
    ensures Rank(c, ReceiverStep(c, st)) == Rank(c, st) - 1
  {
  }

  lemma StepLowersRank(c: Config, st: State, p: Process)
    requires c.Valid() && Inv(c, st) && CanStep(c, st, p)
    ensures Rank(c, Step(c, st, p)) == Rank(c, st) - 1
  {
    IndexInRange(c, st);
    StepKeepsInv(c, st, p);
    InvAuthenticates(c, Step(c, st, p));
    match p
    case TheSender => SenderLowersRank(c, st);
    case TheReceiver => ReceiverLowersRank(c, st);
  }

  lemma {:induction false} RunLowersRank(c: Config, st: State, schedule: seq<Process>)
    requires c.Valid() && Inv(c, st) && Feasible(c, st, schedule)
    ensures Rank(c, Run(c, st, schedule)) == Rank(c, st) - |schedule|
    decreases |schedule|
  {
    if schedule != [] {
      StepLowersRank(c, st, schedule[0]);
      StepKeepsInv(c, st, schedule[0]);
      RunLowersRank(c, Step(c, st, schedule[0]), schedule[1..]);
    }
  }

  /** Every run is finite: no schedule is longer than seven steps a frame plus six. */
  lemma RunsAreBounded(c: Config, schedule: seq<Process>)
    requires c.Valid() && Feasible(c, Init(c), schedule)
    ensures |schedule| <= 7 * c.frames + 6
  {
    InitInv(c);
    RunKeepsInv(c, Init(c), schedule);
    RunLowersRank(c, Init(c), schedule);
    RankIsNatural(c, Run(c, Init(c), schedule));
  }

  /**
   The one state in which a run can stop. When both key messages fit, the sender is done and the
   receiver waits on an empty queue with every frame checked. Otherwise the exchange is wedged:
   the failed send went unnoticed and the sender waits for a key that never comes.
   */
  function FinalState(c: Config): State {
    var key := c.symmetricKey;
    var waitingSender := Init(c).sender.(pc := AwaitingSymmetricKey);
    if MESSAGE_SIZE < |c.PublicKeyMessage()| then
      Init(c).(sender := waitingSender)
    else
      var n := if c.Fits() then c.frames else 0;
      State(
        if c.Fits() then Sender(SenderDone, key, Mac(key, []), n, BufferAt(c, n)) else waitingSender,
        Receiver(Waiting, Some(c.suite.publicOf(c.secretKey)), key, Mac(key, []), InboxAt(c, n), LastFrame(c, n)),
        [], [],
        History(FramesUpTo(c.suite, key, n), [c.PublicKeyMessage()], FramesUpTo(c.suite, key, n),
                if c.Fits() then [c.SymmetricKeyMessage()] else [], seq(n, _ => true)))
  }

  lemma QuiescentQueuesAreEmpty(c: Config, st: State)
    requires c.Valid() && Inv(c, st) && Quiescent(c, st)
    ensures st.toReceiver == [] && st.toSender == []
    ensures st.sender.pc == AwaitingSymmetricKey || st.sender.pc == SenderDone
    ensures st.receiver.pc == AwaitingPublicKey || st.receiver.pc == Waiting
  {
  }

  lemma QuiescentIsFinal(c: Config, st: State)
    requires c.Valid() && Inv(c, st) && Quiescent(c, st)
    ensures st == FinalState(c)
  {
    QuiescentQueuesAreEmpty(c, st);
    var h := st.history;
    assert h.answersTaken + st.toSender == h.answersTaken;
    assert FramesUpTo(c.suite, c.symmetricKey, 0) == [];
    if st.receiver.pc == Waiting {
      TakenAreSent(c, st);
      assert h.framesTaken + st.toReceiver == h.framesTaken;
    } else {
      assert h.keysTaken + h.framesTaken + st.toReceiver == [];
    }
  }

  lemma CompleteRun(c: Config, schedule: seq<Process>)
    requires c.Valid() && Feasible(c, Init(c), schedule) && Quiescent(c, Run(c, Init(c), schedule))
    ensures Run(c, Init(c), schedule) == FinalState(c)
    ensures |schedule| == Rank(c, Init(c)) - Rank(c, FinalState(c))
  {
    InitInv(c);
    RunInv(c, schedule);
    RunLowersRank(c, Init(c), schedule);
    QuiescentIsFinal(c, Run(c, Init(c), schedule));
  }

  lemma FullRunLength(c: Config)
    requires c.Fits()
    ensures Rank(c, Init(c)) - Rank(c, FinalState(c)) == 7 * c.frames + 6
  {
  }

  /**
   Confluence: all complete runs take the same number of steps and end in the same state, and when
   the key messages fit that number is exactly seven steps a frame plus six.
   */
  lemma CompleteRunsAgree(c: Config, schedule: seq<Process>, other: seq<Process>)
    requires c.Valid()
    requires Feasible(c, Init(c), schedule) && Quiescent(c, Run(c, Init(c), schedule))
    requires Feasible(c, Init(c), other) && Quiescent(c, Run(c, Init(c), other))
    ensures Run(c, Init(c), schedule) == Run(c, Init(c), other) == FinalState(c)
    ensures |schedule| == |other|
    ensures c.Fits() ==> |schedule| == 7 * c.frames + 6
  {
    CompleteRun(c, schedule);
    CompleteRun(c, other);
    if c.Fits() { FullRunLength(c); }
  }

  lemma {:induction false} RunAppend(c: Config, st: State, a: seq<Process>, b: seq<Process>)
    requires Feasible(c, st, a) && Feasible(c, Run(c, st, a), b)
    ensures Feasible(c, st, a + b) && Run(c, st, a + b) == Run(c, Run(c, st, a), b)
    decreases |a|
  {
    if a == [] {
      assert a + b == b;
    } else {
      RunAppend(c, Step(c, st, a[0]), a[1..], b);
      assert (a + b)[1..] == a[1..] + b;
    }
  }

  /** From every reachable state the run can be completed, and completing it leads to the final state. */
  lemma {:induction false} EveryRunCompletes(c: Config, st: State) returns (rest: seq<Process>)
    requires c.Valid() && Inv(c, st)
    ensures Feasible(c, st, rest) && Run(c, st, rest) == FinalState(c) && Quiescent(c, FinalState(c))
    decreases Rank(c, st)
  {
    if Quiescent(c, st) {
      QuiescentIsFinal(c, st);
      rest := [];
    } else {
      var p := if CanStep(c, st, TheSender) then TheSender else TheReceiver;
      StepKeepsInv(c, st, p);
      StepLowersRank(c, st, p);
      RankIsNatural(c, st);
      RankIsNatural(c, Step(c, st, p));
      rest := EveryRunCompletes(c, Step(c, st, p));
      rest := [p] + rest;
    }
  }

  /**
   Whatever has happened so far, the run can be completed: every feasible prefix extends to a complete
   schedule, of exactly seven steps a frame plus six when the key messages fit.
   */
  lemma EveryPrefixExtends(c: Config, prefix: seq<Process>) returns (schedule: seq<Process>)
    requires c.Valid() && Feasible(c, Init(c), prefix)
    ensures prefix <= schedule && Feasible(c, Init(c), schedule)
    ensures Run(c, Init(c), schedule) == FinalState(c)
    ensures c.Fits() ==> |schedule| == 7 * c.frames + 6
  {
    RunInv(c, prefix);
    var rest := EveryRunCompletes(c, Run(c, Init(c), prefix));
    RunAppend(c, Init(c), prefix, rest);
    schedule := prefix + rest;
    CompleteRun(c, schedule);
    if c.Fits() { FullRunLength(c); }
  }

  /**
   Deadlock freedom, exactly: in every reachable state with the sender unfinished some process can
   step, if and only if both messages of the key exchange fit into a queue slot, 1024 bytes.
   */
  lemma DeadlockFreeIffKeysFit(c: Config)
    requires c.Valid()
    ensures (forall st | Reachable(c, st) && st.sender.pc != SenderDone :: !Quiescent(c, st))
       <==> |c.PublicKeyMessage()| <= 1024 && |c.SymmetricKeyMessage()| <= 1024
  {
    if c.Fits() {
      forall st | Reachable(c, st) && st.sender.pc != SenderDone
        ensures !Quiescent(c, st)
      {
        ReachableInv(c, st);
        if Quiescent(c, st) { QuiescentIsFinal(c, st); }
      }
    } else {
      InitInv(c);
      var schedule := EveryRunCompletes(c, Init(c));
      assert Reachable(c, FinalState(c));
      assert FinalState(c).sender.pc != SenderDone;
    }
  }

  /** Both cases occur: there are lawful configurations whose keys fit, and others whose keys do not. */
  lemma ConfigurationsExist(frames: nat, capacity: nat) returns (fitting: Config, oversized: Config)
    requires 1 <= capacity
    ensures fitting.Valid() && fitting.Fits() && oversized.Valid() && !oversized.Fits()
    ensures fitting.frames == oversized.frames == frames && fitting.capacity == oversized.capacity == capacity
  {
    var suite := Suite(sk => sk, pk => Fill(pk, 1), m => Some(|m|), (pk, m, r) => m, (sk, m) => Some(m),
                       (k, m) => Fill(CMAC_SIZE, 0));
    var key := Fill(SYM_KEY_SIZE, 7);
    fitting := Config(suite, 1, [], key, [], frames, capacity);
    oversized := Config(suite, MESSAGE_SIZE + 1, [], key, [], frames, capacity);
  }
}
