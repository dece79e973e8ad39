/**
 Exactly which schedules can be run, in plain arithmetic: how far each process has come decides what
 it may do next, and decides the whole state.
 */
module ProtocolSchedules {
  import opened ByteTypes
  import opened Crypto
  import opened Frames
  import opened Protocol
  import opened ProtocolInvariant
  import opened ProtocolTheorems

  // ---------- One more step ----------

  lemma {:induction false} OneMoreStep(c: Config, st: State, schedule: seq<Process>, p: Process)
    ensures Feasible(c, st, schedule + [p]) <==> Feasible(c, st, schedule) && CanStep(c, Run(c, st, schedule), p)
    ensures Feasible(c, st, schedule + [p]) ==> Run(c, st, schedule + [p]) == Step(c, Run(c, st, schedule), p)
    decreases |schedule|
  {
    var longer := schedule + [p];
    if schedule == [] {
      assert longer == [p] && longer[1..] == [];
    } else {
      assert longer[0] == schedule[0] && longer[1..] == schedule[1..] + [p];
      if CanStep(c, st, schedule[0]) {
        OneMoreStep(c, Step(c, st, schedule[0]), schedule[1..], p);
      }
    }
  }

  // ---------- How far each process has come ----------

  /** Steps taken: two for the exchange, four for each frame, one to leave the loop. */
  function SenderSteps(c: Config, s: Sender): nat {
    match s.pc
    case SendingPublicKey => 0
    case AwaitingSymmetricKey => 1
    case LoopHead => 2 + 4 * s.index
    case Updating => 2 + 4 * s.index + 1
    case Finalising => 2 + 4 * s.index + 2
    case SendingFrame => 2 + 4 * s.index + 3
    case _ => 3 + 4 * c.frames
  }

  /** Steps taken: three for the exchange, three for each frame. */
  function ReceiverSteps(r: Receiver, taken: nat): int {
    match r.pc
    case AwaitingPublicKey => 0
    case DerivingKey => 1
    case SendingSymmetricKey => 2
    case Waiting => 3 + 3 * taken
    case Authenticating => 3 * taken + 1
    case _ => 3 * taken + 2
  }

  /** Frames put on the queue after `a` steps of the sender. */
  function Sent(a: nat): nat {
    if a < 2 then 0 else (a - 2) / 4
  }

  /** Frames taken off the queue after `b` steps of the receiver. */
  function Taken(b: nat): nat {
    if b < 3 then 0 else (b - 1) / 3
  }

  /**
   May this process go on when the sender has taken `a` steps and the receiver `b`? The sender waits
   for the reply (step 1) and for a free slot (every fourth step from 5 on), the receiver for the
   public key (step 0) and for a frame (every third step from 3 on). A key message above 1024 bytes
   never gets through.
   */
  predicate Enabled(c: Config, a: nat, b: nat, p: Process) {
    match p
    case TheSender =>
      || a == 0
      || (a == 1 && b >= 3 && |c.SymmetricKeyMessage()| <= 1024)
      || (2 <= a < 3 + 4 * c.frames && (a % 4 == 1 ==> Sent(a) < Taken(b) + c.capacity))
    case TheReceiver =>
      || (b == 0 && a >= 1 && |c.PublicKeyMessage()| <= 1024)
      || b == 1 || b == 2
      || (b >= 3 && (b % 3 == 0 ==> Taken(b) < Sent(a)))
  }

  /** `st` is where `a` steps of the sender and `b` of the receiver lead. */
  predicate At(c: Config, st: State, a: nat, b: nat) {
    && Inv(c, st)
    && SenderSteps(c, st.sender) == a
    && ReceiverSteps(st.receiver, |st.history.framesTaken|) == b
  }

  /** The counts of frames, read off the counts of steps. */
  lemma CountsOfFrames(c: Config, st: State, a: nat, b: nat)
    requires At(c, st, a, b)
    ensures Sent(a) == st.sender.index <= c.frames
    ensures st.sender.pc in {Updating, Finalising, SendingFrame} ==> st.sender.index < c.frames
    ensures st.history.framesSent == FramesUpTo(c.suite, c.symmetricKey, Sent(a))
    ensures Taken(b) == |st.history.framesTaken|
    ensures b >= 3 <==> InPeriodicPhase(st.receiver.pc)
  {
    IndexInRange(c, st);
  }

  lemma QueueLengths(c: Config, st: State, a: nat, b: nat)
    requires At(c, st, a, b)
    ensures b >= 3 ==> |st.toReceiver| == Sent(a) - Taken(b)
    ensures a == 1 ==> (st.toSender != [] <==> b >= 3 && |c.SymmetricKeyMessage()| <= 1024)
    ensures b == 0 ==> (st.toReceiver != [] <==> a >= 1 && |c.PublicKeyMessage()| <= 1024)
    ensures a == 0 ==> b == 0
    ensures b == 2 ==> st.toSender == []
    ensures a >= 2 ==> b >= 3
  {
    CountsOfFrames(c, st, a, b);
    if b >= 3 {
      TakenAreSent(c, st);
      assert |st.history.framesTaken + st.toReceiver| == |st.history.framesSent|;
    }
    var h := st.history;
    if a == 1 {
      assert h.answersTaken + st.toSender == st.toSender;
    }
    if b == 0 {
      assert h.keysTaken + h.framesTaken + st.toReceiver == st.toReceiver;
      assert a < 2;
      assert KeyMessages(c, st) + h.framesSent == KeyMessages(c, st);
    }
  }

  lemma SenderEnabledIff(c: Config, st: State, a: nat, b: nat)
    requires c.Valid() && At(c, st, a, b)
    ensures CanStep(c, st, TheSender) <==> Enabled(c, a, b, TheSender)
  {
    hide Inv;
    InvAuthenticates(c, st);
    CountsOfFrames(c, st, a, b);
    QueueLengths(c, st, a, b);
  }

  lemma ReceiverEnabledIff(c: Config, st: State, a: nat, b: nat)
    requires c.Valid() && At(c, st, a, b)
    ensures CanStep(c, st, TheReceiver) <==> Enabled(c, a, b, TheReceiver)
  {
    hide Inv;
    InvAuthenticates(c, st);
    CountsOfFrames(c, st, a, b);
    QueueLengths(c, st, a, b);
  }

  lemma SenderStepCounts(c: Config, st: State)
    requires CanStep(c, st, TheSender) && SenderStep(c, st).sender.pc != SenderFaulted
    requires st.sender.index <= c.frames
    requires st.sender.pc == AwaitingSymmetricKey ==> st.sender.index == 0
    ensures SenderSteps(c, SenderStep(c, st).sender) == SenderSteps(c, st.sender) + 1
    ensures SenderStep(c, st).receiver == st.receiver
    ensures SenderStep(c, st).history.framesTaken == st.history.framesTaken
  {
  }

  lemma ReceiverStepCounts(c: Config, st: State)
    requires CanStep(c, st, TheReceiver)
    requires ReceiverStep(c, st).receiver.pc != ReceiverFaulted && ReceiverStep(c, st).receiver.pc != ReceiverDone
    requires InPeriodicPhase(st.receiver.pc) || st.history.framesTaken == []
    ensures ReceiverSteps(ReceiverStep(c, st).receiver, |ReceiverStep(c, st).history.framesTaken|)
         == ReceiverSteps(st.receiver, |st.history.framesTaken|) + 1
    ensures ReceiverStep(c, st).sender == st.sender
  {
  }

  lemma StepCounts(c: Config, st: State, a: nat, b: nat, p: Process)
    requires c.Valid() && At(c, st, a, b) && CanStep(c, st, p)
    ensures At(c, Step(c, st, p), if p == TheSender then a + 1 else a, if p == TheReceiver then b + 1 else b)
  {
    hide Inv, CanStep, SenderStep, ReceiverStep, SenderSteps, ReceiverSteps;
    StepKeepsInv(c, st, p);
    InvAuthenticates(c, Step(c, st, p));
    IndexInRange(c, st);
    CountsOfFrames(c, st, a, b);
    match p
    case TheSender => SenderStepCounts(c, st);
    case TheReceiver => ReceiverStepCounts(c, st);
  }

  // ---------- Which schedules can be run ----------

  lemma CountOne(schedule: seq<Process>, p: Process, q: Process)
    ensures multiset(schedule + [p])[q] == multiset(schedule)[q] + if p == q then 1 else 0
  {
  }

  lemma NoSteps(c: Config)
    requires c.Valid()
    ensures Feasible(c, Init(c), []) && At(c, Run(c, Init(c), []), 0, 0)
  {
    InitInv(c);
  }

  /** The steps taken are those the schedule names. */
  lemma {:induction false} ScheduleCounts(c: Config, schedule: seq<Process>)
    requires c.Valid() && Feasible(c, Init(c), schedule)
    ensures At(c, Run(c, Init(c), schedule), multiset(schedule)[TheSender], multiset(schedule)[TheReceiver])
    decreases |schedule|
  {
    hide Run, Inv;
    if schedule == [] {
      NoSteps(c);
    } else {
      var n := |schedule| - 1;
      var before, p := schedule[..n], schedule[n];
      assert schedule == before + [p];
      OneMoreStep(c, Init(c), before, p);
      ScheduleCounts(c, before);
      CountOne(before, p, TheSender);
      CountOne(before, p, TheReceiver);
      StepCounts(c, Run(c, Init(c), before), multiset(before)[TheSender], multiset(before)[TheReceiver], p);
    }
  }

  /** May the process named at position `i` go on there? */
  predicate EnabledAt(c: Config, schedule: seq<Process>, i: nat)
    requires i < |schedule|
  {
    Enabled(c, multiset(schedule[..i])[TheSender], multiset(schedule[..i])[TheReceiver], schedule[i])
  }

  lemma LastStepIff(c: Config, before: seq<Process>, p: Process)
    requires c.Valid() && Feasible(c, Init(c), before)
    ensures Feasible(c, Init(c), before + [p])
       <==> Enabled(c, multiset(before)[TheSender], multiset(before)[TheReceiver], p)
  {
    var st, a, b := Run(c, Init(c), before), multiset(before)[TheSender], multiset(before)[TheReceiver];
    OneMoreStep(c, Init(c), before, p);
    ScheduleCounts(c, before);
    SenderEnabledIff(c, st, a, b);
    ReceiverEnabledIff(c, st, a, b);
  }

  /**
   A schedule can be run if and only if each step is enabled by the numbers of steps taken before
   it: the interleavings are exactly those that two queues of the given capacity allow.
   */
  lemma {:induction false} FeasibleIff(c: Config, schedule: seq<Process>)
    requires c.Valid()
    ensures Feasible(c, Init(c), schedule) <==> forall i | 0 <= i < |schedule| :: EnabledAt(c, schedule, i)
    decreases |schedule|
  {
    hide Feasible, Run, Enabled;
    if schedule == [] {
      NoSteps(c);
    } else {
      var n := |schedule| - 1;
      var before, p := schedule[..n], schedule[n];
      assert schedule == before + [p];
      FeasibleIff(c, before);
      OneMoreStep(c, Init(c), before, p);
      assert forall i | 0 <= i < n :: schedule[..i] == before[..i] && schedule[i] == before[i];
      assert forall i | 0 <= i < n :: EnabledAt(c, schedule, i) == EnabledAt(c, before, i);
      if Feasible(c, Init(c), before) {
        LastStepIff(c, before, p);
      }
      assert EnabledAt(c, schedule, n) == Enabled(c, multiset(before)[TheSender], multiset(before)[TheReceiver], p);
    }
  }

  // ---------- The counts decide the state ----------

  lemma SamePlace(c: Config, st: State, st': State, a: nat, b: nat)
    requires At(c, st, a, b) && At(c, st', a, b)
    ensures st.sender.pc == st'.sender.pc && st.sender.index == st'.sender.index
    ensures st.receiver.pc == st'.receiver.pc && |st.history.framesTaken| == |st'.history.framesTaken|
  {
    hide Inv;
    InvAuthenticates(c, st);
    InvAuthenticates(c, st');
    CountsOfFrames(c, st, a, b);
    CountsOfFrames(c, st', a, b);
  }

  lemma SameSender(c: Config, s: Sender, s': Sender)
    requires SenderInv(c, s) && SenderInv(c, s') && s.pc == s'.pc && s.index == s'.index
    ensures s == s'
  {
    hide BufferAt;
  }

  lemma SameReceiver(c: Config, r: Receiver, r': Receiver, taken: nat, verdicts: seq<bool>, verdicts': seq<bool>)
    requires ReceiverInv(c, r, taken, verdicts) && ReceiverInv(c, r', taken, verdicts') && r.pc == r'.pc
    ensures r == r' && verdicts == verdicts'
  {
    hide InboxAt, LastFrame;
  }

  lemma SplitSame<T>(a: seq<T>, b: seq<T>, a': seq<T>, b': seq<T>)
    requires a + b == a' + b' && |a| == |a'|
    ensures a == a' && b == b'
  {
    assert a == (a + b)[..|a|] && b == (a + b)[|a|..];
    assert a' == (a' + b')[..|a|] && b' == (a' + b')[|a|..];
  }

  lemma SameState(c: Config, st: State, st': State, a: nat, b: nat)
    requires At(c, st, a, b) && At(c, st', a, b)
    ensures st == st'
  {
    SamePlace(c, st, st', a, b);
    SameSender(c, st.sender, st'.sender);
    SameReceiver(c, st.receiver, st'.receiver, |st.history.framesTaken|, st.history.verdicts, st'.history.verdicts);
    var h, h' := st.history, st'.history;
    SplitSame(h.keysTaken + h.framesTaken, st.toReceiver, h'.keysTaken + h'.framesTaken, st'.toReceiver);
    SplitSame(h.keysTaken, h.framesTaken, h'.keysTaken, h'.framesTaken);
    SplitSame(h.answersTaken, st.toSender, h'.answersTaken, st'.toSender);
  }

  /** Interleaving does not matter: schedules with the same steps in another order end in the same state. */
  lemma OrderDoesNotMatter(c: Config, schedule: seq<Process>, other: seq<Process>)
    requires c.Valid() && Feasible(c, Init(c), schedule) && Feasible(c, Init(c), other)
    requires multiset(schedule) == multiset(other)
    ensures Run(c, Init(c), schedule) == Run(c, Init(c), other)
  {
    hide Feasible, Run, Inv;
    ScheduleCounts(c, schedule);
    ScheduleCounts(c, other);
    SameState(c, Run(c, Init(c), schedule), Run(c, Init(c), other),
              multiset(schedule)[TheSender], multiset(schedule)[TheReceiver]);
  }

  // ---------- Running ahead ----------

  /** The schedule with `n` more steps of one process. */
  function Then(schedule: seq<Process>, p: Process, n: nat): seq<Process> {
    schedule + seq(n, _ => p)
  }

  lemma ThenOne(schedule: seq<Process>, p: Process, n: nat)
    ensures Then(schedule, p, 0) == schedule
    ensures n > 0 ==> Then(schedule, p, n) == Then(schedule, p, n - 1) + [p]
  {
  }

  /** The schedule names `a` steps of the sender and `b` of the receiver. */
  predicate Names(schedule: seq<Process>, a: nat, b: nat) {
    multiset(schedule)[TheSender] == a && multiset(schedule)[TheReceiver] == b
  }

  lemma {:induction false} ThenNames(schedule: seq<Process>, a: nat, b: nat, p: Process, n: nat)
    requires Names(schedule, a, b)
    ensures Names(Then(schedule, p, n), if p == TheSender then a + n else a, if p == TheReceiver then b + n else b)
    decreases n
  {
    hide Then;
    ThenOne(schedule, p, n);
    if n > 0 {
      ThenNames(schedule, a, b, p, n - 1);
      CountOne(Then(schedule, p, n - 1), p, TheSender);
      CountOne(Then(schedule, p, n - 1), p, TheReceiver);
    }
  }

  lemma GoesOnIff(c: Config, before: seq<Process>, a: nat, b: nat, p: Process)
    requires c.Valid() && Feasible(c, Init(c), before) && Names(before, a, b)
    ensures Feasible(c, Init(c), before + [p]) <==> Enabled(c, a, b, p)
  {
    hide Feasible, Enabled, Init;
    LastStepIff(c, before, p);
  }

  const EXCHANGE: seq<Process> := [TheSender, TheReceiver, TheReceiver, TheReceiver, TheSender]

  /** The key exchange, then `m` steps of the sender alone. */
  function Ahead(m: nat): seq<Process> {
    Then(EXCHANGE, TheSender, m)
  }

  /** After that, `n` steps of the receiver alone. */
  function CaughtUp(m: nat, n: nat): seq<Process> {
    Then(Ahead(m), TheReceiver, n)
  }

  lemma AheadNames(m: nat, n: nat)
    ensures Names(Ahead(m), 2 + m, 3) && Names(CaughtUp(m, n), 2 + m, 3 + n)
  {
    hide Then;
    ThenNames(EXCHANGE, 2, 3, TheSender, m);
    ThenNames(Ahead(m), 2 + m, 3, TheReceiver, n);
  }

  lemma ExchangeRuns(c: Config)
    requires c.Valid() && c.Fits()
    ensures Feasible(c, Init(c), EXCHANGE)
  {
    hide Feasible, Init;
    var s := EXCHANGE;
    assert s[..0] == [] && s[..1] == [TheSender] && s[..2] == [TheSender, TheReceiver];
    assert s[..3] == [TheSender, TheReceiver, TheReceiver];
    assert s[..4] == [TheSender, TheReceiver, TheReceiver, TheReceiver];
    FeasibleIff(c, s);
  }

  lemma {:induction false} AheadRuns(c: Config, m: nat)
    requires c.Valid() && c.Fits() && m <= 4 * c.frames && m <= 4 * c.capacity + 3
    ensures Feasible(c, Init(c), Ahead(m))
    decreases m
  {
    hide Feasible, Init, Then, Names;
    ThenOne(EXCHANGE, TheSender, m);
    if m == 0 {
      ExchangeRuns(c);
    } else {
      AheadRuns(c, m - 1);
      AheadNames(m - 1, 0);
      GoesOnIff(c, Ahead(m - 1), 1 + m, 3, TheSender);
    }
  }

  lemma {:induction false} CaughtUpRuns(c: Config, k: nat, n: nat)
    requires c.Valid() && c.Fits() && k <= c.frames && k <= c.capacity && n <= 3 * k
    ensures Feasible(c, Init(c), CaughtUp(4 * k, n))
    decreases n
  {
    hide Feasible, Init, Then, Ahead, Names;
    ThenOne(Ahead(4 * k), TheReceiver, n);
    if n == 0 {
      AheadRuns(c, 4 * k);
    } else {
      CaughtUpRuns(c, k, n - 1);
      AheadNames(4 * k, n - 1);
      GoesOnIff(c, CaughtUp(4 * k, n - 1), 2 + 4 * k, 2 + n, TheReceiver);
    }
  }

  lemma TakenAndQueued(c: Config, schedule: seq<Process>, k: nat, j: nat)
    requires c.Valid() && Feasible(c, Init(c), schedule) && Names(schedule, 2 + 4 * k, 3 + 3 * j) && j <= k
    ensures var st := Run(c, Init(c), schedule);
      && st.history.framesTaken == FramesUpTo(c.suite, c.symmetricKey, j)
      && st.toReceiver == FramesUpTo(c.suite, c.symmetricKey, k)[j..]
  {
    hide Feasible, Run, Init, Inv;
    ScheduleCounts(c, schedule);
    var st := Run(c, Init(c), schedule);
    CountsOfFrames(c, st, 2 + 4 * k, 3 + 3 * j);
    TakenAreSent(c, st);
    assert st.toReceiver == (st.history.framesTaken + st.toReceiver)[j..];
  }

  /**
   The sender need not wait for the receiver: with `k` frames sent and none taken, for every `k` up
   to the capacity, the queue holds exactly these frames. At the capacity it blocks, on the send of
   the next frame and not before.
   */
  lemma SenderRunsAhead(c: Config, k: nat)
    requires c.Valid() && c.Fits() && k <= c.frames && k <= c.capacity
    ensures Feasible(c, Init(c), Ahead(4 * k))
    ensures var st := Run(c, Init(c), Ahead(4 * k));
      st.history.framesTaken == [] && st.toReceiver == FramesUpTo(c.suite, c.symmetricKey, k)
    ensures k == c.capacity < c.frames ==>
      Feasible(c, Init(c), Ahead(4 * k + 3)) && !Feasible(c, Init(c), Ahead(4 * k + 4))
  {
    hide Feasible, Run, Init, Ahead, Names;
    AheadRuns(c, 4 * k);
    AheadNames(4 * k, 0);
    TakenAndQueued(c, Ahead(4 * k), k, 0);
    if k == c.capacity < c.frames {
      var m := 4 * k + 3;
      AheadRuns(c, m);
      AheadNames(m, 0);
      GoesOnIff(c, Ahead(m), 2 + m, 3, TheSender);
      AheadOne(m + 1);
    }
  }

  lemma AheadOne(m: nat)
    requires m > 0
    ensures Ahead(m) == Ahead(m - 1) + [TheSender]
  {
    ThenOne(EXCHANGE, TheSender, m);
  }

  /**
   The receiver takes the queued frames whenever it gets to run: after `k` frames sent ahead it can
   take any number `j` of them in a row, leaving the others queued, and blocks when none is left.
   */
  lemma ReceiverCatchesUp(c: Config, k: nat, j: nat)
    requires c.Valid() && c.Fits() && j <= k <= c.frames && k <= c.capacity
    ensures Feasible(c, Init(c), CaughtUp(4 * k, 3 * j))
    ensures var st := Run(c, Init(c), CaughtUp(4 * k, 3 * j));
      && st.history.framesTaken == FramesUpTo(c.suite, c.symmetricKey, j)
      && st.toReceiver == FramesUpTo(c.suite, c.symmetricKey, k)[j..]
    ensures j == k ==> !Feasible(c, Init(c), CaughtUp(4 * k, 3 * j + 1))
  {
    hide Feasible, Run, Init, Then, Ahead, Names;
    CaughtUpRuns(c, k, 3 * j);
    AheadNames(4 * k, 3 * j);
    TakenAndQueued(c, CaughtUp(4 * k, 3 * j), k, j);
    if j == k {
      ThenOne(Ahead(4 * k), TheReceiver, 3 * j + 1);
      GoesOnIff(c, CaughtUp(4 * k, 3 * j), 2 + 4 * k, 3 + 3 * j, TheReceiver);
    }
  }
}
