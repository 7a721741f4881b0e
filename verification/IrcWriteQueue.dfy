/** The write queue of IrcClient: sendMessage, write and handleWrite, run by any number of threads.
    The state machine has one step for every action on shared state: a critical section of
    bufferWriteLock_, the acquisition and release of writeLock_, an access to the atomic inWrite_, and
    the start and completion of a socket write. */
module IrcWriteQueue {
  import opened IrcMessages
  import opened FifoChannel
  import opened Sums

  /** Where a thread stands. */
  datatype Pc =
    | Idle
    | WantWrite               // about to enter write(), needs writeLock_
    | Locked                  // holds writeLock_, about to exchange inWrite_
    | Won                     // exchanged false for true, about to pop
    | Popped(message: string) // message taken from the queue, empty if there was none
    | Leaving                 // about to release writeLock_
    | Completed(ok: bool)     // in handleWrite, about to clear inWrite_
    | Cleared(ok: bool)       // in handleWrite, about to look at the error code

  /** The shared state, and the history that the properties speak about: the messages accepted in the
      order of bufferWriteLock_, the texts handed to the socket, the texts whose write has completed,
      and whether any write has failed. */
  datatype State = State(threads: seq<Pc>, queue: seq<string>, inWrite: bool, lockHeld: bool,
                         outstanding: seq<string>,
                         accepted: seq<IrcMessage>, handed: seq<string>, finished: seq<string>, failed: bool)

  datatype Step =
    | Send(t: nat, m: IrcMessage)
    | Acquire(t: nat)
    | Exchange(t: nat)
    | Pop(t: nat)
    | Start(t: nat)
    | Release(t: nat)
    | Complete(t: nat, i: nat, ok: bool)
    | Clear(t: nat)
    | Test(t: nat)

  function Init(n: nat): State {
    State(seq(n, i => Idle), [], false, false, [], [], [], [], false)
  }

  predicate Enabled(s: State, step: Step) {
    && step.t < |s.threads|
    && var pc := s.threads[step.t];
       match step
       case Send(_, _) => pc.Idle?
       case Acquire(_) => pc.WantWrite? && !s.lockHeld
       case Exchange(_) => pc.Locked?
       case Pop(_) => pc.Won?
       case Start(_) => pc.Popped?
       case Release(_) => pc.Leaving?
       case Complete(_, i, _) => pc.Idle? && i < |s.outstanding|
       case Clear(_) => pc.Completed?
       case Test(_) => pc.Cleared?
  }

  function Go(s: State, t: nat, pc: Pc): State
    requires t < |s.threads|
  {
    s.(threads := s.threads[t := pc])
  }

  function Apply(s: State, step: Step): State
    requires Enabled(s, step)
  {
    var t := step.t;
    match step
    case Send(_, m) =>
      Go(s, t, WantWrite).(queue := s.queue + [Line(m)], accepted := s.accepted + [m])
    case Acquire(_) =>
      Go(s, t, Locked).(lockHeld := true)
    case Exchange(_) =>
      if s.inWrite then Go(s, t, Leaving) else Go(s, t, Won).(inWrite := true)
    case Pop(_) =>
      if s.queue == [] then Go(s, t, Popped("")) else Go(s, t, Popped(s.queue[0])).(queue := s.queue[1..])
    case Start(_) =>
      var message := s.threads[t].message;
      if message != "" then
        Go(s, t, Leaving).(outstanding := s.outstanding + [message], handed := s.handed + [message])
      else
        Go(s, t, Leaving).(inWrite := false)
    case Release(_) =>
      Go(s, t, Idle).(lockHeld := false)
    case Complete(_, i, ok) =>
      Go(s, t, Completed(ok)).(outstanding := s.outstanding[..i] + s.outstanding[i + 1..],
                               finished := s.finished + [s.outstanding[i]],
                               failed := s.failed || !ok)
    case Clear(_) =>
      Go(s, t, Cleared(s.threads[t].ok)).(inWrite := false)
    case Test(_) =>
      Go(s, t, if s.threads[t].ok then WantWrite else Idle)
  }

  /** A schedule that can run from a state, and the state it leads to. */
  predicate Executable(s: State, steps: seq<Step>)
    decreases |steps|
  {
    steps == [] || (Enabled(s, steps[0]) && Executable(Apply(s, steps[0]), steps[1..]))
  }

  function Exec(s: State, steps: seq<Step>): State
    requires Executable(s, steps)
    decreases |steps|
  {
    if steps == [] then s else Exec(Apply(s, steps[0]), steps[1..])
  }

  // What a schedule asks for

  /** The messages that the threads send, in the order of bufferWriteLock_. */
  function SentIn(steps: seq<Step>): seq<IrcMessage> {
    if steps == [] then []
    else Carried(steps[0]) + SentIn(steps[1..])
  }

  function Carried(step: Step): seq<IrcMessage> {
    if step.Send? then [step.m] else []
  }

  /** The socket reports no error. */
  predicate AllSucceed(steps: seq<Step>) {
    forall i :: 0 <= i < |steps| && steps[i].Complete? ==> steps[i].ok
  }

  /** Exactly the sent messages are accepted, in order. */
  lemma {:induction false} AcceptedAreSent(s: State, steps: seq<Step>)
    requires Executable(s, steps)
    ensures Exec(s, steps).accepted == s.accepted + SentIn(steps)
    decreases |steps|
  {
    hide Apply, Enabled;
    if steps == [] {
      assert s.accepted + [] == s.accepted;
    } else {
      var step, rest := steps[0], steps[1..];
      var next := Apply(s, step);
      OneEvent(s, step);
      AcceptedAreSent(next, rest);
      assert Exec(s, steps) == Exec(next, rest);
      assert SentIn(steps) == Carried(step) + SentIn(rest);
      hide *;
      Regroup(s.accepted, Carried(step), SentIn(rest));
    }
  }

  /** A failure is seen exactly if the socket reports one. */
  lemma {:induction false} FailedIsReported(s: State, steps: seq<Step>)
    requires Executable(s, steps)
    ensures Exec(s, steps).failed <==> s.failed || !AllSucceed(steps)
    decreases |steps|
  {
    if steps != [] {
      OneEvent(s, steps[0]);
      hide Apply, Enabled;
      FailedIsReported(Apply(s, steps[0]), steps[1..]);
      AllSucceedStep(steps);
    }
  }

  /** Any idle thread may send, and may be the one to run a completion, with or without an error. */
  lemma NothingRefused(s: State, t: nat, m: IrcMessage, i: nat, ok: bool)
    requires t < |s.threads| && s.threads[t].Idle?
    ensures Enabled(s, Send(t, m))
    ensures i < |s.outstanding| ==> Enabled(s, Complete(t, i, ok))
  {
  }

  lemma OneEvent(s: State, step: Step)
    requires Enabled(s, step)
    ensures Apply(s, step).accepted == s.accepted + Carried(step)
    ensures Apply(s, step).failed <==> s.failed || (step.Complete? && !step.ok)
  {
    hide Line;
    assert s.accepted + [] == s.accepted;
  }

  lemma AllSucceedStep(steps: seq<Step>)
    requires steps != []
    ensures AllSucceed(steps) <==> (steps[0].Complete? ==> steps[0].ok) && AllSucceed(steps[1..])
  {
    if (steps[0].Complete? ==> steps[0].ok) && AllSucceed(steps[1..]) {
      assert forall i :: 0 < i < |steps| ==> steps[i] == steps[1..][i - 1];
    }
    if AllSucceed(steps) {
      assert forall i :: 0 <= i < |steps| - 1 ==> steps[1..][i] == steps[i + 1];
    }
  }

  // Calls that no other thread interrupts

  /** One more step at the end of a run. */
  lemma {:induction false} Then(s: State, steps: seq<Step>, step: Step) returns (longer: seq<Step>)
    requires Executable(s, steps) && Enabled(Exec(s, steps), step)
    ensures longer == steps + [step]
    ensures Executable(s, longer) && Exec(s, longer) == Apply(Exec(s, steps), step)
    decreases |steps|
  {
    hide Apply, Enabled;
    longer := steps + [step];
    if steps == [] {
      assert longer[1..] == [];
    } else {
      var rest := Then(Apply(s, steps[0]), steps[1..], step);
      assert longer[1..] == rest;
    }
  }

  lemma RunStart(s: State)
    ensures Executable(s, []) && Exec(s, []) == s
  {
  }

  /** sendMessage and write: the text goes behind the queue; if no write is under way the head of the queue
      goes to the socket. */
  lemma SendAndWrite(s: State, t: nat, m: IrcMessage) returns (steps: seq<Step>)
    requires t < |s.threads| && s.threads[t].Idle? && !s.lockHeld && (s.queue != [] ==> s.queue[0] != "")
    ensures Executable(s, steps)
    ensures var queue := s.queue + [Line(m)];
      var sent := s.(accepted := s.accepted + [m]);
      Exec(s, steps) == if s.inWrite then sent.(queue := queue)
                        else sent.(queue := queue[1..], inWrite := true,
                                   outstanding := s.outstanding + [queue[0]], handed := s.handed + [queue[0]])
  {
    RunStart(s);
    hide Executable, Exec, Line;
    steps := Then(s, [], Send(t, m));
    if s.inWrite {
      steps := Then(s, steps, Acquire(t));
      steps := Then(s, steps, Exchange(t));
      steps := Then(s, steps, Release(t));
    } else {
      hide Apply;
      SentOnce(s, t, m);
      steps := WriteOnce(s, steps, t);
    }
    assert Exec(s, steps).threads == s.threads;
  }

  lemma SentOnce(s: State, t: nat, m: IrcMessage)
    requires Enabled(s, Send(t, m))
    ensures Apply(s, Send(t, m)) == s.(threads := s.threads[t := WantWrite], queue := s.queue + [Line(m)],
                                       accepted := s.accepted + [m])
  {
  }

  /** handleWrite and write: the flag is cleared; without an error the head of the queue, if there is one,
      goes to the socket, and with an error nothing more happens. */
  lemma HandleAndWrite(s: State, t: nat, ok: bool) returns (steps: seq<Step>)
    requires t < |s.threads| && s.threads[t].Idle? && !s.lockHeld && |s.outstanding| == 1
    requires s.queue != [] ==> s.queue[0] != ""
    ensures Executable(s, steps)
    ensures var done := s.(inWrite := false, outstanding := [], finished := s.finished + s.outstanding,
                           failed := s.failed || !ok);
      Exec(s, steps) == if !ok || s.queue == [] then done
                        else done.(queue := s.queue[1..], inWrite := true, outstanding := [s.queue[0]],
                                   handed := s.handed + [s.queue[0]])
  {
    RunStart(s);
    hide Executable, Exec;
    steps := Then(s, [], Complete(t, 0, ok));
    steps := Then(s, steps, Clear(t));
    steps := Then(s, steps, Test(t));
    if ok {
      steps := WriteOnce(s, steps, t);
    }
    assert Exec(s, steps).threads == s.threads;
  }

  lemma WriteOnce(s0: State, steps: seq<Step>, t: nat) returns (longer: seq<Step>)
    requires Executable(s0, steps)
    requires var s := Exec(s0, steps);
      && t < |s.threads| && s.threads[t].WantWrite? && !s.lockHeld && !s.inWrite
      && (s.queue != [] ==> s.queue[0] != "")
    ensures Executable(s0, longer)
    ensures var s := Exec(s0, steps);
      var left := s.(threads := s.threads[t := Idle]);
      Exec(s0, longer) == if s.queue == [] then left
                          else left.(queue := s.queue[1..], inWrite := true,
                                     outstanding := s.outstanding + [s.queue[0]], handed := s.handed + [s.queue[0]])
  {
    hide Executable, Exec;
    longer := Then(s0, steps, Acquire(t));
    longer := Then(s0, longer, Exchange(t));
    longer := Then(s0, longer, Pop(t));
    longer := Then(s0, longer, Start(t));
    longer := Then(s0, longer, Release(t));
  }

  // The ownership token

  /** A thread that owns inWrite_: past a successful exchange, or in the handler before the clear. */
  function Token(pc: Pc): nat {
    if pc.Won? || pc.Popped? || pc.Completed? then 1 else 0
  }

  function Tokens(s: State): nat {
    Sum(Token, s.threads) + |s.outstanding|
  }

  /** inWrite_ is true exactly when one token exists, and false when none does. */
  ghost predicate TokenInv(s: State) {
    Tokens(s) == if s.inWrite then 1 else 0
  }

  function InLock(pc: Pc): nat {
    if pc.Locked? || pc.Won? || pc.Popped? || pc.Leaving? then 1 else 0
  }

  ghost predicate LockInv(s: State) {
    Sum(InLock, s.threads) == if s.lockHeld then 1 else 0
  }

  // Order

  /** The text that a thread holds between queue and socket. */
  function HandOf(pc: Pc): seq<string> {
    if pc.Popped? && pc.message != "" then [pc.message] else []
  }

  function InHand(threads: seq<Pc>): seq<string> {
    if threads == [] then [] else HandOf(threads[0]) + InHand(threads[1..])
  }

  ghost predicate OrderInv(s: State) {
    && Lines(s.accepted) == s.handed + InHand(s.threads) + s.queue
    && s.handed == s.finished + s.outstanding
  }

  // Wakeups

  /** A thread that will still look at the queue, or is bringing a message out of it. */
  predicate Rechecks(pc: Pc) {
    match pc
    case Idle => false
    case Leaving => false
    case Popped(message) => message != ""
    case _ => true
  }

  ghost predicate Awake(s: State) {
    s.outstanding != [] || exists t :: 0 <= t < |s.threads| && Rechecks(s.threads[t])
  }

  /** A handler that carries an error code has been counted as a failure. */
  predicate FailureSeen(s: State) {
    forall t :: 0 <= t < |s.threads| && s.threads[t] in {Completed(false), Cleared(false)} ==> s.failed
  }

  ghost predicate WakeInv(s: State) {
    && (!s.failed && s.queue != [] ==> Awake(s))
    && FailureSeen(s)
  }

  ghost predicate Inv(s: State) {
    TokenInv(s) && LockInv(s) && OrderInv(s) && WakeInv(s)
  }

  lemma InitInv(n: nat)
    ensures Inv(Init(n))
  {
    SumOfZeros(Token, Init(n).threads);
    SumOfZeros(InLock, Init(n).threads);
    NoHands(Init(n).threads);
  }

  lemma {:induction false} NoHands(threads: seq<Pc>)
    requires forall t :: 0 <= t < |threads| ==> HandOf(threads[t]) == []
    ensures InHand(threads) == []
  {
    if threads != [] {
      NoHands(threads[1..]);
    }
  }

  lemma {:induction false} HandKept(threads: seq<Pc>, t: nat, pc: Pc)
    requires t < |threads| && HandOf(pc) == HandOf(threads[t])
    ensures InHand(threads[t := pc]) == InHand(threads)
  {
    if t == 0 {
      assert threads[t := pc][1..] == threads[1..];
    } else {
      assert threads[t := pc][1..] == threads[1..][t - 1 := pc];
      HandKept(threads[1..], t - 1, pc);
    }
  }

  /** The holder of the token is the only thread with a text in hand. */
  lemma {:induction false} OnlyHand(threads: seq<Pc>, t: nat)
    requires t < |threads| && Token(threads[t]) == 1 && Sum(Token, threads) <= 1
    ensures InHand(threads) == HandOf(threads[t])
  {
    if t == 0 {
      forall u | 0 <= u < |threads[1..]| ensures HandOf(threads[1..][u]) == [] {
        SumPair(Token, threads, 0, u + 1);
      }
      NoHands(threads[1..]);
    } else {
      SumPair(Token, threads, 0, t);
      OnlyHand(threads[1..], t - 1);
    }
  }

  lemma HandChanged(s: State, t: nat, pc: Pc)
    requires TokenInv(s) && t < |s.threads| && Token(s.threads[t]) == 1
    ensures InHand(s.threads) == HandOf(s.threads[t])
    ensures InHand(s.threads[t := pc]) == HandOf(pc)
    ensures s.outstanding == [] && s.inWrite
  {
    SumAtLeast(Token, s.threads, t);
    OnlyHand(s.threads, t);
    if Token(pc) == 1 {
      SumUpdate(Token, s.threads, t, pc);
      OnlyHand(s.threads[t := pc], t);
    } else {
      SumUpdate(Token, s.threads, t, pc);
      var moved := s.threads[t := pc];
      forall u | 0 <= u < |moved| ensures HandOf(moved[u]) == [] {
        SumAtLeast(Token, moved, u);
      }
      NoHands(moved);
    }
  }

  lemma StepKeepsToken(s: State, step: Step)
    requires Enabled(s, step) && TokenInv(s)
    ensures TokenInv(Apply(s, step))
  {
    hide Sum, Line;
    var t := step.t;
    SumUpdate(Token, s.threads, t, Apply(s, step).threads[t]);
    SumAtLeast(Token, s.threads, t);
  }

  lemma StepKeepsLock(s: State, step: Step)
    requires Enabled(s, step) && LockInv(s)
    ensures LockInv(Apply(s, step))
  {
    hide Sum, Line;
    var t := step.t;
    SumUpdate(InLock, s.threads, t, Apply(s, step).threads[t]);
    SumAtLeast(InLock, s.threads, t);
  }

  lemma StepKeepsOrder(s: State, step: Step)
    requires Enabled(s, step) && TokenInv(s) && OrderInv(s)
    ensures OrderInv(Apply(s, step))
  {
    hide Lines, InHand, TokenInv;
    match step
    case Send(_, _) => SendKeepsOrder(s, step);
    case Pop(_) => PopKeepsOrder(s, step);
    case Start(_) => StartKeepsOrder(s, step);
    case Complete(_, _, _) => CompleteKeepsOrder(s, step);
    case _ => HandKept(s.threads, step.t, Apply(s, step).threads[step.t]);
  }

  lemma SendKeepsOrder(s: State, step: Step)
    requires step.Send? && Enabled(s, step) && OrderInv(s)
    ensures OrderInv(Apply(s, step))
  {
    hide InHand, Line;
    HandKept(s.threads, step.t, WantWrite);
    assert Lines(s.accepted + [step.m]) == Lines(s.accepted) + [Line(step.m)];
    hide Lines;
    Regroup(s.handed + InHand(s.threads), s.queue, [Line(step.m)]);
  }

  lemma PopKeepsOrder(s: State, step: Step)
    requires step.Pop? && Enabled(s, step) && TokenInv(s) && OrderInv(s)
    ensures OrderInv(Apply(s, step))
  {
    hide Lines, InHand, Sum;
    HandChanged(s, step.t, Apply(s, step).threads[step.t]);
    if s.queue != [] {
      HeadNotEmpty(s);
      assert s.queue == [s.queue[0]] + s.queue[1..];
      assert s.handed + [] == s.handed;
      Regroup(s.handed, [s.queue[0]], s.queue[1..]);
    }
  }

  lemma StartKeepsOrder(s: State, step: Step)
    requires step.Start? && Enabled(s, step) && TokenInv(s) && OrderInv(s)
    ensures OrderInv(Apply(s, step))
  {
    hide Lines, InHand, Sum;
    HandChanged(s, step.t, Leaving);
    var hand := HandOf(s.threads[step.t]);
    assert s.handed + hand + [] == s.handed + hand;
  }

  lemma CompleteKeepsOrder(s: State, step: Step)
    requires step.Complete? && Enabled(s, step) && TokenInv(s) && OrderInv(s)
    ensures OrderInv(Apply(s, step))
  {
    hide Lines, InHand, Sum;
    HandKept(s.threads, step.t, Completed(step.ok));
    assert |s.outstanding| == 1;
    assert s.finished + [s.outstanding[0]] + [] == s.finished + s.outstanding;
  }

  lemma Regroup<T>(a: seq<T>, b: seq<T>, c: seq<T>)
    ensures a + b + c == a + (b + c)
  {
  }

  /** No queued text is empty: each ends in CR LF. */
  lemma HeadNotEmpty(s: State)
    requires OrderInv(s) && s.queue != []
    ensures s.queue[0] != ""
  {
    assert Lines(s.accepted)[|s.handed + InHand(s.threads)|] == s.queue[0];
  }

  lemma StepKeepsFailureSeen(s: State, step: Step)
    requires Enabled(s, step) && FailureSeen(s)
    ensures FailureSeen(Apply(s, step))
  {
    hide Line;
    var t, s' := step.t, Apply(s, step);
    assert forall u :: 0 <= u < |s.threads| && u != t ==> s'.threads[u] == s.threads[u];
  }

  /** When the step of a thread that will not look again leaves a text waiting, the thread has found the flag
      set, or would not have looked again before. */
  lemma FallsAsleep(s: State, step: Step)
    requires Enabled(s, step) && FailureSeen(s) && (s.queue != [] ==> s.queue[0] != "")
    requires var s' := Apply(s, step);
      !s'.failed && s'.queue != [] && s'.outstanding == [] && !Rechecks(s'.threads[step.t])
    ensures s.outstanding == [] && s.queue == Apply(s, step).queue && !s.failed
    ensures (step.Exchange? && s.inWrite) || !Rechecks(s.threads[step.t])
  {
    hide Line;
    assert s.threads[step.t] == Cleared(false) ==> s.failed;
  }

  lemma StepKeepsWake(s: State, step: Step)
    requires Enabled(s, step) && Inv(s)
    ensures WakeInv(Apply(s, step))
  {
    hide TokenInv, LockInv, OrderInv;
    StepKeepsFailureSeen(s, step);
    if s.queue != [] {
      HeadNotEmpty(s);
    }
    hide FailureSeen, Apply, Rechecks;
    var t, s' := step.t, Apply(s, step);
    OneThreadMoves(s, step);
    if !s'.failed && s'.queue != [] {
      if Rechecks(s'.threads[t]) || s'.outstanding != [] {
        assert Awake(s');
      } else {
        FallsAsleep(s, step);
        OthersAwake(s, step);
      }
    }
  }

  lemma OneThreadMoves(s: State, step: Step)
    requires Enabled(s, step)
    ensures Apply(s, step).threads == s.threads[step.t := Apply(s, step).threads[step.t]]
  {
    hide Line;
  }

  /** Then there is another thread that will. */
  lemma OthersAwake(s: State, step: Step)
    requires Enabled(s, step) && TokenInv(s) && LockInv(s) && WakeInv(s)
    requires s.queue != [] && s.outstanding == [] && !s.failed
    requires (step.Exchange? && s.inWrite) || !Rechecks(s.threads[step.t])
    ensures Awake(Apply(s, step))
  {
    hide Sum, Line, TokenInv, LockInv, FailureSeen;
    OneThreadMoves(s, step);
    var s' := Apply(s, step);
    var u: nat;
    if step.Exchange? && s.inWrite {
      u := OtherOwner(s, step.t);
    } else {
      hide Apply, Rechecks;
      u :| 0 <= u < |s.threads| && Rechecks(s.threads[u]);
    }
    assert u != step.t && s'.threads[u] == s.threads[u];
    assert Rechecks(s'.threads[u]);
  }

  /** A thread that finds inWrite_ set inside writeLock_: the flag then belongs to a handler that has
      yet to clear it, or to a socket write. */
  lemma OtherOwner(s: State, t: nat) returns (u: nat)
    requires TokenInv(s) && LockInv(s)
    requires t < |s.threads| && s.threads[t].Locked? && s.inWrite && s.outstanding == []
    ensures u < |s.threads| && s.threads[u].Completed?
  {
    u := SumPositive(Token, s.threads);
    if u < t {
      SumPair(InLock, s.threads, u, t);
    } else if t < u {
      SumPair(InLock, s.threads, t, u);
    }
  }

  lemma StepKeepsInv(s: State, step: Step)
    requires Enabled(s, step) && Inv(s)
    ensures Inv(Apply(s, step))
  {
    StepKeepsToken(s, step);
    StepKeepsLock(s, step);
    StepKeepsOrder(s, step);
    StepKeepsWake(s, step);
  }

  lemma {:induction false} ExecKeepsInv(s: State, steps: seq<Step>)
    requires Executable(s, steps) && Inv(s)
    ensures Inv(Exec(s, steps))
    decreases |steps|
  {
    if steps != [] {
      StepKeepsInv(s, steps[0]);
      ExecKeepsInv(Apply(s, steps[0]), steps[1..]);
    }
  }

  // What every run of every number of threads shows

  /** At most one socket write is outstanding, and inWrite_ is true exactly while the one token exists:
      with a thread between exchange and start, with the socket, or with the handler before its clear. */
  lemma OneOwner(n: nat, steps: seq<Step>)
    requires Executable(Init(n), steps)
    ensures var s := Exec(Init(n), steps);
      && |s.outstanding| <= 1
      && (s.inWrite <==> s.outstanding != [] || exists t :: 0 <= t < |s.threads| && Token(s.threads[t]) == 1)
      && (forall t :: 0 <= t < |s.threads| && s.outstanding != [] ==> Token(s.threads[t]) == 0)
      && (forall t, u :: 0 <= t < u < |s.threads| ==> Token(s.threads[t]) + Token(s.threads[u]) <= 1)
  {
    InitInv(n);
    ExecKeepsInv(Init(n), steps);
    TokenIsUnique(Exec(Init(n), steps));
  }

  lemma TokenIsUnique(s: State)
    requires TokenInv(s)
    ensures s.inWrite <==> s.outstanding != [] || exists t :: 0 <= t < |s.threads| && Token(s.threads[t]) == 1
    ensures forall t :: 0 <= t < |s.threads| && s.outstanding != [] ==> Token(s.threads[t]) == 0
    ensures forall t, u :: 0 <= t < u < |s.threads| ==> Token(s.threads[t]) + Token(s.threads[u]) <= 1
  {
    forall t | 0 <= t < |s.threads| ensures Token(s.threads[t]) + |s.outstanding| <= Tokens(s) {
      SumAtLeast(Token, s.threads, t);
    }
    forall t, u | 0 <= t < u < |s.threads| ensures Token(s.threads[t]) + Token(s.threads[u]) <= 1 {
      SumPair(Token, s.threads, t, u);
    }
    if s.inWrite && s.outstanding == [] {
      var t := SumPositive(Token, s.threads);
      assert Token(s.threads[t]) == 1;
    }
  }

  /** Completed texts, the text in flight, the text in a thread's hand and the queue are together the
      lines of all messages sent, in the order of bufferWriteLock_. */
  lemma FirstInFirstOut(n: nat, steps: seq<Step>)
    requires Executable(Init(n), steps)
    ensures var s := Exec(Init(n), steps);
      && Lines(SentIn(steps)) == s.finished + s.outstanding + InHand(s.threads) + s.queue
      && |s.outstanding + InHand(s.threads)| <= 1
  {
    InitInv(n);
    ExecKeepsInv(Init(n), steps);
    AcceptedAreSent(Init(n), steps);
    assert [] + SentIn(steps) == SentIn(steps);
    var s := Exec(Init(n), steps);
    if InHand(s.threads) != [] {
      var t := HandHolder(s.threads);
      HandChanged(s, t, Idle);
    }
  }

  lemma {:induction false} HandHolder(threads: seq<Pc>) returns (t: nat)
    requires InHand(threads) != []
    ensures t < |threads| && threads[t].Popped?
  {
    if HandOf(threads[0]) != [] {
      t := 0;
    } else {
      t := HandHolder(threads[1..]);
      t := t + 1;
    }
  }

  // Refinement of the abstract channel

  function Abstract(s: State): Channel<string> {
    Channel(Lines(s.accepted), s.finished)
  }

  lemma StepRefinesChannel(s: State, step: Step)
    requires Enabled(s, step) && Inv(s)
    ensures Valid(Abstract(s)) && Next(Abstract(s), Abstract(Apply(s, step)))
  {
    hide InHand, Sum, LockInv, WakeInv, Line;
    assert Lines(s.accepted) == s.finished + (s.outstanding + InHand(s.threads) + s.queue);
    if step.Send? {
      assert Lines(s.accepted + [step.m]) == Lines(s.accepted) + [Line(step.m)];
    } else if step.Complete? {
      assert |s.outstanding| == 1;
      assert Lines(s.accepted)[|s.finished|] == s.outstanding[0];
    }
  }

  /** No wakeup is lost: as long as the socket reports no error, a queue that is not empty has a write
      outstanding or a thread that will look at the queue again. */
  lemma NoLostWakeup(n: nat, steps: seq<Step>)
    requires Executable(Init(n), steps)
    ensures var s := Exec(Init(n), steps); AllSucceed(steps) && s.queue != [] ==> Awake(s)
  {
    InitInv(n);
    ExecKeepsInv(Init(n), steps);
    FailedIsReported(Init(n), steps);
  }

  // Quiescence

  predicate Quiescent(s: State) {
    s.outstanding == [] && forall t :: 0 <= t < |s.threads| ==> s.threads[t] == Idle
  }

  /** When every thread has returned and no write is outstanding, everything that
      was accepted has been written, unless a write failed. */
  lemma NothingLeftBehind(n: nat, steps: seq<Step>)
    requires Executable(Init(n), steps) && AllSucceed(steps) && Quiescent(Exec(Init(n), steps))
    ensures var s := Exec(Init(n), steps); s.queue == [] && s.finished == Lines(SentIn(steps))
  {
    InitInv(n);
    ExecKeepsInv(Init(n), steps);
    AcceptedAreSent(Init(n), steps);
    FailedIsReported(Init(n), steps);
    assert [] + SentIn(steps) == SentIn(steps);
    QuietMeansDone(Exec(Init(n), steps));
  }

  lemma QuietMeansDone(s: State)
    requires Inv(s) && Quiescent(s) && !s.failed
    ensures s.queue == [] && s.finished == Lines(s.accepted)
  {
    NoHands(s.threads);
    assert !Awake(s);
  }

  // Termination: without new messages every schedule is finite, and it ends in quiescence

  function Rank(pc: Pc): nat {
    match pc
    case Idle => 0
    case Leaving => 1
    case Popped(message) => if message == "" then 2 else 10
    case Won => 3
    case Locked => 4
    case WantWrite => 5
    case Cleared(_) => 6
    case Completed(_) => 7
  }

  function Work(s: State): nat {
    Sum(Rank, s.threads) + 8 * |s.queue| + 8 * |s.outstanding|
  }

  lemma RankFalls(s: State, step: Step)
    requires Enabled(s, step) && !step.Send?
    ensures var s' := Apply(s, step);
      && Rank(s'.threads[step.t]) + 8 * |s'.queue| + 8 * |s'.outstanding|
         < Rank(s.threads[step.t]) + 8 * |s.queue| + 8 * |s.outstanding|
      && s'.accepted == s.accepted
  {
  }

  lemma StepDoesWork(s: State, step: Step)
    requires Enabled(s, step) && !step.Send?
    ensures Work(Apply(s, step)) < Work(s)
    ensures Apply(s, step).accepted == s.accepted && |Apply(s, step).threads| == |s.threads|
  {
    OneThreadMoves(s, step);
    RankFalls(s, step);
    hide Sum, Apply, Rank;
    SumUpdate(Rank, s.threads, step.t, Apply(s, step).threads[step.t]);
  }

  lemma {:induction false} RunsAreFinite(s: State, steps: seq<Step>)
    requires Executable(s, steps) && forall i :: 0 <= i < |steps| ==> !steps[i].Send?
    ensures |steps| + Work(Exec(s, steps)) <= Work(s)
    decreases |steps|
  {
    if steps != [] {
      StepDoesWork(s, steps[0]);
      RunsAreFinite(Apply(s, steps[0]), steps[1..]);
    }
  }

  /** There is no deadlock: unless all is quiet, some thread can move. */
  lemma SomeStepEnabled(s: State) returns (step: Step)
    requires Inv(s) && |s.threads| > 0 && !Quiescent(s)
    ensures Enabled(s, step) && !step.Send? && (step.Complete? ==> step.ok)
  {
    if s.lockHeld {
      var t := SumPositive(InLock, s.threads);
      var pc := s.threads[t];
      step := if pc.Locked? then Exchange(t) else if pc.Won? then Pop(t)
              else if pc.Popped? then Start(t) else Release(t);
    } else if forall t :: 0 <= t < |s.threads| ==> s.threads[t] == Idle {
      step := Complete(0, 0, true);
    } else {
      var t :| 0 <= t < |s.threads| && s.threads[t] != Idle;
      SumAtLeast(InLock, s.threads, t);
      var pc := s.threads[t];
      step := if pc.WantWrite? then Acquire(t) else if pc.Completed? then Clear(t) else Test(t);
    }
  }

  /** Every reachable state can be run until all is quiet; by RunsAreFinite every schedule that stops
      only when nothing is enabled gets there.  Without failures everything accepted is then written. */
  lemma Drains(s: State) returns (steps: seq<Step>)
    requires Inv(s) && |s.threads| > 0
    ensures Executable(s, steps) && forall i :: 0 <= i < |steps| ==> !steps[i].Send?
    ensures AllSucceed(steps)
    ensures Quiescent(Exec(s, steps)) && Exec(s, steps).accepted == s.accepted
    ensures !s.failed ==> Exec(s, steps).finished == Lines(s.accepted)
    decreases Work(s)
  {
    hide Work, Inv, Lines, Apply, Enabled;
    if Quiescent(s) {
      steps := [];
      if !s.failed {
        QuietMeansDone(s);
      }
    } else {
      var step := SomeStepEnabled(s);
      StepDoesWork(s, step);
      StepKeepsInv(s, step);
      OneEvent(s, step);
      var rest := Drains(Apply(s, step));
      steps := [step] + rest;
      AllSucceedStep(steps);
      assert steps[1..] == rest;
    }
  }
}
