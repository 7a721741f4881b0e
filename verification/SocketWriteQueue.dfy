/** The write queue of BufferedWriterSocket: asyncWrite and handleWrite, run by any number of threads.
    A frame stays at the head of the deque until its socket write has completed, and its completion
    handler runs after inWrite_ has been cleared; the handler may itself call asyncWrite.  The steps are
    the accesses to shared state, as the order of the statements has them. */
module SocketWriteQueue {
  import opened Options
  import opened Bytes
  import opened FifoChannel
  import opened Sums

  /** Where a thread is inside the private asyncWrite(). */
  datatype Stage =
    | Want                               // about to enter, needs writeLock_
    | Locked                             // holds writeLock_, about to exchange inWrite_
    | Won                                // exchanged false for true, about to look at the front
    | Peeked(frame: Option<seq<Byte>>)   // what it saw there, if the deque was not empty
    | Leaving                            // about to release writeLock_

  /** What a thread returns to from asyncWrite(): nothing, or the completion handler that called it. */
  datatype After = Done | Handler(ok: bool)

  datatype Pc =
    | Idle
    | Writing(stage: Stage, after: After)
    | Completed(ok: bool)                        // in handleWrite, about to move the handler out
    | Took(handler: Option<nat>, ok: bool)       // about to pop the frame
    | Popped(handler: Option<nat>, ok: bool)     // about to clear inWrite_
    | Cleared(handler: Option<nat>, ok: bool)    // about to call the handler
    | Calling(ok: bool)                          // inside the handler

  /** A queued frame; the handler is the ordinal number of the asyncWrite call that brought it, and
      gone once it has been moved out. */
  datatype Entry = Entry(frame: seq<Byte>, handler: Option<nat>)

  /** The shared state, and the history that the properties speak about: all frames accepted in the
      order of bufferWriteLock_, the frames whose write has completed, how many frames were popped,
      the handlers moved out, the handlers called, and whether any write has failed. */
  datatype State = State(threads: seq<Pc>, queue: seq<Entry>, inWrite: bool, lockHeld: bool,
                         outstanding: seq<seq<Byte>>,
                         accepted: seq<seq<Byte>>, finished: seq<seq<Byte>>, pops: nat,
                         taken: seq<Option<nat>>, called: seq<Option<nat>>, failed: bool)

  datatype Step =
    | Send(t: nat, frame: seq<Byte>)
    | Acquire(t: nat)
    | Exchange(t: nat)
    | Peek(t: nat)
    | Start(t: nat)
    | Release(t: nat)
    | Complete(t: nat, i: nat, ok: bool)
    | Take(t: nat)
    | Pop(t: nat)
    | Clear(t: nat)
    | Call(t: nat)
    | Return(t: nat)

  function Init(n: nat): State {
    State(seq(n, i => Idle), [], false, false, [], [], [], 0, [], [], false)
  }

  predicate At(pc: Pc, stage: Stage) {
    pc.Writing? && pc.stage == stage
  }

  predicate Enabled(s: State, step: Step) {
    && step.t < |s.threads|
    && var pc := s.threads[step.t];
       match step
       case Send(_, _) => pc.Idle? || pc.Calling?
       case Acquire(_) => At(pc, Want) && !s.lockHeld
       case Exchange(_) => At(pc, Locked)
       case Peek(_) => At(pc, Won)
       case Start(_) => pc.Writing? && pc.stage.Peeked?
       case Release(_) => At(pc, Leaving)
       case Complete(_, i, _) => pc.Idle? && i < |s.outstanding|
       case Take(_) => pc.Completed? && s.queue != []
       case Pop(_) => pc.Took? && s.queue != []
       case Clear(_) => pc.Popped?
       case Call(_) => pc.Cleared?
       case Return(_) => pc.Calling?
  }

  function Go(s: State, t: nat, pc: Pc): State
    requires t < |s.threads|
  {
    s.(threads := s.threads[t := pc])
  }

  function Apply(s: State, step: Step): State
    requires Enabled(s, step)
  {
    var t := step.t;
    var pc := s.threads[t];
    match step
    case Send(_, frame) =>
      Go(s, t, Writing(Want, if pc.Idle? then Done else Handler(pc.ok)))
        .(queue := s.queue + [Entry(frame, Some(|s.accepted|))], accepted := s.accepted + [frame])
    case Acquire(_) =>
      Go(s, t, Writing(Locked, pc.after)).(lockHeld := true)
    case Exchange(_) =>
      if s.inWrite then Go(s, t, Writing(Leaving, pc.after))
      else Go(s, t, Writing(Won, pc.after)).(inWrite := true)
    case Peek(_) =>
      Go(s, t, Writing(Peeked(if s.queue == [] then None else Some(s.queue[0].frame)), pc.after))
    case Start(_) =>
      var seen := pc.stage.frame;
      if seen.Some? && seen.value != [] then
        Go(s, t, Writing(Leaving, pc.after)).(outstanding := s.outstanding + [seen.value])
      else
        Go(s, t, Writing(Leaving, pc.after)).(inWrite := false)
    case Release(_) =>
      Go(s, t, if pc.after.Done? then Idle else Calling(pc.after.ok)).(lockHeld := false)
    case Complete(_, i, ok) =>
      Go(s, t, Completed(ok)).(outstanding := s.outstanding[..i] + s.outstanding[i + 1..],
                               finished := s.finished + [s.outstanding[i]],
                               failed := s.failed || !ok)
    case Take(_) =>
      Go(s, t, Took(s.queue[0].handler, pc.ok))
        .(queue := s.queue[0 := s.queue[0].(handler := None)], taken := s.taken + [s.queue[0].handler])
    case Pop(_) =>
      Go(s, t, Popped(pc.handler, pc.ok)).(queue := s.queue[1..], pops := s.pops + 1)
    case Clear(_) =>
      Go(s, t, Cleared(pc.handler, pc.ok)).(inWrite := false)
    case Call(_) =>
      Go(s, t, Calling(pc.ok)).(called := s.called + [pc.handler])
    case Return(_) =>
      Go(s, t, if pc.ok then Writing(Want, Done) else Idle)
  }

  /** A schedule that can run from a state, and the state it leads to. */
  predicate Executable(s: State, steps: seq<Step>)
    decreases |steps|
  {
    steps == [] || (Enabled(s, steps[0]) && Executable(Apply(s, steps[0]), steps[1..]))
  }

  function Exec(s: State, steps: seq<Step>): State
    requires Executable(s, steps)
    decreases |steps|
  {
    if steps == [] then s else Exec(Apply(s, steps[0]), steps[1..])
  }

  // What a schedule asks for

  /** The frames that the threads send, in the order of bufferWriteLock_. */
  function SentIn(steps: seq<Step>): seq<seq<Byte>> {
    if steps == [] then []
    else Carried(steps[0]) + SentIn(steps[1..])
  }

  function Carried(step: Step): seq<seq<Byte>> {
    if step.Send? then [step.frame] else []
  }

  /** The socket reports no error. */
  predicate AllSucceed(steps: seq<Step>) {
    forall i :: 0 <= i < |steps| && steps[i].Complete? ==> steps[i].ok
  }

  lemma OneEvent(s: State, step: Step)
    requires Enabled(s, step)
    ensures Apply(s, step).accepted == s.accepted + Carried(step)
    ensures Apply(s, step).failed <==> s.failed || (step.Complete? && !step.ok)
  {
    assert s.accepted + [] == s.accepted;
  }

  /** Exactly the sent frames are accepted, in order. */
  lemma {:induction false} AcceptedAreSent(s: State, steps: seq<Step>)
    requires Executable(s, steps)
    ensures Exec(s, steps).accepted == s.accepted + SentIn(steps)
    decreases |steps|
  {
    hide Apply, Enabled;
    if steps == [] {
      assert s.accepted + [] == s.accepted;
    } else {
      var step, rest := steps[0], steps[1..];
      var next := Apply(s, step);
      OneEvent(s, step);
      AcceptedAreSent(next, rest);
      assert Exec(s, steps) == Exec(next, rest);
      assert SentIn(steps) == Carried(step) + SentIn(rest);
      hide *;
      Regroup(s.accepted, Carried(step), SentIn(rest));
    }
  }

  lemma Regroup<T>(a: seq<T>, b: seq<T>, c: seq<T>)
    ensures a + b + c == a + (b + c)
  {
  }

  /** A failure is seen exactly if the socket reports one. */
  lemma {:induction false} FailedIsReported(s: State, steps: seq<Step>)
    requires Executable(s, steps)
    ensures Exec(s, steps).failed <==> s.failed || !AllSucceed(steps)
    decreases |steps|
  {
    if steps != [] {
      OneEvent(s, steps[0]);
      hide Apply, Enabled;
      FailedIsReported(Apply(s, steps[0]), steps[1..]);
      AllSucceedStep(steps);
    }
  }

  lemma AllSucceedStep(steps: seq<Step>)
    requires steps != []
    ensures AllSucceed(steps) <==> (steps[0].Complete? ==> steps[0].ok) && AllSucceed(steps[1..])
  {
    if (steps[0].Complete? ==> steps[0].ok) && AllSucceed(steps[1..]) {
      assert forall i :: 0 < i < |steps| ==> steps[i] == steps[1..][i - 1];
    }
    if AllSucceed(steps) {
      assert forall i :: 0 <= i < |steps| - 1 ==> steps[1..][i] == steps[i + 1];
    }
  }

  /** Any idle thread and any handler may send, and any idle thread may be the one to run a completion, with
      or without an error. */
  lemma NothingRefused(s: State, t: nat, frame: seq<Byte>, i: nat, ok: bool)
    requires t < |s.threads|
    ensures s.threads[t].Idle? || s.threads[t].Calling? ==> Enabled(s, Send(t, frame))
    ensures s.threads[t].Idle? && i < |s.outstanding| ==> Enabled(s, Complete(t, i, ok))
  {
  }

  // Calls that no other thread interrupts

  /** asyncWrite, from outside or inside a handler: the frame goes behind the queue with its handler; if no
      write is under way and the head of the queue is not empty, it is given to the socket and stays. */
  lemma SendAndWrite(s: State, t: nat, frame: seq<Byte>) returns (steps: seq<Step>)
    requires t < |s.threads| && (s.threads[t].Idle? || s.threads[t].Calling?) && !s.lockHeld
    ensures Executable(s, steps)
    ensures var queue := s.queue + [Entry(frame, Some(|s.accepted|))];
      var sent := s.(queue := queue, accepted := s.accepted + [frame]);
      Exec(s, steps) == if s.inWrite || queue[0].frame == [] then sent
                        else sent.(inWrite := true, outstanding := s.outstanding + [queue[0].frame])
  {
    steps := SendAndTry(s, t, frame);
    if !s.inWrite {
      steps := PeekAndStart(s, steps, t);
    }
    hide Executable, Exec, CompletedBy, Apply;
    steps := Leave(s, steps, t);
    assert Exec(s, steps).threads == s.threads;
  }

  lemma Leave(s0: State, steps: seq<Step>, t: nat) returns (longer: seq<Step>)
    requires Executable(s0, steps) && CompletedBy(steps, {})
    requires var s := Exec(s0, steps); t < |s.threads| && At(s.threads[t], Leaving)
    ensures Executable(s0, longer) && CompletedBy(longer, {})
    ensures var s := Exec(s0, steps);
      var after := s.threads[t].after;
      Exec(s0, longer) == s.(threads := s.threads[t := if after.Done? then Idle else Calling(after.ok)],
                             lockHeld := false)
  {
    hide Executable, Exec, CompletedBy;
    longer := Then(s0, steps, {}, Release(t));
  }

  lemma PeekAndStart(s0: State, steps: seq<Step>, t: nat) returns (longer: seq<Step>)
    requires Executable(s0, steps) && CompletedBy(steps, {})
    requires var s := Exec(s0, steps); t < |s.threads| && At(s.threads[t], Won) && s.queue != []
    ensures Executable(s0, longer) && CompletedBy(longer, {})
    ensures var s := Exec(s0, steps);
      var after, head := s.threads[t].after, s.queue[0].frame;
      Exec(s0, longer) == s.(threads := s.threads[t := Writing(Leaving, after)], inWrite := head != [] && s.inWrite,
                             outstanding := if head != [] then s.outstanding + [head] else s.outstanding)
  {
    hide Executable, Exec, CompletedBy;
    longer := Then(s0, steps, {}, Peek(t));
    longer := Then(s0, longer, {}, Start(t));
  }

  lemma SendAndTry(s: State, t: nat, frame: seq<Byte>) returns (steps: seq<Step>)
    requires t < |s.threads| && (s.threads[t].Idle? || s.threads[t].Calling?) && !s.lockHeld
    ensures Executable(s, steps) && CompletedBy(steps, {})
    ensures var after := if s.threads[t].Idle? then Done else Handler(s.threads[t].ok);
      Exec(s, steps) == s.(queue := s.queue + [Entry(frame, Some(|s.accepted|))], accepted := s.accepted + [frame],
                           threads := s.threads[t := Writing(if s.inWrite then Leaving else Won, after)],
                           inWrite := true, lockHeld := true)
  {
    RunStart(s);
    NoneCompleted();
    hide Executable, Exec, CompletedBy;
    steps := Then(s, [], {}, Send(t, frame));
    steps := Then(s, steps, {}, Acquire(t));
    steps := Then(s, steps, {}, Exchange(t));
  }

  lemma NoneCompleted()
    ensures CompletedBy([], {})
  {
  }

  /** handleWrite: the frame that was written leaves the queue, the flag is cleared and the handler called;
      without an error the thread goes on to write, and with an error it returns. */
  lemma HandleToEnd(s: State, t: nat, ok: bool) returns (steps: seq<Step>)
    requires t < |s.threads| && s.threads[t].Idle? && |s.outstanding| == 1 && s.queue != []
    ensures Executable(s, steps)
    ensures var h := s.queue[0].handler;
      Exec(s, steps) == s.(threads := s.threads[t := if ok then Writing(Want, Done) else Idle], queue := s.queue[1..],
                           inWrite := false, outstanding := [], finished := s.finished + s.outstanding,
                           pops := s.pops + 1, taken := s.taken + [h], called := s.called + [h],
                           failed := s.failed || !ok)
  {
    RunStart(s);
    NoneCompletedBy(t);
    steps := CompleteOnly(s, [], t, ok);
    hide Executable, Exec, CompletedBy, Apply;
    steps := TakeAndPop(s, steps, t);
    steps := PopToEnd(s, steps, t);
  }

  lemma CompleteOnly(s0: State, steps: seq<Step>, t: nat, ok: bool) returns (longer: seq<Step>)
    requires Executable(s0, steps) && CompletedBy(steps, {t})
    requires var s := Exec(s0, steps); t < |s.threads| && s.threads[t].Idle? && |s.outstanding| == 1
    ensures Executable(s0, longer) && CompletedBy(longer, {t})
    ensures var s := Exec(s0, steps);
      Exec(s0, longer) == s.(threads := s.threads[t := Completed(ok)], outstanding := [],
                             finished := s.finished + s.outstanding, failed := s.failed || !ok)
  {
    hide Executable, Exec, CompletedBy;
    longer := Then(s0, steps, {t}, Complete(t, 0, ok));
    ghost var o := Exec(s0, steps).outstanding;
    assert [o[0]] == o;
  }

  lemma TakeAndPop(s0: State, steps: seq<Step>, t: nat) returns (longer: seq<Step>)
    requires Executable(s0, steps) && CompletedBy(steps, {t})
    requires var s := Exec(s0, steps); t < |s.threads| && s.threads[t].Completed? && s.queue != []
    ensures Executable(s0, longer) && CompletedBy(longer, {t})
    ensures var s := Exec(s0, steps);
      var h := s.queue[0].handler;
      Exec(s0, longer) == s.(threads := s.threads[t := Popped(h, s.threads[t].ok)], queue := s.queue[1..],
                             pops := s.pops + 1, taken := s.taken + [h])
  {
    hide Executable, Exec, CompletedBy;
    longer := Then(s0, steps, {t}, Take(t));
    longer := Then(s0, longer, {t}, Pop(t));
  }

  lemma NoneCompletedBy(t: nat)
    ensures CompletedBy([], {t})
  {
  }

  lemma PopToEnd(s0: State, steps: seq<Step>, t: nat) returns (longer: seq<Step>)
    requires Executable(s0, steps) && CompletedBy(steps, {t})
    requires var s := Exec(s0, steps); t < |s.threads| && s.threads[t].Popped?
    ensures Executable(s0, longer)
    ensures var s := Exec(s0, steps);
      var pc := s.threads[t];
      Exec(s0, longer) == s.(threads := s.threads[t := if pc.ok then Writing(Want, Done) else Idle],
                             inWrite := false, called := s.called + [pc.handler])
  {
    hide Executable, Exec, CompletedBy;
    longer := Then(s0, steps, {t}, Clear(t));
    longer := Then(s0, longer, {t}, Call(t));
    longer := Then(s0, longer, {t}, Return(t));
  }

  // The ownership token

  /** A thread that owns inWrite_: past a successful exchange, or in handleWrite before the clear. */
  function Token(pc: Pc): nat {
    if (pc.Writing? && (pc.stage.Won? || pc.stage.Peeked?)) || pc.Completed? || pc.Took? || pc.Popped? then 1 else 0
  }

  function Tokens(s: State): nat {
    Sum(Token, s.threads) + |s.outstanding|
  }

  ghost predicate TokenInv(s: State) {
    Tokens(s) == if s.inWrite then 1 else 0
  }

  function InLock(pc: Pc): nat {
    if pc.Writing? && !pc.stage.Want? then 1 else 0
  }

  ghost predicate LockInv(s: State) {
    Sum(InLock, s.threads) == if s.lockHeld then 1 else 0
  }

  // Order

  /** A completed frame that is still at the head of the queue. */
  function Unpopped(pc: Pc): nat {
    if pc.Completed? || pc.Took? then 1 else 0
  }

  /** A handler that has been moved out of a frame still in the queue. */
  function Moved(pc: Pc): nat {
    if pc.Took? then 1 else 0
  }

  /** What the queue holds: the accepted frames from the pops-th on, the handler of the first moved
      out if a thread is between the two halves of handleWrite. */
  function Pending(accepted: seq<seq<Byte>>, pops: nat, moved: nat): (q: seq<Entry>)
    requires pops <= |accepted|
    ensures |q| == |accepted| - pops
  {
    seq(|accepted| - pops, i requires 0 <= i < |accepted| - pops =>
      Entry(accepted[pops + i], if i < moved then None else Some(pops + i)))
  }

  function Ordinals(n: nat): (o: seq<Option<nat>>)
    ensures |o| == n
  {
    seq(n, i requires 0 <= i < n => Some(i))
  }

  /** What a thread that owns the token knows about the head of the queue. */
  ghost predicate HeadInv(s: State, pc: Pc) {
    && (pc.Writing? && pc.stage.Peeked? && pc.stage.frame.Some? ==>
          s.queue != [] && s.queue[0].frame == pc.stage.frame.value)
    && (pc.Took? ==> pc.handler == Some(s.pops))
  }

  ghost predicate OrderInv(s: State) {
    && s.pops <= |s.finished| <= |s.accepted|
    && s.pops <= |s.accepted|
    && |s.finished| == s.pops + Sum(Unpopped, s.threads)
    && |s.finished| + |s.outstanding| <= |s.accepted|
    && s.finished + s.outstanding == s.accepted[..|s.finished| + |s.outstanding|]
    && (forall i :: 0 <= i < |s.finished| + |s.outstanding| ==> s.accepted[i] != [])
    && s.queue == Pending(s.accepted, s.pops, Sum(Moved, s.threads))
    && s.taken == Ordinals(s.pops + Sum(Moved, s.threads))
    && (forall t :: 0 <= t < |s.threads| ==> HeadInv(s, s.threads[t]))
  }

  // Handlers

  /** A thread that holds handler h between moving it out and calling it. */
  function Holding(h: Option<nat>): Pc -> nat {
    (pc: Pc) => if (pc.Took? || pc.Popped? || pc.Cleared?) && pc.handler == h then 1 else 0
  }

  /** How often handler h has been moved out, called, or is in between. */
  ghost predicate HandlerCount(s: State, h: Option<nat>) {
    multiset(s.taken)[h] == multiset(s.called)[h] + Sum(Holding(h), s.threads)
  }

  ghost predicate HandlerInv(s: State) {
    forall h :: HandlerCount(s, h)
  }

  // Wakeups

  /** A thread that will still look at the queue, or is bringing a frame to the socket. */
  predicate Rechecks(pc: Pc) {
    match pc
    case Idle => false
    case Writing(Leaving, after) => after.Handler?
    case Writing(Peeked(frame), after) => after.Handler? || (frame.Some? && frame.value != [])
    case _ => true
  }

  ghost predicate Awake(s: State) {
    s.outstanding != [] || exists t :: 0 <= t < |s.threads| && Rechecks(s.threads[t])
  }

  predicate Bad(pc: Pc) {
    match pc
    case Idle => false
    case Writing(_, after) => after == Handler(false)
    case Completed(ok) => !ok
    case Took(_, ok) => !ok
    case Popped(_, ok) => !ok
    case Cleared(_, ok) => !ok
    case Calling(ok) => !ok
  }

  /** A handler that carries an error code has been counted as a failure. */
  predicate FailureSeen(s: State) {
    forall t :: 0 <= t < |s.threads| && Bad(s.threads[t]) ==> s.failed
  }

  predicate HeadWaits(s: State) {
    s.queue != [] && s.queue[0].frame != []
  }

  ghost predicate WakeInv(s: State) {
    && (!s.failed && HeadWaits(s) ==> Awake(s))
    && FailureSeen(s)
  }

  ghost predicate Inv(s: State) {
    TokenInv(s) && LockInv(s) && OrderInv(s) && HandlerInv(s) && WakeInv(s)
  }

  lemma InitInv(n: nat)
    ensures Inv(Init(n))
  {
    hide Sum;
    var threads := Init(n).threads;
    SumOfZeros(Token, threads);
    SumOfZeros(InLock, threads);
    SumOfZeros(Unpopped, threads);
    SumOfZeros(Moved, threads);
    forall h ensures HandlerCount(Init(n), h) {
      SumOfZeros(Holding(h), threads);
    }
  }

  /** The owner of the token is alone with it. */
  lemma OwnerAlone(s: State, t: nat)
    requires TokenInv(s) && t < |s.threads| && Token(s.threads[t]) == 1
    ensures s.outstanding == [] && s.inWrite
    ensures forall u :: 0 <= u < |s.threads| && u != t ==> Token(s.threads[u]) == 0
    ensures Sum(Unpopped, s.threads) == Unpopped(s.threads[t])
    ensures Sum(Moved, s.threads) == Moved(s.threads[t])
  {
    SumAtLeast(Token, s.threads, t);
    forall u | 0 <= u < |s.threads| && u != t ensures Token(s.threads[u]) == 0 {
      if u < t {
        SumPair(Token, s.threads, u, t);
      } else {
        SumPair(Token, s.threads, t, u);
      }
    }
    SumOwned(Unpopped, Token, s.threads, t);
    SumOwned(Moved, Token, s.threads, t);
  }

  /** While a write is outstanding, no thread owns the token. */
  lemma NoOwner(s: State)
    requires TokenInv(s) && s.outstanding != []
    ensures |s.outstanding| == 1
    ensures forall u :: 0 <= u < |s.threads| ==> Token(s.threads[u]) == 0
    ensures Sum(Unpopped, s.threads) == Sum(Moved, s.threads) == 0
  {
    forall u | 0 <= u < |s.threads| ensures Token(s.threads[u]) == 0 {
      SumAtLeast(Token, s.threads, u);
    }
    SumBelow(Unpopped, Token, s.threads);
    SumBelow(Moved, Token, s.threads);
  }

  lemma StepKeepsToken(s: State, step: Step)
    requires Enabled(s, step) && TokenInv(s)
    ensures TokenInv(Apply(s, step))
  {
    hide Sum;
    var t := step.t;
    SumUpdate(Token, s.threads, t, Apply(s, step).threads[t]);
    SumAtLeast(Token, s.threads, t);
  }

  lemma StepKeepsLock(s: State, step: Step)
    requires Enabled(s, step) && LockInv(s)
    ensures LockInv(Apply(s, step))
  {
    hide Sum;
    var t := step.t;
    SumUpdate(InLock, s.threads, t, Apply(s, step).threads[t]);
    SumAtLeast(InLock, s.threads, t);
  }

  lemma StepKeepsHandlers(s: State, step: Step)
    requires Enabled(s, step) && HandlerInv(s)
    ensures HandlerInv(Apply(s, step))
  {
    forall h ensures HandlerCount(Apply(s, step), h) {
      assert HandlerCount(s, h);
      StepKeepsHandlerCount(s, step, h);
    }
  }

  lemma StepKeepsHandlerCount(s: State, step: Step, h: Option<nat>)
    requires Enabled(s, step) && HandlerCount(s, h)
    ensures HandlerCount(Apply(s, step), h)
  {
    if step.Take? || step.Call? {
      HandlerMoves(s, step, h);
    } else {
      HandlerStays(s, step, h);
      HistoryStays(s, step);
      OneThreadMoves(s, step);
      hide Sum, Apply, Holding;
      SumUpdate(Holding(h), s.threads, step.t, Apply(s, step).threads[step.t]);
    }
  }

  lemma OneThreadMoves(s: State, step: Step)
    requires Enabled(s, step)
    ensures Apply(s, step).threads == s.threads[step.t := Apply(s, step).threads[step.t]]
  {
  }

  lemma HandlerStays(s: State, step: Step, h: Option<nat>)
    requires Enabled(s, step) && !step.Take? && !step.Call?
    ensures Holding(h)(Apply(s, step).threads[step.t]) == Holding(h)(s.threads[step.t])
  {
    var pc := Apply(s, step).threads[step.t];
    assert pc.Popped? || pc.Cleared? ==> pc.handler == s.threads[step.t].handler;
  }

  lemma HistoryStays(s: State, step: Step)
    requires Enabled(s, step) && !step.Take? && !step.Call?
    ensures Apply(s, step).taken == s.taken && Apply(s, step).called == s.called
  {
  }

  lemma HandlerMoves(s: State, step: Step, h: Option<nat>)
    requires step.Take? || step.Call?
    requires Enabled(s, step) && HandlerCount(s, h)
    ensures HandlerCount(Apply(s, step), h)
  {
    hide Sum;
    SumUpdate(Holding(h), s.threads, step.t, Apply(s, step).threads[step.t]);
  }

  lemma SumsUpdate(s: State, t: nat, pc: Pc)
    requires t < |s.threads|
    ensures Sum(Unpopped, s.threads[t := pc]) + Unpopped(s.threads[t]) == Sum(Unpopped, s.threads) + Unpopped(pc)
    ensures Sum(Moved, s.threads[t := pc]) + Moved(s.threads[t]) == Sum(Moved, s.threads) + Moved(pc)
  {
    SumUpdate(Unpopped, s.threads, t, pc);
    SumUpdate(Moved, s.threads, t, pc);
  }

  lemma StepKeepsOrder(s: State, step: Step)
    requires Enabled(s, step) && TokenInv(s) && OrderInv(s)
    ensures OrderInv(Apply(s, step))
  {
    hide Sum, Pending, Ordinals, TokenInv;
    SumsUpdate(s, step.t, Apply(s, step).threads[step.t]);
    match step
    case Send(_, _) => SendKeepsOrder(s, step);
    case Peek(_) =>
    case Start(_) => StartKeepsOrder(s, step);
    case Complete(_, _, _) => CompleteKeepsOrder(s, step);
    case Take(_) => TakeKeepsOrder(s, step);
    case Pop(_) => PopKeepsOrder(s, step);
    case _ =>
  }

  lemma SendKeepsOrder(s: State, step: Step)
    requires step.Send? && Enabled(s, step) && OrderInv(s)
    ensures OrderInv(Apply(s, step))
  {
    hide Sum;
    var s' := Apply(s, step);
    SumsUpdate(s, step.t, s'.threads[step.t]);
    SumBelow(Moved, Unpopped, s.threads);
    assert s'.queue == Pending(s'.accepted, s'.pops, Sum(Moved, s.threads));
    hide Pending, Ordinals;
    var n := |s.finished| + |s.outstanding|;
    assert s'.accepted[..n] == s.accepted[..n];
    forall u | 0 <= u < |s'.threads| ensures HeadInv(s', s'.threads[u]) {
      assert u != step.t ==> HeadInv(s, s.threads[u]);
    }
  }

  lemma HeadFrame(s: State)
    requires OrderInv(s) && s.queue != []
    ensures s.pops < |s.accepted| && s.queue[0].frame == s.accepted[s.pops]
  {
    hide Sum;
  }

  lemma StartKeepsOrder(s: State, step: Step)
    requires step.Start? && Enabled(s, step) && TokenInv(s) && OrderInv(s)
    ensures OrderInv(Apply(s, step))
  {
    hide Sum, Ordinals;
    var s' := Apply(s, step);
    SumsUpdate(s, step.t, s'.threads[step.t]);
    OwnerAlone(s, step.t);
    assert HeadInv(s, s.threads[step.t]);
    if s.queue != [] {
      HeadFrame(s);
    }
    hide Unpopped, Moved, TokenInv, Pending;
    if s'.outstanding != [] {
      var n := |s.finished|;
      assert s.accepted[n] == s'.outstanding[0];
      assert s.accepted[..n + 1] == s.accepted[..n] + [s.accepted[n]];
      assert s.accepted[..n] == s.finished;
    }
    forall u | 0 <= u < |s'.threads| ensures HeadInv(s', s'.threads[u]) {
      assert u != step.t ==> HeadInv(s, s.threads[u]);
    }
  }

  lemma CompleteKeepsOrder(s: State, step: Step)
    requires step.Complete? && Enabled(s, step) && TokenInv(s) && OrderInv(s)
    ensures OrderInv(Apply(s, step))
  {
    hide Sum, Ordinals, Pending;
    var s' := Apply(s, step);
    SumsUpdate(s, step.t, s'.threads[step.t]);
    NoOwner(s);
    assert s'.finished == s.finished + s.outstanding;
    forall u | 0 <= u < |s'.threads| ensures HeadInv(s', s'.threads[u]) {
      assert u != step.t ==> HeadInv(s, s.threads[u]);
    }
  }

  lemma TakeKeepsOrder(s: State, step: Step)
    requires step.Take? && Enabled(s, step) && TokenInv(s) && OrderInv(s)
    ensures OrderInv(Apply(s, step))
  {
    hide Sum;
    var s' := Apply(s, step);
    SumsUpdate(s, step.t, s'.threads[step.t]);
    OwnerAlone(s, step.t);
    assert s'.queue == Pending(s.accepted, s.pops, 1);
    assert s'.taken == Ordinals(s.pops + 1);
  }

  lemma PopKeepsOrder(s: State, step: Step)
    requires step.Pop? && Enabled(s, step) && TokenInv(s) && OrderInv(s)
    ensures OrderInv(Apply(s, step))
  {
    hide Sum;
    var s' := Apply(s, step);
    SumsUpdate(s, step.t, s'.threads[step.t]);
    OwnerAlone(s, step.t);
    assert s'.queue == Pending(s.accepted, s.pops + 1, 0);
  }

  lemma StepKeepsFailureSeen(s: State, step: Step)
    requires Enabled(s, step) && FailureSeen(s)
    ensures FailureSeen(Apply(s, step))
  {
    OneThreadMoves(s, step);
    BadHasFailed(s, step);
    hide Apply, Bad;
  }

  lemma BadHasFailed(s: State, step: Step)
    requires Enabled(s, step)
    ensures s.failed ==> Apply(s, step).failed
    ensures Bad(Apply(s, step).threads[step.t]) ==> Apply(s, step).failed || Bad(s.threads[step.t])
  {
  }

  /** When the step of a thread that will not look again leaves a frame waiting, the thread has found the
      flag set, or would not have looked again before. */
  lemma FallsAsleep(s: State, step: Step)
    requires Enabled(s, step) && FailureSeen(s)
    requires var s' := Apply(s, step);
      !s'.failed && HeadWaits(s') && s'.outstanding == [] && !Rechecks(s'.threads[step.t])
    ensures s.outstanding == [] && s.queue == Apply(s, step).queue && !s.failed
    ensures (step.Exchange? && s.inWrite) || !Rechecks(s.threads[step.t])
  {
    var pc := s.threads[step.t];
    assert Bad(pc) ==> s.failed;
  }

  lemma StepKeepsWake(s: State, step: Step)
    requires Enabled(s, step) && Inv(s)
    ensures WakeInv(Apply(s, step))
  {
    hide Sum, Pending, Ordinals, TokenInv, LockInv, OrderInv, HandlerInv;
    StepKeepsFailureSeen(s, step);
    OneThreadMoves(s, step);
    hide FailureSeen, Apply, Rechecks, HeadWaits;
    var t, s' := step.t, Apply(s, step);
    if !s'.failed && HeadWaits(s') {
      if Rechecks(s'.threads[t]) || s'.outstanding != [] {
        assert Awake(s');
      } else {
        FallsAsleep(s, step);
        OthersAwake(s, step);
      }
    }
  }

  /** Then there is another thread that will. */
  lemma OthersAwake(s: State, step: Step)
    requires Enabled(s, step) && TokenInv(s) && LockInv(s) && WakeInv(s)
    requires var s' := Apply(s, step); HeadWaits(s') && s.queue == s'.queue && s.outstanding == [] && !s.failed
    requires (step.Exchange? && s.inWrite) || !Rechecks(s.threads[step.t])
    ensures Awake(Apply(s, step))
  {
    hide Sum, TokenInv, LockInv, FailureSeen;
    OneThreadMoves(s, step);
    var s' := Apply(s, step);
    var u: nat;
    if step.Exchange? && s.inWrite {
      u := OtherOwner(s, step.t);
    } else {
      hide Apply, Rechecks;
      u :| 0 <= u < |s.threads| && Rechecks(s.threads[u]);
    }
    assert u != step.t && s'.threads[u] == s.threads[u];
    assert Rechecks(s'.threads[u]);
  }

  /** A thread that finds inWrite_ set inside writeLock_: the flag then belongs to a handler that has
      yet to clear it, or to a socket write. */
  lemma OtherOwner(s: State, t: nat) returns (u: nat)
    requires TokenInv(s) && LockInv(s)
    requires t < |s.threads| && At(s.threads[t], Locked) && s.inWrite && s.outstanding == []
    ensures u < |s.threads| && (s.threads[u].Completed? || s.threads[u].Took? || s.threads[u].Popped?)
  {
    u := SumPositive(Token, s.threads);
    if u < t {
      SumPair(InLock, s.threads, u, t);
    } else if t < u {
      SumPair(InLock, s.threads, t, u);
    }
  }

  lemma StepKeepsInv(s: State, step: Step)
    requires Enabled(s, step) && Inv(s)
    ensures Inv(Apply(s, step))
  {
    hide TokenInv, LockInv, OrderInv, HandlerInv, WakeInv, Apply;
    StepKeepsToken(s, step);
    StepKeepsLock(s, step);
    StepKeepsOrder(s, step);
    StepKeepsHandlers(s, step);
    StepKeepsWake(s, step);
  }

  lemma {:induction false} ExecKeepsInv(s: State, steps: seq<Step>)
    requires Executable(s, steps) && Inv(s)
    ensures Inv(Exec(s, steps))
    decreases |steps|
  {
    hide Inv, Apply;
    if steps != [] {
      StepKeepsInv(s, steps[0]);
      ExecKeepsInv(Apply(s, steps[0]), steps[1..]);
    }
  }

  // What every run of every number of threads shows

  /** At most one socket write is outstanding, of the frame at the head of the queue, and inWrite_ is true
      exactly while one token exists: with the socket, or with the one thread that is past its exchange
      or in handleWrite before the clear. */
  lemma OneOwner(n: nat, steps: seq<Step>)
    requires Executable(Init(n), steps)
    ensures var s := Exec(Init(n), steps);
      && (s.outstanding != [] ==> s.queue != [] && s.outstanding == [s.queue[0].frame])
      && (s.inWrite <==> s.outstanding != [] || exists t :: 0 <= t < |s.threads| && Token(s.threads[t]) == 1)
      && (forall t :: 0 <= t < |s.threads| && Token(s.threads[t]) == 1 ==>
            s.outstanding == [] && forall u :: 0 <= u < |s.threads| && u != t ==> Token(s.threads[u]) == 0)
  {
    InitInv(n);
    ExecKeepsInv(Init(n), steps);
    var s := Exec(Init(n), steps);
    forall t | 0 <= t < |s.threads| && Token(s.threads[t]) == 1
      ensures s.inWrite && s.outstanding == []
      ensures forall u :: 0 <= u < |s.threads| && u != t ==> Token(s.threads[u]) == 0
    {
      OwnerAlone(s, t);
    }
    if s.outstanding != [] {
      BufferStaysInPlace(s);
    } else if s.inWrite {
      var t := SumPositive(Token, s.threads);
      assert Token(s.threads[t]) == 1;
    }
  }

  function Frames(queue: seq<Entry>): (f: seq<seq<Byte>>)
    ensures |f| == |queue|
  {
    seq(|queue|, i requires 0 <= i < |queue| => queue[i].frame)
  }

  /** The popped frames and the queue are together all frames sent, in the order of bufferWriteLock_;
      the completed and the outstanding ones are the first of them, and none of these is empty. */
  lemma FirstInFirstOut(n: nat, steps: seq<Step>)
    requires Executable(Init(n), steps)
    ensures var s := Exec(Init(n), steps);
      && s.pops <= |s.finished|
      && SentIn(steps) == s.finished[..s.pops] + Frames(s.queue)
      && s.finished + s.outstanding <= SentIn(steps)
      && [] !in s.finished + s.outstanding
  {
    InitInv(n);
    ExecKeepsInv(Init(n), steps);
    AcceptedAreSent(Init(n), steps);
    assert [] + SentIn(steps) == SentIn(steps);
    OrderSeen(Exec(Init(n), steps));
  }

  lemma OrderSeen(s: State)
    requires OrderInv(s)
    ensures s.pops <= |s.finished|
    ensures s.accepted == s.finished[..s.pops] + Frames(s.queue)
    ensures s.finished + s.outstanding <= s.accepted
    ensures [] !in s.finished + s.outstanding
  {
    hide Sum, Ordinals;
    var done := s.finished + s.outstanding;
    assert s.finished[..s.pops] == done[..s.pops] == s.accepted[..s.pops];
    assert Frames(s.queue) == s.accepted[s.pops..];
    forall i | 0 <= i < |done| ensures done[i] != [] {
      assert done[i] == s.accepted[..|done|][i] == s.accepted[i];
    }
  }

  /** In handleWrite the head of the queue is the frame whose write has just completed: it is there to be
      popped, its handler is there to be moved out, and both belong to the same asyncWrite call. */
  lemma HandlerSeesItsFrame(s: State, t: nat)
    requires Inv(s) && t < |s.threads| && s.threads[t].Completed?
    ensures s.queue != [] && |s.finished| == s.pops + 1
    ensures s.queue[0] == Entry(s.finished[s.pops], Some(s.pops))
  {
    OwnerAlone(s, t);
    assert s.accepted[..|s.finished|][s.pops] == s.finished[s.pops];
  }

  /** While a write is outstanding, the buffer it was given is the frame at the head of the queue. */
  lemma BufferStaysInPlace(s: State)
    requires Inv(s) && s.outstanding != []
    ensures s.queue != [] && s.queue[0].frame == s.outstanding[0]
  {
    NoOwner(s);
    assert s.accepted[..|s.finished| + 1][|s.finished|] == s.outstanding[0];
  }

  /** Every handler that has been called is the one of a frame that has been written, and no handler is
      called twice. */
  lemma HandlersOnce(n: nat, steps: seq<Step>)
    requires Executable(Init(n), steps)
    ensures var s := Exec(Init(n), steps);
      && (forall i :: 0 <= i < |s.called| ==> s.called[i].Some? && s.called[i].value < |s.finished|)
      && (forall i, j :: 0 <= i < j < |s.called| ==> s.called[i] != s.called[j])
  {
    InitInv(n);
    ExecKeepsInv(Init(n), steps);
    var s := Exec(Init(n), steps);
    forall i | 0 <= i < |s.called| ensures s.called[i].Some? && s.called[i].value < |s.finished| {
      CalledAfterWrite(s, i);
    }
    forall i, j | 0 <= i < j < |s.called| ensures s.called[i] != s.called[j] {
      CalledOnce(s, i, j);
    }
  }

  lemma CalledAfterWrite(s: State, i: nat)
    requires OrderInv(s) && HandlerInv(s) && i < |s.called|
    ensures s.called[i].Some? && s.called[i].value < |s.finished|
  {
    hide Sum, Ordinals, Pending;
    var h := s.called[i];
    assert HandlerCount(s, h);
    SumBelow(Moved, Unpopped, s.threads);
    OrdinalsOnce(|s.taken|, h);
    assert h in multiset(s.called);
  }

  lemma CalledOnce(s: State, i: nat, j: nat)
    requires OrderInv(s) && HandlerInv(s) && i < j < |s.called|
    ensures s.called[i] != s.called[j]
  {
    hide Sum, Ordinals, Pending;
    var h := s.called[i];
    assert HandlerCount(s, h);
    OrdinalsOnce(|s.taken|, h);
    if h == s.called[j] {
      TwoOccurrences(s.called, i, j);
    }
  }

  lemma TwoOccurrences<T>(a: seq<T>, i: nat, j: nat)
    requires i < j < |a| && a[i] == a[j]
    ensures multiset(a)[a[i]] >= 2
  {
    assert a == a[..j] + [a[j]] + a[j + 1..];
    assert a[i] in a[..j];
  }

  lemma {:induction false} OrdinalsOnce(n: nat, o: Option<nat>)
    ensures multiset(Ordinals(n))[o] == if o.Some? && o.value < n then 1 else 0
  {
    if n > 0 {
      OrdinalsOnce(n - 1, o);
      assert Ordinals(n) == Ordinals(n - 1) + [Some(n - 1)];
    }
  }

  // The order of the handlers

  /** The handlers have been called in the order of the frames, none left out. */
  predicate CalledInOrder(s: State) {
    s.called == Ordinals(|s.called|)
  }

  /** Only threads of a given set run completions. */
  predicate CompletedBy(steps: seq<Step>, io: set<nat>) {
    forall i :: 0 <= i < |steps| && steps[i].Complete? ==> steps[i].t in io
  }

  /** Handlers are called in order, in every run of n threads of which those in io run completions, if and
      only if io has at most one thread.  With two, inWrite_ is cleared before the first handler is
      called, so the next frame can be written, and its handler called, in between. */
  lemma HandlersInOrder(n: nat, io: set<nat>)
    requires forall t :: t in io ==> t < n
    ensures (forall steps :: Executable(Init(n), steps) && CompletedBy(steps, io) ==>
               CalledInOrder(Exec(Init(n), steps)))
            <==> |io| <= 1
  {
    hide Executable, Exec, CompletedBy;
    if |io| <= 1 {
      var c := SoleMember(io);
      forall steps | Executable(Init(n), steps) && CompletedBy(steps, io)
        ensures CalledInOrder(Exec(Init(n), steps))
      {
        OneThreadInOrder(n, steps, io, c);
      }
    } else {
      var a :| a in io;
      assert |io - {a}| > 0;
      var b :| b in io - {a};
      var steps := HandlersCanOvertake(n, io, a, b, [0], [0]);
      assert Ordinals(2)[0] == Some(0);
      assert !CalledInOrder(Exec(Init(n), steps));
    }
  }

  lemma SoleMember(io: set<nat>) returns (c: nat)
    requires |io| <= 1
    ensures io <= {c}
  {
    if io == {} {
      c := 0;
    } else {
      c :| c in io;
      assert |io - {c}| == 0;
    }
  }

  /** The same for systems in which every thread runs completions: only a single thread is safe. */
  lemma HandlersInOrderAlone(n: nat)
    ensures (forall steps :: Executable(Init(n), steps) ==> CalledInOrder(Exec(Init(n), steps))) <==> n <= 1
  {
    hide Executable, Exec, CalledInOrder;
    var all := Below(n);
    HandlersInOrder(n, all);
    forall steps | Executable(Init(n), steps) ensures CompletedBy(steps, all) {
      StepsInRange(Init(n), steps);
    }
  }

  function Below(n: nat): (all: set<nat>)
    ensures |all| == n && forall t: nat :: t in all <==> t < n
  {
    if n == 0 then {} else Below(n - 1) + {n - 1}
  }

  lemma {:induction false} StepsInRange(s: State, steps: seq<Step>)
    requires Executable(s, steps)
    ensures forall i :: 0 <= i < |steps| ==> steps[i].t < |s.threads|
    decreases |steps|
  {
    if steps != [] {
      OneThreadMoves(s, steps[0]);
      hide Apply;
      StepsInRange(Apply(s, steps[0]), steps[1..]);
      assert forall i :: 0 < i < |steps| ==> steps[i] == steps[1..][i - 1];
    }
  }

  // One thread that runs completions

  predicate InHandler(pc: Pc) {
    pc.Completed? || pc.Took? || pc.Popped? || pc.Cleared?
  }

  /** The handler a thread has moved out and not yet called. */
  function Held(pc: Pc): seq<Option<nat>> {
    if pc.Took? || pc.Popped? || pc.Cleared? then [pc.handler] else []
  }

  /** Only thread c, if there is one, is in handleWrite before the call, and the handlers moved out are the
      ones called and the one it holds. */
  ghost predicate SoleInv(s: State, c: nat) {
    && (forall t :: 0 <= t < |s.threads| && t != c ==> !InHandler(s.threads[t]))
    && s.taken == s.called + (if c < |s.threads| then Held(s.threads[c]) else [])
  }

  lemma StepKeepsSole(s: State, step: Step, c: nat)
    requires Enabled(s, step) && SoleInv(s, c) && (step.Complete? ==> step.t == c)
    ensures SoleInv(Apply(s, step), c)
  {
    OneThreadMoves(s, step);
    if step.Take? {
      assert InHandler(s.threads[step.t]);
      TakeHolds(s, step.t);
    } else if step.Call? {
      assert InHandler(s.threads[step.t]);
      CallReleases(s, step.t);
    } else {
      HeldStays(s, step);
      HistoryStays(s, step);
    }
  }

  lemma HeldStays(s: State, step: Step)
    requires Enabled(s, step) && !step.Take? && !step.Call?
    ensures Held(Apply(s, step).threads[step.t]) == Held(s.threads[step.t])
    ensures InHandler(Apply(s, step).threads[step.t]) ==> InHandler(s.threads[step.t]) || step.Complete?
  {
    var pc := Apply(s, step).threads[step.t];
    assert pc.Popped? || pc.Cleared? ==> pc.handler == s.threads[step.t].handler;
  }

  lemma TakeHolds(s: State, t: nat)
    requires Enabled(s, Take(t))
    ensures var s' := Apply(s, Take(t));
      s'.taken == s.taken + Held(s'.threads[t]) && s'.called == s.called && Held(s.threads[t]) == []
  {
  }

  lemma CallReleases(s: State, t: nat)
    requires Enabled(s, Call(t))
    ensures var s' := Apply(s, Call(t));
      && s'.taken == s.taken && s'.called == s.called + Held(s.threads[t])
      && Held(s'.threads[t]) == [] && !InHandler(s'.threads[t])
  {
  }

  lemma {:induction false} ExecKeepsSole(s: State, steps: seq<Step>, io: set<nat>, c: nat)
    requires Executable(s, steps) && CompletedBy(steps, io) && io <= {c} && SoleInv(s, c)
    ensures SoleInv(Exec(s, steps), c)
    decreases |steps|
  {
    hide SoleInv, Apply, Enabled;
    if steps != [] {
      assert steps[0].Complete? ==> steps[0].t in io;
      StepKeepsSole(s, steps[0], c);
      assert forall i :: 0 <= i < |steps| - 1 ==> steps[1..][i] == steps[i + 1];
      ExecKeepsSole(Apply(s, steps[0]), steps[1..], io, c);
    }
  }

  lemma OneThreadInOrder(n: nat, steps: seq<Step>, io: set<nat>, c: nat)
    requires Executable(Init(n), steps) && CompletedBy(steps, io) && io <= {c}
    ensures CalledInOrder(Exec(Init(n), steps))
  {
    hide Executable, Exec, CompletedBy;
    InitInv(n);
    ExecKeepsInv(Init(n), steps);
    ExecKeepsSole(Init(n), steps, io, c);
    var s := Exec(Init(n), steps);
    hide Sum, Pending;
    assert s.called == s.taken[..|s.called|];
    assert s.called == Ordinals(|s.called|);
  }

  // Two threads that run completions

  /** Of any two threads that may run completions, one can be overtaken by the other. */
  lemma HandlersCanOvertake(n: nat, io: set<nat>, a: nat, b: nat, f: seq<Byte>, g: seq<Byte>) returns (steps: seq<Step>)
    requires a < n && b < n && a != b && a in io && b in io && f != [] && g != []
    ensures Executable(Init(n), steps) && CompletedBy(steps, io)
    ensures var s := Exec(Init(n), steps); s.finished == [f, g] && s.called == [Some(1), Some(0)]
  {
    hide Executable, Exec, Apply;
    var s0 := Init(n);
    RunStart(s0);
    steps := Launch(s0, [], io, a, f);
    steps := Land(s0, steps, io, a, f);
    steps := Launch(s0, steps, io, b, g);
    steps := Land(s0, steps, io, b, g);
    hide CompletedBy;
    CallEffect(Exec(s0, steps), b);
    steps := Then(s0, steps, io, Call(b));
    CallEffect(Exec(s0, steps), a);
    steps := Then(s0, steps, io, Call(a));
  }

  lemma RunStart(s: State)
    ensures Executable(s, []) && Exec(s, []) == s
  {
  }

  lemma CallEffect(s: State, t: nat)
    requires Enabled(s, Call(t))
    ensures var s' := Apply(s, Call(t));
      && s'.called == s.called + [s.threads[t].handler] && s'.finished == s.finished
      && |s'.threads| == |s.threads| && forall u :: 0 <= u < |s.threads| && u != t ==> s'.threads[u] == s.threads[u]
  {
  }

  /** One more step at the end of a run. */
  lemma {:induction false} Then(s: State, steps: seq<Step>, io: set<nat>, step: Step) returns (longer: seq<Step>)
    requires Executable(s, steps) && Enabled(Exec(s, steps), step)
    requires CompletedBy(steps, io) && (step.Complete? ==> step.t in io)
    ensures longer == steps + [step] && CompletedBy(longer, io)
    ensures Executable(s, longer) && Exec(s, longer) == Apply(Exec(s, steps), step)
    decreases |steps|
  {
    hide Apply, Enabled;
    longer := steps + [step];
    if steps == [] {
      assert longer[1..] == [];
    } else {
      assert forall i :: 0 <= i < |steps| - 1 ==> steps[1..][i] == steps[i + 1];
      var rest := Then(Apply(s, steps[0]), steps[1..], io, step);
      assert longer[1..] == rest;
    }
  }

  /** The state of a system in which nothing is going on but handlers that wait to be called. */
  predicate Resting(s: State) {
    s.queue == [] && s.outstanding == [] && !s.inWrite && !s.lockHeld
  }

  /** A thread whose frame is being written, in an otherwise resting system. */
  predicate InFlight(s: State, t: nat, frame: seq<Byte>) {
    && s.accepted != [] && s.queue == [Entry(frame, Some(|s.accepted| - 1))] && s.outstanding == [frame]
    && s.inWrite && !s.lockHeld && t < |s.threads| && s.threads[t].Idle?
  }

  /** One thread queues a frame and wins the flag. */
  lemma Enter(s0: State, steps: seq<Step>, io: set<nat>, t: nat, frame: seq<Byte>) returns (longer: seq<Step>)
    requires Executable(s0, steps) && CompletedBy(steps, io)
    requires var s := Exec(s0, steps); Resting(s) && t < |s.threads| && s.threads[t].Idle?
    ensures Executable(s0, longer) && CompletedBy(longer, io)
    ensures var s := Exec(s0, steps);
      Exec(s0, longer) == s.(threads := s.threads[t := Writing(Won, Done)],
                             queue := [Entry(frame, Some(|s.accepted|))], accepted := s.accepted + [frame],
                             inWrite := true, lockHeld := true)
  {
    hide Executable, Exec, CompletedBy;
    longer := Then(s0, steps, io, Send(t, frame));
    longer := Then(s0, longer, io, Acquire(t));
    longer := Then(s0, longer, io, Exchange(t));
  }

  /** One thread queues a frame and brings it to the socket. */
  lemma Launch(s0: State, steps: seq<Step>, io: set<nat>, t: nat, frame: seq<Byte>) returns (longer: seq<Step>)
    requires Executable(s0, steps) && CompletedBy(steps, io) && frame != []
    requires var s := Exec(s0, steps); Resting(s) && t < |s.threads| && s.threads[t].Idle?
    ensures Executable(s0, longer) && CompletedBy(longer, io)
    ensures var s, s' := Exec(s0, steps), Exec(s0, longer);
      && InFlight(s', t, frame) && s'.threads == s.threads
      && s'.accepted == s.accepted + [frame] && s'.finished == s.finished && s'.called == s.called
  {
    hide Executable, Exec, CompletedBy;
    longer := Enter(s0, steps, io, t, frame);
    longer := Then(s0, longer, io, Peek(t));
    longer := Then(s0, longer, io, Start(t));
    longer := Then(s0, longer, io, Release(t));
  }

  /** The write completes, and the thread that runs the completion moves the handler out. */
  lemma Finish(s0: State, steps: seq<Step>, io: set<nat>, t: nat, frame: seq<Byte>) returns (longer: seq<Step>)
    requires Executable(s0, steps) && CompletedBy(steps, io) && t in io && InFlight(Exec(s0, steps), t, frame)
    ensures Executable(s0, longer) && CompletedBy(longer, io)
    ensures var s := Exec(s0, steps);
      var h := Some(|s.accepted| - 1);
      Exec(s0, longer) == s.(threads := s.threads[t := Took(h, true)], queue := [Entry(frame, None)],
                             outstanding := [], finished := s.finished + [frame], taken := s.taken + [h])
  {
    hide Executable, Exec, CompletedBy;
    longer := Then(s0, steps, io, Complete(t, 0, true));
    longer := Then(s0, longer, io, Take(t));
  }

  /** The write completes on the same thread, which goes on up to the call of the handler. */
  lemma Land(s0: State, steps: seq<Step>, io: set<nat>, t: nat, frame: seq<Byte>) returns (longer: seq<Step>)
    requires Executable(s0, steps) && CompletedBy(steps, io) && t in io && InFlight(Exec(s0, steps), t, frame)
    ensures Executable(s0, longer) && CompletedBy(longer, io)
    ensures var s, s' := Exec(s0, steps), Exec(s0, longer);
      && Resting(s')
      && s'.threads == s.threads[t := Cleared(Some(|s.accepted| - 1), true)]
      && s'.accepted == s.accepted && s'.finished == s.finished + [frame] && s'.called == s.called
  {
    hide Executable, Exec, CompletedBy;
    longer := Finish(s0, steps, io, t, frame);
    longer := Then(s0, longer, io, Pop(t));
    longer := Then(s0, longer, io, Clear(t));
  }

  // Refinement of the abstract channel

  function Abstract(s: State): Channel<seq<Byte>> {
    Channel(s.accepted, s.finished)
  }

  lemma StepRefinesChannel(s: State, step: Step)
    requires Enabled(s, step) && Inv(s)
    ensures Valid(Abstract(s)) && Next(Abstract(s), Abstract(Apply(s, step)))
  {
    hide Sum, Pending, Ordinals, HandlerInv, LockInv, WakeInv;
    var n := |s.finished| + |s.outstanding|;
    assert s.finished == (s.finished + s.outstanding)[..|s.finished|] == s.accepted[..|s.finished|];
    if step.Complete? {
      assert |s.outstanding| == 1;
      assert s.accepted[..n][|s.finished|] == s.outstanding[0];
    }
  }

  /** No wakeup is lost: as long as the socket reports no error, a queue whose head is not an empty
      frame has a write outstanding or a thread that will look at the queue again. */
  lemma NoLostWakeup(n: nat, steps: seq<Step>)
    requires Executable(Init(n), steps)
    ensures var s := Exec(Init(n), steps);
      AllSucceed(steps) && s.queue != [] && s.queue[0].frame != [] ==> Awake(s)
  {
    InitInv(n);
    ExecKeepsInv(Init(n), steps);
    FailedIsReported(Init(n), steps);
  }

  // Quiescence

  predicate Quiescent(s: State) {
    s.outstanding == [] && forall t :: 0 <= t < |s.threads| ==> s.threads[t] == Idle
  }

  /** The frames before the first empty one. */
  function BeforeEmpty(frames: seq<seq<Byte>>): seq<seq<Byte>> {
    if frames == [] || frames[0] == [] then [] else [frames[0]] + BeforeEmpty(frames[1..])
  }

  /** When every thread has returned and no write is outstanding, then unless the socket
      reported an error, exactly the frames before the first empty one have been written, and each of their
      handlers has been called exactly once.  An empty frame is neither written nor popped, so the queue
      is empty if and only if no empty frame was ever sent. */
  lemma NothingLeftBehind(n: nat, steps: seq<Step>)
    requires Executable(Init(n), steps) && AllSucceed(steps) && Quiescent(Exec(Init(n), steps))
    ensures var s := Exec(Init(n), steps);
      && s.finished == BeforeEmpty(SentIn(steps))
      && multiset(s.called) == multiset(Ordinals(|s.finished|))
      && (s.queue == [] <==> [] !in SentIn(steps))
  {
    InitInv(n);
    ExecKeepsInv(Init(n), steps);
    AcceptedAreSent(Init(n), steps);
    FailedIsReported(Init(n), steps);
    assert [] + SentIn(steps) == SentIn(steps);
    QuietMeansDone(Exec(Init(n), steps));
  }

  lemma QuietMeansDone(s: State)
    requires Inv(s) && Quiescent(s) && !s.failed
    ensures s.finished == BeforeEmpty(s.accepted)
    ensures multiset(s.called) == multiset(Ordinals(|s.finished|))
    ensures s.queue == [] <==> [] !in s.accepted
  {
    hide Sum, Pending, Ordinals, HandlerInv, TokenInv, LockInv;
    SumOfZeros(Unpopped, s.threads);
    SumOfZeros(Moved, s.threads);
    QuietHandlers(s);
    assert !Awake(s);
    QuietFrames(s);
  }

  /** Every handler moved out has been called. */
  lemma QuietHandlers(s: State)
    requires HandlerInv(s) && Quiescent(s)
    ensures multiset(s.called) == multiset(s.taken)
  {
    hide Sum;
    forall h ensures multiset(s.called)[h] == multiset(s.taken)[h] {
      assert HandlerCount(s, h);
      SumOfZeros(Holding(h), s.threads);
    }
  }

  lemma QuietFrames(s: State)
    requires OrderInv(s) && s.outstanding == [] && |s.finished| == s.pops && !HeadWaits(s)
    ensures s.finished == BeforeEmpty(s.accepted)
    ensures s.queue == [] <==> [] !in s.accepted
  {
    hide Sum, Ordinals;
    var k := |s.finished|;
    assert s.finished + s.outstanding == s.finished;
    if k < |s.accepted| {
      HeadFrame(s);
      assert s.accepted[k] in s.accepted;
    }
    hide Pending;
    BeforeEmptyIs(s.accepted, k);
    assert k == |s.accepted| ==> s.accepted[..k] == s.accepted;
  }

  lemma {:induction false} BeforeEmptyIs(frames: seq<seq<Byte>>, k: nat)
    requires k <= |frames| && (forall i :: 0 <= i < k ==> frames[i] != [])
    requires k < |frames| ==> frames[k] == []
    ensures BeforeEmpty(frames) == frames[..k]
  {
    if k > 0 {
      BeforeEmptyIs(frames[1..], k - 1);
      assert frames[..k] == [frames[0]] + frames[1..][..k - 1];
    }
  }

  // Termination: without new frames every schedule is finite, and it ends in quiescence

  function StageRank(stage: Stage): nat {
    match stage
    case Leaving => 1
    case Peeked(frame) => if frame.Some? && frame.value != [] then 19 else 2
    case Won => 20
    case Locked => 21
    case Want => 22
  }

  function Rank(pc: Pc): nat {
    match pc
    case Idle => 0
    case Writing(stage, after) => StageRank(stage) + (if after.Handler? then 23 else 0)
    case Calling(_) => 23
    case Cleared(_, _) => 24
    case Popped(_, _) => 25
    case Took(_, _) => 15
    case Completed(_) => 16
  }

  function Work(s: State): nat {
    Sum(Rank, s.threads) + 11 * |s.queue| + 17 * |s.outstanding|
  }

  lemma RankFalls(s: State, step: Step)
    requires Enabled(s, step) && !step.Send?
    ensures var s' := Apply(s, step);
      && Rank(s'.threads[step.t]) + 11 * |s'.queue| + 17 * |s'.outstanding|
         < Rank(s.threads[step.t]) + 11 * |s.queue| + 17 * |s.outstanding|
      && s'.accepted == s.accepted
  {
  }

  lemma StepDoesWork(s: State, step: Step)
    requires Enabled(s, step) && !step.Send?
    ensures Work(Apply(s, step)) < Work(s)
    ensures Apply(s, step).accepted == s.accepted && |Apply(s, step).threads| == |s.threads|
  {
    OneThreadMoves(s, step);
    RankFalls(s, step);
    hide Sum, Apply, Rank;
    SumUpdate(Rank, s.threads, step.t, Apply(s, step).threads[step.t]);
  }

  lemma {:induction false} RunsAreFinite(s: State, steps: seq<Step>)
    requires Executable(s, steps) && forall i :: 0 <= i < |steps| ==> !steps[i].Send?
    ensures |steps| + Work(Exec(s, steps)) <= Work(s)
    decreases |steps|
  {
    hide Work, Apply;
    if steps != [] {
      StepDoesWork(s, steps[0]);
      RunsAreFinite(Apply(s, steps[0]), steps[1..]);
    }
  }

  /** There is no deadlock, and handleWrite never meets an empty deque: unless all is quiet, some
      thread can move. */
  lemma SomeStepEnabled(s: State) returns (step: Step)
    requires Inv(s) && |s.threads| > 0 && !Quiescent(s)
    ensures Enabled(s, step) && !step.Send? && (step.Complete? ==> step.ok)
  {
    hide Pending, Ordinals, HandlerInv, WakeInv;
    if s.lockHeld {
      var t := SumPositive(InLock, s.threads);
      var stage := s.threads[t].stage;
      step := if stage.Locked? then Exchange(t) else if stage.Won? then Peek(t)
              else if stage.Peeked? then Start(t) else Release(t);
    } else if forall t :: 0 <= t < |s.threads| ==> s.threads[t] == Idle {
      step := Complete(0, 0, true);
    } else {
      var t :| 0 <= t < |s.threads| && s.threads[t] != Idle;
      var pc := s.threads[t];
      SumAtLeast(InLock, s.threads, t);
      SumAtLeast(Unpopped, s.threads, t);
      step := if pc.Writing? then Acquire(t) else if pc.Completed? then Take(t) else if pc.Took? then Pop(t)
              else if pc.Popped? then Clear(t) else if pc.Cleared? then Call(t) else Return(t);
    }
  }

  /** Every reachable state can be run until all is quiet; by RunsAreFinite every schedule that stops
      only when nothing is enabled gets there. */
  lemma Drains(s: State) returns (steps: seq<Step>)
    requires Inv(s) && |s.threads| > 0
    ensures Executable(s, steps) && forall i :: 0 <= i < |steps| ==> !steps[i].Send?
    ensures AllSucceed(steps)
    ensures Quiescent(Exec(s, steps)) && Exec(s, steps).accepted == s.accepted
    ensures !s.failed ==> Exec(s, steps).finished == BeforeEmpty(s.accepted)
    decreases Work(s)
  {
    hide Work, Inv, BeforeEmpty, Apply, Enabled;
    if Quiescent(s) {
      steps := [];
      if !s.failed {
        QuietMeansDone(s);
      }
    } else {
      var step := SomeStepEnabled(s);
      StepDoesWork(s, step);
      StepKeepsInv(s, step);
      OneEvent(s, step);
      var rest := Drains(Apply(s, step));
      steps := [step] + rest;
      AllSucceedStep(steps);
      assert steps[1..] == rest;
    }
  }
}
