/** Closing a stream: nobody waits for ever. */
module StreamClose {
  import opened GnmiTypes
  import opened Pbr
  import opened StreamProtocol
  import opened StreamInvariants

  // ----- locks -----

  predicate CallerCanStep(s: State) {
    Enabled(s, CallerStep) || Enabled(s, CallerWrite(true)) || Enabled(s, CallerCancel(0))
  }

  /** A step of the receive thread that is not a wait for the server's next response. */
  predicate ReceiverCanStep(s: State) {
    Enabled(s, ReceiverStep) || Enabled(s, FinishReturns(Status(0, "")))
  }

  lemma CallerWaits(s: State)
    requires HandleInv(s) && MutexInv(s) && s.status == Running && !s.caller.Idle?
    ensures s.mutex == Caller ==> CallerCanStep(s)
    ensures !CallerCanStep(s) ==> s.mutex == Receiver || (s.caller.CloseJoin? && !s.receiver.Exited?)
  {
  }

  lemma ReceiverWaits(s: State)
    requires HandleInv(s) && MutexInv(s) && s.status == Running && !s.receiver.NoThread?
    ensures s.mutex == Receiver ==> ReceiverCanStep(s)
    ensures !ReceiverCanStep(s) ==>
              s.receiver.Reading? || s.receiver.Exited? || (s.receiver.WaitLock? && s.mutex != Free)
  {
  }

  /** A thread that holds the mutex never waits: neither for the other thread nor for a response. */
  lemma LockHolderNeverWaits(s: State, base: seq<PbrRecord>)
    requires Reachable(s, base) && s.status == Running
    ensures s.mutex == Caller ==> CallerCanStep(s) && !s.caller.CloseJoin?
    ensures s.mutex == Receiver ==> ReceiverCanStep(s)
  {
    ReachableHandles(s, base);
    if s.mutex == Caller {
      CallerWaits(s);
    } else if s.mutex == Receiver {
      ReceiverWaits(s);
    }
  }

  /**
   * Inside a call, the caller can step, or the receive thread can: then it holds the mutex or is
   * being joined. A joined thread whose server is silent still gets its last Read back.
   */
  lemma NoDeadlock(s: State, base: seq<PbrRecord>)
    requires Reachable(s, base) && s.status == Running && !s.caller.Idle?
    ensures CallerCanStep(s) || ReceiverCanStep(s) || (s.caller.CloseJoin? && Enabled(s, ReadFalse))
    ensures !CallerCanStep(s) ==> s.mutex == Receiver || s.caller.CloseJoin?
  {
    ReachableHandles(s, base);
    CallerWaits(s);
    if !s.receiver.NoThread? {
      ReceiverWaits(s);
    }
  }

  // ----- termination of close -----

  /** After TryCancel, until the thread is joined. */
  predicate Closing(s: State) {
    s.status == Running && (s.caller.CloseUnlock? || s.caller.CloseJoin?)
  }

  function Buffered(s: State): nat {
    if HasStream(s) && CurrentStream(s).context < |s.contexts| then s.contexts[CurrentStream(s).context].buffered else 0
  }

  function CallerWork(pc: CallerPc): nat {
    match pc
    case CloseUnlock => 2
    case CloseJoin => 1
    case _ => 0
  }

  /** With b responses still buffered. */
  function ReceiverWork(pc: ReceiverPc, b: nat): nat {
    match pc
    case Processing(_) => 3 * b + 8
    case Notifying => 3 * b + 7
    case Reading => 3 * b + 6
    case WaitLock => 5
    case InWritesDone => 4
    case InFinish => 3
    case Reporting(_) => 2
    case Releasing => 1
    case _ => 0
  }

  function Measure(s: State): nat {
    CallerWork(s.caller) + ReceiverWork(s.receiver, Buffered(s))
  }

  /** The close has joined the thread, or the process ended by an exception. */
  predicate Over(s: State) {
    s.caller.CloseReset? || s.status == Escaped
  }

  /** Nothing but the buffer of the current stream counts. */
  lemma BufferedAfter(s: State, step: Step)
    requires HandleInv(s) && CancelInv(s) && Closing(s) && Enabled(s, step) && ByReceiver(step)
    ensures Buffered(Apply(s, step)) == Buffered(s) - (if step.ReadTrue? then 1 else 0)
  {
  }

  /** TryCancel marks the context of the stream, and leaves what is buffered to be read. */
  lemma CancelMarksStream(s: State, b: nat, base: seq<PbrRecord>)
    requires Reachable(s, base) && Enabled(s, CallerCancel(b))
    ensures HasStream(s) && CurrentStream(s).context < |s.contexts|
    ensures var t, c := Apply(s, CallerCancel(b)), CurrentStream(s).context;
            && Closing(t) && Buffered(t) == b && t.streams == s.streams && t.receiver == s.receiver
            && |t.contexts| == |s.contexts| && t.contexts[c].cancelled && !s.contexts[c].cancelled
            && forall i :: 0 <= i < |s.contexts| && i != c ==> t.contexts[i] == s.contexts[i]
  {
    ReachableHandles(s, base);
  }

  /** After that a response can be read exactly while something is buffered, and uses up one. */
  lemma ReadsWhileClosing(s: State, r: SubscribeResponse, base: seq<PbrRecord>)
    requires Reachable(s, base) && Closing(s)
    ensures Enabled(s, ReadTrue(r)) <==> s.receiver.Reading? && Buffered(s) > 0
    ensures Enabled(s, ReadTrue(r)) ==> Buffered(Apply(s, ReadTrue(r))) == Buffered(s) - 1
  {
    ReachableHandles(s, base);
    if Enabled(s, ReadTrue(r)) {
      BufferedAfter(s, ReadTrue(r));
    }
  }

  lemma ClosingStepOfReceiver(s: State, step: Step)
    requires HandleInv(s) && CancelInv(s) && Closing(s) && Enabled(s, step) && ByReceiver(step)
    requires HandleInv(Apply(s, step))
    ensures var t := Apply(s, step); (Closing(t) && Measure(t) < Measure(s)) || Over(t)
  {
    FrameOfReceiver(s, step);
    BufferedAfter(s, step);
  }

  lemma ClosingStep(s: State, step: Step)
    requires HandleInv(s) && CancelInv(s) && Closing(s) && Enabled(s, step)
    requires HandleInv(Apply(s, step))
    ensures var t := Apply(s, step); (Closing(t) && Measure(t) < Measure(s)) || Over(t)
  {
    if ByReceiver(step) {
      ClosingStepOfReceiver(s, step);
    }
  }

  /** Every step on the way to the join makes the measure smaller, and there always is such a step. */
  lemma ClosingProgress(s: State, step: Step, base: seq<PbrRecord>)
    requires Reachable(s, base) && Closing(s)
    ensures CallerCanStep(s) || ReceiverCanStep(s) || Enabled(s, ReadFalse)
    ensures Enabled(s, step) ==> var t := Apply(s, step); (Closing(t) && Measure(t) < Measure(s)) || Over(t)
  {
    NoDeadlock(s, base);
    ReachableHandles(s, base);
    if Enabled(s, step) {
      HandleKept(s, step);
      ClosingStep(s, step);
    }
  }

  lemma OneStepFirst(s: State, steps: seq<Step>, k: nat)
    requires 0 < |steps| && k < |steps|
    ensures Run(s, steps[..k + 1]) == Run(Apply(s, steps[0]), steps[1..][..k])
  {
    assert steps[..k + 1][1..] == steps[1..][..k];
  }

  ghost predicate OverWithin(s: State, steps: seq<Step>, n: nat) {
    exists k :: 0 <= k <= n && k <= |steps| && Over(Run(s, steps[..k]))
  }

  lemma ClosingStepKeeps(s: State, step: Step, base: seq<PbrRecord>)
    requires Inv(s, base) && Closing(s) && Enabled(s, step)
    ensures var t := Apply(s, step); Inv(t, base) && ((Closing(t) && Measure(t) < Measure(s)) || Over(t))
  {
    InvKept(s, step, base);
    ClosingStep(s, step);
  }

  lemma OverLater(s: State, steps: seq<Step>, k: nat, n: nat)
    requires 0 < |steps| && k < |steps| && k < n && Over(Run(Apply(s, steps[0]), steps[1..][..k]))
    ensures OverWithin(s, steps, n)
  {
    OneStepFirst(s, steps, k);
  }

  lemma {:induction false} ClosingRun(s: State, steps: seq<Step>, base: seq<PbrRecord>)
    requires Inv(s, base) && Closing(s) && Allowed(s, steps) && Measure(s) <= |steps|
    ensures OverWithin(s, steps, Measure(s))
    decreases |steps|
  {
    var t, rest := Apply(s, steps[0]), steps[1..];
    ClosingStepKeeps(s, steps[0], base);
    if Over(t) {
      assert Run(t, rest[..0]) == t;
      OverLater(s, steps, 0, Measure(s));
    } else {
      ClosingRun(t, rest, base);
      var k :| 0 <= k <= Measure(t) && k <= |rest| && Over(Run(t, rest[..k]));
      OverLater(s, steps, k, Measure(s));
    }
  }

  /** However the threads interleave, the join is done after at most Measure(s) steps. */
  lemma CloseEnds(s: State, steps: seq<Step>, base: seq<PbrRecord>)
    requires Reachable(s, base) && Closing(s) && Allowed(s, steps) && Measure(s) <= |steps|
    ensures OverWithin(s, steps, Measure(s))
  {
    ReachableInv(s, base);
    ClosingRun(s, steps, base);
  }
}
