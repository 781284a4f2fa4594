/**
 Remote calls, their retry loop, and the alive signal sent from an alarm handler.

 The main thread and the handler share `rpcActive`, `aliveSignalRemaining` and the retry counter. The
 handler interrupts the main thread between any two of its steps, runs to completion, and is not itself
 interrupted.
 */
module AliveSignal {

  // ---------- the retry loop ----------

  /**
   How a retry loop ends: with a reply to its last attempt, and to none before; or giving up behind maxRetry + 2
   attempts, of which only the last may have been answered.
   */
  predicate LoopEnds(replies: seq<bool>, maxRetry: nat, ok: bool) {
    && (forall k :: 0 <= k < |replies| - 1 ==> !replies[k])
    && if ok then 1 <= |replies| <= maxRetry + 1 && replies[|replies| - 1] else |replies| == maxRetry + 2
  }

  function Answers(reply: nat -> bool, n: nat): seq<bool> { seq(n, k requires k >= 0 => reply(k)) }

  /**
   The do-while loop around every remote call; `reply(k)` says whether the k-th call is answered. The loop
   gives up on the call after the counter has passed the limit, even if that call was answered.
   */
  method CallWithRetry(reply: nat -> bool, maxRetry: nat) returns (ok: bool, calls: nat)
    ensures ok <==> exists k: nat :: k <= maxRetry && reply(k)
    ensures ok ==> 1 <= calls <= maxRetry + 1 && reply(calls - 1)
    ensures forall k: nat :: k < calls - 1 && k <= maxRetry ==> !reply(k)
    ensures !ok ==> calls == maxRetry + 2
    ensures LoopEnds(Answers(reply, calls), maxRetry, ok)
  {
    var rpcRetryCounter := 0;
    var res := false;
    calls := 0;
    while true
      invariant calls == rpcRetryCounter <= maxRetry + 1
      invariant forall k: nat :: k < calls ==> !reply(k)
      decreases maxRetry + 2 - calls
    {
      res := reply(calls);
      calls := calls + 1;
      if rpcRetryCounter > maxRetry { return false, calls; }
      rpcRetryCounter := rpcRetryCounter + 1;
      if res { return true, calls; }
    }
  }

  // ---------- main thread and handler ----------

  /** Where the main thread is: between statements of a remote call, or of `sendAliveSignal`. */
  datatype Pc =
    | Idle
    | Activating                 // about to set rpcActive
    | Resetting                  // about to clear the retry counter
    | Calling(attempt: nat)      // the call is in flight; `attempt` calls of this loop came back before it
    | Checking(attempt: nat, answered: bool)
    | Deactivating               // about to clear rpcActive
    | TestPending                // about to read aliveSignalRemaining
    | TestActive                 // about to read rpcActive
    | Clearing                   // about to clear aliveSignalRemaining

  datatype State = State(
    pc: Pc, alive: bool,         // `alive`: the call in progress is the alive call
    handler: bool,               // the handler has its alive call in flight
    rpcActive: bool, pending: bool, counter: nat,
    stuck: bool)                 // the last call of the main thread gave up

  predicate InCall(pc: Pc) { pc.Resetting? || pc.Calling? || pc.Checking? || pc.Deactivating? }
  predicate InRetryLoop(pc: Pc) { pc.Calling? || pc.Checking? }

  ghost predicate Init(s: State) {
    s == State(Idle, false, false, false, false, s.counter, false)
  }

  /** One statement of the main thread; it does not move while the handler runs. */
  ghost predicate MainStep(max: nat, s: State, s': State) {
    !s.handler &&
    match s.pc
    case Idle => s' == s.(pc := Activating, alive := false)
    case Activating => s' == s.(pc := Resetting, rpcActive := true)
    case Resetting => s' == s.(pc := Calling(0), counter := 0)
    case Calling(n) => s' == s.(pc := Checking(n, true)) || s' == s.(pc := Checking(n, false))
    case Checking(n, answered) =>
      if s.counter > max then s' == s.(pc := Idle, stuck := true)
      else s' == s.(counter := s.counter + 1, pc := if answered then Deactivating else Calling(n + 1))
    case Deactivating => s' == s.(pc := TestPending, rpcActive := false, stuck := false)
    case TestPending => s' == s.(pc := if s.pending then TestActive else Idle)
    case TestActive => s' == s.(pc := if s.rpcActive then Idle else Clearing)
    case Clearing => s' == s.(pc := Activating, alive := true, pending := false)
  }

  /** The alarm: `triggerAliveSignal`, up to its call if it makes one. */
  ghost predicate Alarm(s: State, s': State) {
    !s.handler &&
    if s.rpcActive then s' == s.(pending := true)
    else s' == s.(handler := true, pending := false, rpcActive := true, counter := 0)
  }

  /** The handler's call comes back: unanswered and tried again, or answered and done. */
  ghost predicate HandlerStep(max: nat, s: State, s': State) {
    s.handler && s.counter <= max &&
    (s' == s.(counter := s.counter + 1)
     || s' == s.(counter := s.counter + 1, handler := false, rpcActive := false))
  }

  ghost predicate Next(max: nat, s: State, s': State) {
    MainStep(max, s, s') || Alarm(s, s') || HandlerStep(max, s, s')
  }

  ghost predicate StepAt(max: nat, t: seq<State>, i: nat)
    requires i < |t| - 1
  {
    Next(max, t[i], t[i + 1])
  }

  ghost predicate IsRun(max: nat, t: seq<State>) {
    t != [] && Init(t[0]) && forall i :: 0 <= i < |t| - 1 ==> StepAt(max, t, i)
  }

  lemma RunPrefix(max: nat, t: seq<State>)
    requires IsRun(max, t) && |t| > 1
    ensures IsRun(max, t[..|t| - 1]) && Next(max, t[|t| - 2], t[|t| - 1])
  {
    hide Next;
    var init := t[..|t| - 1];
    forall i | 0 <= i < |init| - 1 ensures StepAt(max, init, i) { assert StepAt(max, t, i); }
    assert StepAt(max, t, |t| - 2);
  }

  /** What holds between any two statements. */
  ghost predicate Inv(max: nat, s: State) {
    && (s.rpcActive <==> InCall(s.pc) || s.handler || s.stuck)
    && (s.handler ==> !InCall(s.pc) && !s.stuck && !s.pending)
    && (s.stuck ==> s.pc.Idle? || s.pc.Activating? || InCall(s.pc))
    && (s.pending ==> s.rpcActive || s.pc.TestPending? || s.pc.TestActive? || s.pc.Clearing?)
    && (InRetryLoop(s.pc) ==> s.counter == s.pc.attempt <= max + 1)
  }

  lemma InvStep(max: nat, s: State, s': State)
    requires Inv(max, s) && Next(max, s, s')
    ensures Inv(max, s')
  {
  }

  lemma {:induction false} InvRun(max: nat, t: seq<State>)
    requires IsRun(max, t)
    ensures Inv(max, t[|t| - 1])
  {
    if |t| > 1 {
      var init := t[..|t| - 1];
      RunPrefix(max, t);
      InvRun(max, init);
      InvStep(max, t[|t| - 2], t[|t| - 1]);
    }
  }

  /** In every interleaving, the main thread's call and the handler's are never in flight together. */
  lemma OneCallInFlight(max: nat, t: seq<State>)
    requires IsRun(max, t)
    ensures var s := t[|t| - 1]; !(s.pc.Calling? && s.handler)
  {
    InvRun(max, t);
  }

  /**
   While the main thread is in its retry loop the counter is its own: it counts that loop's calls, the
   handler leaves it alone, and the loop makes at most max + 2 calls.
   */
  lemma CounterUndisturbed(max: nat, t: seq<State>, s': State)
    requires IsRun(max, t)
    ensures var s := t[|t| - 1];
            && (InRetryLoop(s.pc) ==> s.counter == s.pc.attempt && s.pc.attempt + 1 <= max + 2)
            && (InRetryLoop(s.pc) && (Alarm(s, s') || HandlerStep(max, s, s')) ==> s'.counter == s.counter)
  {
    InvRun(max, t);
  }

  /** What the attempts of the latest retry loop of the main thread were answered, as far as they have come back. */
  ghost function Replies(t: seq<State>): seq<bool> {
    if |t| <= 1 then []
    else
      var s, s' := t[|t| - 2].pc, t[|t| - 1].pc;
      if s.Resetting? && s' == Calling(0) then []
      else if s.Calling? && s'.Checking? then Replies(t[..|t| - 1]) + [s'.answered]
      else Replies(t[..|t| - 1])
  }

  predicate NoneAnswered(replies: seq<bool>) { forall k :: 0 <= k < |replies| ==> !replies[k] }

  /** Where the main thread is says what its latest loop has heard. */
  ghost predicate Heard(max: nat, s: State, replies: seq<bool>) {
    match s.pc
    case Calling(n) => |replies| == n && NoneAnswered(replies)
    case Checking(n, answered) => |replies| == n + 1 && replies[n] == answered && NoneAnswered(replies[..n])
    case Deactivating => LoopEnds(replies, max, true)
    case _ => s.stuck ==> LoopEnds(replies, max, false)
  }

  lemma HeardStep(max: nat, t: seq<State>)
    requires |t| > 1 && Inv(max, t[|t| - 2]) && Next(max, t[|t| - 2], t[|t| - 1])
    requires Heard(max, t[|t| - 2], Replies(t[..|t| - 1]))
    ensures Heard(max, t[|t| - 1], Replies(t))
  {
    var s, s', before := t[|t| - 2], t[|t| - 1], Replies(t[..|t| - 1]);
    if s.pc.Calling? && s'.pc.Checking? { assert Replies(t)[..s.pc.attempt] == before; }
  }

  /**
   In every interleaving the retry loops of the main thread are those of `CallWithRetry`: a call is taken for done
   exactly behind its first answered attempt, within the limit, and is given up behind max + 2 attempts.
   */
  lemma {:induction false} LoopsEnd(max: nat, t: seq<State>)
    requires IsRun(max, t)
    ensures Heard(max, t[|t| - 1], Replies(t))
  {
    if |t| > 1 {
      RunPrefix(max, t);
      LoopsEnd(max, t[..|t| - 1]);
      InvRun(max, t[..|t| - 1]);
      hide Heard, Next, Inv;
      HeardStep(max, t);
    }
  }

  /** An idle main thread has an alive signal pending only if its last call gave up. */
  lemma IdleMeansSent(max: nat, t: seq<State>)
    requires IsRun(max, t)
    ensures var s := t[|t| - 1]; s.pc.Idle? && s.pending ==> s.stuck
  {
    InvRun(max, t);
  }

  /** Outside all calls `rpcActive` is left set exactly by a call that gave up. */
  lemma ActiveWhenStuck(max: nat, t: seq<State>)
    requires IsRun(max, t)
    ensures var s := t[|t| - 1]; s.pc.Idle? && !s.handler ==> (s.rpcActive <==> s.stuck)
  {
    InvRun(max, t);
  }

  /** After a call has given up, alarms only mark the signal pending until the main thread calls again. */
  lemma SilentWhileStuck(max: nat, t: seq<State>, s': State)
    requires IsRun(max, t) && t[|t| - 1].stuck && Alarm(t[|t| - 1], s')
    ensures !s'.handler && s'.pending && s'.pc == t[|t| - 1].pc
  {
    InvRun(max, t);
  }

  /** An alive call is made: by the handler, or by the main thread in `sendAliveSignal`. */
  predicate AliveCallStarts(s: State, s': State) {
    (!s.handler && s'.handler) || (s.pc.Resetting? && s.alive && s'.pc == Calling(0))
  }

  /** Some step from state i on starts an alive call. */
  ghost predicate SentSince(t: seq<State>, i: nat) {
    exists m :: i <= m < |t| - 1 && SentAt(t, m)
  }

  predicate SentAt(t: seq<State>, m: nat)
    requires m < |t| - 1
  {
    AliveCallStarts(t[m], t[m + 1])
  }

  /** A signal is waiting, or on its way to the main thread's alive call. */
  predicate Outgoing(s: State) { s.pending || (s.alive && (s.pc.Activating? || s.pc.Resetting?)) }

  lemma OutgoingStep(max: nat, s: State, s': State)
    requires Inv(max, s) && Next(max, s, s') && Outgoing(s)
    ensures Outgoing(s') || AliveCallStarts(s, s')
  {
  }

  /** A signal that is pending at some time stays outgoing until an alive call starts. */
  lemma {:induction false} PendingUntilSent(max: nat, t: seq<State>, i: nat)
    requires IsRun(max, t) && i < |t| && t[i].pending
    ensures SentSince(t, i) || Outgoing(t[|t| - 1])
  {
    hide Next, Init, Inv, AliveCallStarts;
    if i < |t| - 1 {
      var init, d := t[..|t| - 1], |t| - 2;
      RunPrefix(max, t);
      PendingUntilSent(max, init, i);
      InvRun(max, init);
      if SentSince(init, i) {
        var m :| i <= m < |init| - 1 && SentAt(init, m);
        assert SentAt(t, m);
      } else {
        OutgoingStep(max, t[d], t[d + 1]);
        if AliveCallStarts(t[d], t[d + 1]) { assert SentAt(t, d); }
      }
    }
  }

  /**
   No alarm is lost: if a signal is pending at some time of a run, and the main thread is idle later without
   having given up, then an alive call was started in between.
   */
  lemma NeverLost(max: nat, t: seq<State>, i: nat)
    requires IsRun(max, t) && i < |t| && t[i].pending
    requires t[|t| - 1].pc.Idle? && !t[|t| - 1].stuck
    ensures SentSince(t, i)
  {
    PendingUntilSent(max, t, i);
    InvRun(max, t);
  }

  // ---------- no signal is invented ----------

  /** How many alarms a run has, and how many alive calls it starts. */
  ghost function Alarms(t: seq<State>): nat {
    if |t| <= 1 then 0 else Alarms(t[..|t| - 1]) + if Alarm(t[|t| - 2], t[|t| - 1]) then 1 else 0
  }

  ghost function AliveCalls(t: seq<State>): nat {
    if |t| <= 1 then 0 else AliveCalls(t[..|t| - 1]) + if AliveCallStarts(t[|t| - 2], t[|t| - 1]) then 1 else 0
  }

  /** Alive calls still to be started: one the main thread has decided on, and one for a signal it has not looked at. */
  function Owed(s: State): nat {
    (if s.pc.TestActive? || s.pc.Clearing? || (s.alive && (s.pc.Activating? || s.pc.Resetting?)) then 1 else 0)
    + if s.pending && !s.pc.TestActive? && !s.pc.Clearing? then 1 else 0
  }

  lemma OwedStep(max: nat, s: State, s': State)
    requires Inv(max, s) && Next(max, s, s')
    ensures Owed(s') + (if AliveCallStarts(s, s') then 1 else 0) <= Owed(s) + if Alarm(s, s') then 1 else 0
  {
  }

  /** In every run there are at most as many alive calls, started or still to be, as alarms. */
  lemma {:induction false} NoneInvented(max: nat, t: seq<State>)
    requires IsRun(max, t)
    ensures AliveCalls(t) + Owed(t[|t| - 1]) <= Alarms(t)
  {
    if |t| > 1 {
      RunPrefix(max, t);
      NoneInvented(max, t[..|t| - 1]);
      InvRun(max, t[..|t| - 1]);
      hide Next, Inv, Owed, AliveCallStarts, Alarm;
      OwedStep(max, t[|t| - 2], t[|t| - 1]);
    }
  }

  // ---------- the handler's own loop ----------

  /** The attempts of the handler's call that have come back, since the alarm that started it. */
  ghost function HandlerAttempts(t: seq<State>): nat {
    if |t| <= 1 || !t[|t| - 1].handler || !t[|t| - 2].handler then 0 else 1 + HandlerAttempts(t[..|t| - 1])
  }

  /** The handler's call may be answered at each of its first max + 1 attempts, and at no later one. */
  lemma {:induction false} HandlerLoop(max: nat, t: seq<State>)
    requires IsRun(max, t) && t[|t| - 1].handler
    ensures t[|t| - 1].counter == HandlerAttempts(t) <= max + 1
    ensures (exists s' :: Next(max, t[|t| - 1], s') && !s'.handler) <==> HandlerAttempts(t) <= max
  {
    var s := t[|t| - 1];
    if |t| > 1 {
      RunPrefix(max, t);
      if t[|t| - 2].handler { HandlerLoop(max, t[..|t| - 1]); }
    }
    if s.counter <= max { assert HandlerStep(max, s, s.(counter := s.counter + 1, handler := false, rpcActive := false)); }
  }

  /** A run in which the main thread gives up with a signal pending. */
  lemma GaveUpExample() returns (t: seq<State>)
    ensures IsRun(0, t) && t[|t| - 1].pc.Idle? && t[|t| - 1].pending
  {
    var s0 := State(Idle, false, false, false, false, 0, false);
    var s1 := s0.(pc := Activating);
    var s2 := s1.(pc := Resetting, rpcActive := true);
    var s3 := s2.(pending := true);
    var s4 := s3.(pc := Calling(0), counter := 0);
    var s5 := s4.(pc := Checking(0, false));
    var s6 := s5.(counter := 1, pc := Calling(1));
    var s7 := s6.(pc := Checking(1, true));
    var s8 := s7.(pc := Idle, stuck := true);
    t := [s0, s1, s2, s3, s4, s5, s6, s7, s8];
    assert forall i :: 0 <= i < 8 ==> StepAt(0, t, i) by {
      assert MainStep(0, s0, s1) && MainStep(0, s1, s2) && Alarm(s2, s3) && MainStep(0, s3, s4);
      assert MainStep(0, s4, s5) && MainStep(0, s5, s6) && MainStep(0, s6, s7) && MainStep(0, s7, s8);
    }
  }
}
