/** What lockstep gives: safety over every run, no deadlock, and exact progress. */
module LockstepTheorems {
  import opened Bytes
  import opened Codec
  import opened DaProtocol
  import opened Device
  import opened Lockstep
  import opened LockstepSafety

  lemma DeviceAfterOne(pl: bool, next: Strategy, d0: DeviceState, history: seq<Answer>, d: DeviceState)
    requires DeviceAfter(pl, next, d0, history) == Some(d) && next(history).Some?
    requires Perform(pl, d, next(history).value).Some?
    ensures
      var (d', a) := Perform(pl, d, next(history).value).value;
      DeviceAfter(pl, next, d0, history + [a]) == Some(d')
  {
    hide Perform;
    var (_, a) := Perform(pl, d, next(history).value).value;
    assert (history + [a])[..|history|] == history;
  }

  lemma HonestNext(next: Strategy, history: seq<Answer>)
    requires HonestStrategy(next)
    ensures next(history).Some? ==> Honest(next(history).value)
  {
  }

  lemma StepKeepsExchange(pl: bool, next: Strategy, d0: DeviceState, s: System, act: Action, d: DeviceState)
    requires HonestStrategy(next) && Buffers(s) && Enabled(s, act)
    requires DeviceAfter(pl, next, d0, s.host.history) == Some(d)
    requires InExchange(pl, s, next(s.host.history), d)
    ensures InLockstep(pl, next, d0, Step(pl, next, s, act))
  {
    hide DeviceAfter, Perform, HonestStrategy, Honest, Step, Greeting, Breaks;
    var awaiting := next(s.host.history);
    HonestNext(next, s.host.history);
    match act
    case HostPush =>
      if Asking(s, awaiting, d) {
        HostPushKeeps(pl, next, s, awaiting, d);
      } else {
        LostPushKeeps(pl, next, s, awaiting.value);
      }
    case DevPush =>
      var (d', a) := Perform(pl, d, awaiting.value).value;
      DevPushAnswers(pl, next, s, awaiting.value, d', a);
    case HostPull =>
      var (d', a) := Perform(pl, d, awaiting.value).value;
      if s.host.phase.HostRaw? {
        HostPullRaw(pl, next, s, awaiting.value, d', a);
      } else {
        HostPullResponse(pl, next, s, awaiting.value, d', a);
        DeviceAfterOne(pl, next, d0, s.host.history, d);
      }
    case DevPull =>
      match s.dev.phase
      case DevHandshake(_) => DevPullHandshake(pl, next, s, awaiting, d);
      case DevFrame(_) => DevPullFrame(pl, next, s, awaiting, d);
      case DevRaw(_, _, _) => DevPullRaw(pl, next, s, awaiting, d);
      case _ =>
  }

  /** The heart of the protocol: whatever either side does next, lockstep is kept. */
  lemma StepKeepsLockstep(pl: bool, next: Strategy, d0: DeviceState, s: System, act: Action)
    requires HonestStrategy(next) && InLockstep(pl, next, d0, s) && Enabled(s, act)
    ensures InLockstep(pl, next, d0, Step(pl, next, s, act))
  {
    hide DeviceAfter, Perform, HonestStrategy, Step;
    var d := DeviceAfter(pl, next, d0, s.host.history).value;
    if Greeting(s, d) {
      match act
      case DevPush => DevPushGreets(pl, next, s, d);
      case HostPull => HostPullGreets(pl, next, s, d);
      case _ =>
    } else {
      StepKeepsExchange(pl, next, d0, s, act, d);
    }
  }

  // ----- whole runs -----

  /** The state after the actions `acts`, taken in that order; `None` if one of them is not enabled. */
  function Run(pl: bool, next: Strategy, s: System, acts: seq<Action>): Option<System>
    decreases acts
  {
    if acts == [] then Some(s)
    else if Buffers(s) && Enabled(s, acts[0]) then Run(pl, next, Step(pl, next, s, acts[0]), acts[1..])
    else None
  }

  lemma {:induction false} RunKeepsLockstep(pl: bool, next: Strategy, d0: DeviceState, s: System, acts: seq<Action>)
    requires HonestStrategy(next) && InLockstep(pl, next, d0, s)
    requires Run(pl, next, s, acts).Some?
    ensures InLockstep(pl, next, d0, Run(pl, next, s, acts).value)
    decreases acts
  {
    hide InLockstep, Step, HonestStrategy, Enabled;
    if acts != [] {
      StepKeepsLockstep(pl, next, d0, s, acts[0]);
      RunKeepsLockstep(pl, next, d0, Step(pl, next, s, acts[0]), acts[1..]);
    }
  }

  /** The request the host is making breaks the device. */
  predicate RequestBreaks(pl: bool, next: Strategy, history: seq<Answer>, d: DeviceState) {
    next(history).Some? && Breaks(pl, d, next(history).value.message)
  }

  /** Nothing fails but what the request itself breaks: the host never meets a broken or unexpected frame,
      the device halts only on such a request, and its state is the one before or the one after the
      current exchange. */
  lemma NothingFails(pl: bool, next: Strategy, d0: DeviceState, s: System)
    requires InLockstep(pl, next, d0, s)
    ensures !s.host.phase.HostFailed?
    ensures
      var d, awaiting := DeviceAfter(pl, next, d0, s.host.history).value, next(s.host.history);
      && (s.dev.phase.DevHalted? ==> RequestBreaks(pl, next, s.host.history, d))
      && (|| s.dev.state == d
          || (awaiting.Some? && Perform(pl, d, awaiting.value).Some?
              && s.dev.state == Perform(pl, d, awaiting.value).value.0))
  {
    hide DeviceAfter, Perform, MessageFrame, ResponseFrame, AnswerBytes, RequestBytes, Arrived, Breaks;
  }

  /** Safety over every run: whatever the interleaving and whatever a host program asks that sends the raw
      bytes it announces, from the first byte of the handshake on, the exchanges completed are exactly those
      of an atomic device, the host never fails, and the device never halts except on a request that breaks
      it. */
  lemma EveryRunIsSafe(pl: bool, next: Strategy, d0: DeviceState, hostBuf: seq<u8>, devBuf: seq<u8>, acts: seq<Action>)
    requires |hostBuf| == BUF_SIZE && |devBuf| == BUF_SIZE && HonestStrategy(next)
    requires Run(pl, next, Initial(hostBuf, devBuf, d0), acts).Some?
    ensures
      var s := Run(pl, next, Initial(hostBuf, devBuf, d0), acts).value;
      && InLockstep(pl, next, d0, s)
      && DeviceAfter(pl, next, d0, s.host.history).Some?
      && !s.host.phase.HostFailed?
      && (s.dev.phase.DevHalted? ==>
            RequestBreaks(pl, next, s.host.history, DeviceAfter(pl, next, d0, s.host.history).value))
  {
    hide InLockstep, HonestStrategy, Initial, Run, DeviceAfter, RequestBreaks;
    InitialIsLockstep(pl, next, d0, hostBuf, devBuf);
    RunKeepsLockstep(pl, next, d0, Initial(hostBuf, devBuf, d0), acts);
    var s := Run(pl, next, Initial(hostBuf, devBuf, d0), acts).value;
    NothingFails(pl, next, d0, s);
    LockstepReached(pl, next, d0, s);
  }

  lemma LockstepReached(pl: bool, next: Strategy, d0: DeviceState, s: System)
    requires InLockstep(pl, next, d0, s)
    ensures DeviceAfter(pl, next, d0, s.host.history).Some? && Buffers(s)
  {
  }

  // ----- no deadlock -----

  predicate Stuck(s: System) {
    !Enabled(s, HostPush) && !Enabled(s, HostPull) && !Enabled(s, DevPush) && !Enabled(s, DevPull)
  }

  /** The program is over, or the device jumped as asked, or the request broke it. */
  predicate Finished(pl: bool, next: Strategy, s: System, d: DeviceState) {
    && s.d2h == [] && s.dev.state == d
    && match next(s.host.history)
       case None => s.h2d == [] && s.host.phase.HostStopped? && s.dev.phase == DevFrame([])
       case Some(r) =>
         && Perform(pl, d, r).None?
         && if Breaks(pl, d, r.message) then s.dev.phase.DevHalted? && !s.host.phase.HostSend?
            else s.h2d == [] && s.dev.phase.DevLeft?
  }

  /** No reachable state deadlocks: a run stops only where the host has nothing more to ask, the device
      has left the handler, or the request broke it. And a request that breaks it does so in every run. */
  lemma StuckIsFinished(pl: bool, next: Strategy, d0: DeviceState, s: System)
    requires HonestStrategy(next) && InLockstep(pl, next, d0, s)
    ensures Stuck(s) <==> Finished(pl, next, s, DeviceAfter(pl, next, d0, s.host.history).value)
  {
    hide DeviceAfter, Perform, MessageBytes, ResponseBytes, Frame, RequestBytes, Arrived, HonestStrategy, Honest,
         Breaks;
    HonestNext(next, s.host.history);
    var d, awaiting := DeviceAfter(pl, next, d0, s.host.history).value, next(s.host.history);
    if Greeting(s, d) {
      GreetingNotStuck(s, d);
    } else if Asking(s, awaiting, d) {
      AskingStuck(s, awaiting, d);
    } else if Perform(pl, d, awaiting.value).Some? {
      var (d', a) := Perform(pl, d, awaiting.value).value;
      AnsweringNotStuck(s, awaiting.value, d', a);
    }
  }

  /** Exactly when: where a run has stopped, the device is lost if and only if the request being made
      breaks it. */
  lemma HaltsExactly(pl: bool, next: Strategy, d0: DeviceState, s: System)
    requires HonestStrategy(next) && InLockstep(pl, next, d0, s) && Stuck(s)
    ensures s.dev.phase.DevHalted?
       <==> RequestBreaks(pl, next, s.host.history, DeviceAfter(pl, next, d0, s.host.history).value)
  {
    hide DeviceAfter, Perform, InLockstep, HonestStrategy, Stuck, Breaks;
    LockstepReached(pl, next, d0, s);
    StuckIsFinished(pl, next, d0, s);
    if next(s.host.history).Some? {
      BrokenIsNotPerformed(pl, DeviceAfter(pl, next, d0, s.host.history).value, next(s.host.history).value);
    }
  }

  lemma BrokenIsNotPerformed(pl: bool, d: DeviceState, r: Request)
    ensures Breaks(pl, d, r.message) ==> Perform(pl, d, r).None?
  {
    hide React, Breaks;
    BreaksIs(pl, d, r.message);
  }

  /** A host program none of whose requests breaks the device it has led to. */
  ghost predicate Careful(pl: bool, next: Strategy, d0: DeviceState) {
    forall history {:trigger DeviceAfter(pl, next, d0, history)} ::
      DeviceAfter(pl, next, d0, history).Some? ==>
        !RequestBreaks(pl, next, history, DeviceAfter(pl, next, d0, history).value)
  }

  /** Under a careful program neither side ever fails. */
  lemma CarefulNeverHalts(pl: bool, next: Strategy, d0: DeviceState, hostBuf: seq<u8>, devBuf: seq<u8>,
                          acts: seq<Action>)
    requires |hostBuf| == BUF_SIZE && |devBuf| == BUF_SIZE && HonestStrategy(next) && Careful(pl, next, d0)
    requires Run(pl, next, Initial(hostBuf, devBuf, d0), acts).Some?
    ensures
      var s := Run(pl, next, Initial(hostBuf, devBuf, d0), acts).value;
      !s.host.phase.HostFailed? && !s.dev.phase.DevHalted?
  {
    hide InLockstep, HonestStrategy, Initial, Run, DeviceAfter, RequestBreaks;
    EveryRunIsSafe(pl, next, d0, hostBuf, devBuf, acts);
  }

  lemma AckStillWaiting(got: seq<u8>, tail: seq<u8>)
    requires !Arrived(got)
    ensures got != MessageFrame(Message.Ack) + tail
  {
    hide MessageBytes, Frame, Arrived;
    MessageRoundTrip(Message.Ack, []);
    StillWaiting(got, MessageBytes(Message.Ack), tail);
  }

  lemma GreetingNotStuck(s: System, d: DeviceState)
    requires Greeting(s, d)
    ensures !Stuck(s)
  {
    hide MessageFrame, Arrived;
    if s.d2h == [] && s.dev.phase.DevHandshake? {
      assert s.host.phase.got + s.d2h == s.host.phase.got;
      assert MessageFrame(Message.Ack) + [] == MessageFrame(Message.Ack);
      AckStillWaiting(s.host.phase.got, []);
    }
  }

  lemma AskingStuck(s: System, awaiting: Option<Request>, d: DeviceState)
    requires Asking(s, awaiting, d) && (awaiting.Some? ==> Honest(awaiting.value))
    ensures Stuck(s) <==> awaiting == None && s.host.phase.HostStopped? && s.dev.phase == DevFrame([]) && s.h2d == []
  {
    hide MessageBytes, Frame, Arrived;
    if s.h2d == [] && !s.host.phase.HostSend? {
      match s.dev.phase
      case DevHandshake(got) =>
        assert got + s.h2d + [] == got;
        AckStillWaiting(got, PendingBytes(awaiting));
      case DevFrame(got) =>
        assert got + s.h2d + [] == got;
        if awaiting.Some? {
          MessageRoundTrip(awaiting.value.message, []);
          StillWaiting(got, MessageBytes(awaiting.value.message), awaiting.value.payload);
        }
      case DevRaw(_, _, _) =>
    }
  }

  lemma AnsweringNotStuck(s: System, r: Request, d: DeviceState, a: Answer)
    requires Answering(s, r, d, a)
    ensures !Stuck(s)
  {
    hide ResponseBytes, Frame, Arrived;
    ResponseRoundTrip(a.response, []);
    if s.d2h == [] && s.dev.phase.DevFrame? {
      match s.host.phase
      case HostRaw(_, _) =>
      case HostResponse(got, _, _) =>
        assert got + s.d2h + [] == got;
        assert Frame(ResponseBytes(a.response)) + [] == Frame(ResponseBytes(a.response));
        StillWaiting(got, ResponseBytes(a.response), []);
    }
  }
}
