/** Framing and progress in lockstep: what each side holds is a part of what the other side sends, the
    queues are empty between exchanges, and an exchange takes one exact number of steps in every
    interleaving. */
module LockstepProgress {
  import opened Bytes
  import opened Codec
  import opened DaProtocol
  import opened Device
  import opened Lockstep
  import opened LockstepSafety
  import opened LockstepTheorems

  // ----- framing -----

  /** A reader still waiting for a frame holds a proper part of that frame and nothing after it. */
  lemma WaitingIsPrefix(got: seq<u8>, rest: seq<u8>, body: seq<u8>, tail: seq<u8>)
    requires |body| <= BUF_SIZE && !Arrived(got)
    requires got + rest == Frame(body) + tail
    ensures got < Frame(body)
  {
    hide Arrived, Frame;
    var frame := Frame(body);
    assert got == (frame + tail)[..|got|];
    if |got| >= |frame| {
      assert got == frame + got[|frame|..];
      StillWaiting(got, body, got[|frame|..]);
    } else {
      assert got == frame[..|got|];
    }
  }

  /** Where the device is in the request: inside its frame, or inside its raw bytes. */
  predicate DeviceReadsRequest(s: System, awaiting: Option<Request>) {
    match s.dev.phase
    case DevHandshake(got) => got < MessageFrame(Message.Ack)
    case DevFrame(got) => got != [] ==> awaiting.Some? && got < MessageFrame(awaiting.value.message)
    case DevRaw(got, addr, size) =>
      && awaiting.Some? && awaiting.value.message == Write(addr, size)
      && |awaiting.value.payload| == size && got < awaiting.value.payload
    case _ => true
  }

  /** Where the host is in the answer `a`, if the device gives one. */
  predicate HostReadsAnswer(s: System, a: Option<Answer>) {
    match s.host.phase
    case HostStart(got) => got < MessageFrame(Message.Ack)
    case HostRaw(got, _) => got != [] ==> a.Some? && got < a.value.raw
    case HostResponse(got, raw, _) =>
      got != [] || raw != [] ==> a.Some? && raw == a.value.raw && got < ResponseFrame(a.value.response)
    case _ => true
  }

  function ExpectedAnswer(pl: bool, d: DeviceState, awaiting: Option<Request>): Option<Answer> {
    if awaiting.None? || Perform(pl, d, awaiting.value).None? then None
    else Some(Perform(pl, d, awaiting.value).value.1)
  }

  lemma HandshakePrefix(got: seq<u8>, rest: seq<u8>, tail: seq<u8>)
    requires !Arrived(got) && got + rest == MessageFrame(Message.Ack) + tail
    ensures got < MessageFrame(Message.Ack)
  {
    hide Arrived, Frame, MessageBytes;
    MessageRoundTrip(Message.Ack, []);
    WaitingIsPrefix(got, rest, MessageBytes(Message.Ack), tail);
  }

  lemma AskingFrames(s: System, awaiting: Option<Request>, d: DeviceState, a: Option<Answer>)
    requires Asking(s, awaiting, d) && (awaiting.Some? ==> Honest(awaiting.value))
    ensures DeviceReadsRequest(s, awaiting) && HostReadsAnswer(s, a)
  {
    hide Arrived, Frame, MessageBytes;
    var out := Unsent(s.host.phase);
    match s.dev.phase
    case DevHandshake(got) =>
      ConcatAssoc(got, s.h2d, out);
      HandshakePrefix(got, s.h2d + out, PendingBytes(awaiting));
    case DevFrame(got) =>
      if got != [] {
        ConcatAssoc(got, s.h2d, out);
        MessageRoundTrip(awaiting.value.message, []);
        WaitingIsPrefix(got, s.h2d + out, MessageBytes(awaiting.value.message), awaiting.value.payload);
      }
    case DevRaw(got, _, _) =>
      ConcatAssoc(got, s.h2d, out);
      assert got == awaiting.value.payload[..|got|];
    case _ =>
  }

  lemma AnsweringFrames(s: System, r: Request, d: DeviceState, a: Answer)
    requires Answering(s, r, d, a)
    ensures DeviceReadsRequest(s, Some(r)) && HostReadsAnswer(s, Some(a))
  {
    hide Arrived, Frame, ResponseBytes, MessageFrame;
    var out := Unanswered(s.dev.phase);
    match s.host.phase
    case HostRaw(got, _) =>
      ConcatAssoc(got, s.d2h, out);
      assert got == AnswerBytes(a)[..|got|] == a.raw[..|got|];
    case HostResponse(got, _, _) =>
      ConcatAssoc(got, s.d2h, out);
      ResponseRoundTrip(a.response, []);
      assert Frame(ResponseBytes(a.response)) + [] == Frame(ResponseBytes(a.response));
      WaitingIsPrefix(got, s.d2h + out, ResponseBytes(a.response), []);
    case _ =>
  }

  /** Framing never slips and raw bytes are never parsed as a frame: what the device has read is a
      proper part of the frame, or of the raw bytes, of the very request the host is making; what the
      host has read is a proper part of that request's own answer. */
  lemma FramesNeverSlip(pl: bool, next: Strategy, d0: DeviceState, s: System)
    requires HonestStrategy(next) && InLockstep(pl, next, d0, s)
    ensures DeviceReadsRequest(s, next(s.host.history))
    ensures
      var d := DeviceAfter(pl, next, d0, s.host.history).value;
      HostReadsAnswer(s, ExpectedAnswer(pl, d, next(s.host.history)))
  {
    hide DeviceAfter, Perform, HonestStrategy, Honest, Arrived, DeviceReadsRequest, HostReadsAnswer, Breaks, Lost, Gone;
    var d, awaiting := DeviceAfter(pl, next, d0, s.host.history).value, next(s.host.history);
    HonestNext(next, s.host.history);
    if Greeting(s, d) {
      GreetingFrames(s, d, awaiting, ExpectedAnswer(pl, d, awaiting));
    } else if Asking(s, awaiting, d) {
      AskingFrames(s, awaiting, d, ExpectedAnswer(pl, d, awaiting));
    } else if Perform(pl, d, awaiting.value).Some? {
      var (d', a) := Perform(pl, d, awaiting.value).value;
      AnsweringFrames(s, awaiting.value, d', a);
    } else {
      UnansweredFrames(pl, s, awaiting.value, d);
    }
  }

  lemma GreetingFrames(s: System, d: DeviceState, awaiting: Option<Request>, a: Option<Answer>)
    requires Greeting(s, d)
    ensures DeviceReadsRequest(s, awaiting) && HostReadsAnswer(s, a)
  {
    hide MessageFrame, Arrived;
    var got := s.host.phase.got;
    var out := if s.dev.phase.DevStart? then s.dev.phase.out else [];
    ConcatAssoc(got, s.d2h, out);
    assert s.d2h + [] == s.d2h;
    assert MessageFrame(Message.Ack) + [] == MessageFrame(Message.Ack);
    HandshakePrefix(got, s.d2h + out, []);
    AckFrameIsLong();
  }

  lemma AckFrameIsLong()
    ensures |MessageFrame(Message.Ack)| >= 4
  {
    MessageRoundTrip(Message.Ack, []);
  }

  lemma UnansweredFrames(pl: bool, s: System, r: Request, d: DeviceState)
    requires Served(pl, s, r, d) && Perform(pl, d, r).None?
    ensures DeviceReadsRequest(s, Some(r)) && HostReadsAnswer(s, None)
  {
  }

  /** Between exchanges, with the request still wholly unsent, both queues are empty and the device
      waits at the start of a frame. */
  lemma QueuesEmptyBetween(pl: bool, next: Strategy, d0: DeviceState, s: System)
    requires HonestStrategy(next) && InLockstep(pl, next, d0, s)
    requires s.host.history != [] && next(s.host.history).Some?
    requires s.host.phase == HostSend(RequestBytes(next(s.host.history).value), next(s.host.history))
    ensures s.h2d == [] && s.d2h == [] && s.dev.phase == DevFrame([])
    ensures s.dev.state == DeviceAfter(pl, next, d0, s.host.history).value
  {
    hide DeviceAfter, Perform, HonestStrategy, Honest, Arrived, MessageFrame, Breaks;
    HonestNext(next, s.host.history);
    RequestIsLong(next(s.host.history).value);
  }

  // ----- progress -----

  /** Twice the bytes of the answer still to come: each is pushed once and pulled once. */
  function AnswerMoves(a: Option<Answer>): nat {
    match a
    case None => 0
    case Some(a) => 2 * |AnswerBytes(a)|
  }

  /** Moves left until the current exchange is over. */
  function Moves(s: System, awaiting: Option<Request>, a: Option<Answer>): nat {
    var request := if s.host.phase.HostStart? then 2 * |MessageFrame(Message.Ack)| + 2 * |PendingBytes(awaiting)|
                   else 2 * |Unsent(s.host.phase)|;
    var answer := match s.dev.phase
                  case DevStart(out) => 2 * |out| + AnswerMoves(a)
                  case DevSend(out) => 2 * |out|
                  case DevLeft => 0
                  case DevFrame(_) => if s.d2h == [] then AnswerMoves(a) else 0
                  case _ => AnswerMoves(a);
    request + |s.h2d| + |s.d2h| + answer
  }

  function MovesLeft(pl: bool, next: Strategy, d0: DeviceState, s: System): nat
    requires DeviceAfter(pl, next, d0, s.host.history).Some?
  {
    var d, awaiting := DeviceAfter(pl, next, d0, s.host.history).value, next(s.host.history);
    Moves(s, awaiting, ExpectedAnswer(pl, d, awaiting))
  }

  /** What the invariant says about the moves left, from the lengths alone. */
  lemma AskingMoves(s: System, awaiting: Option<Request>, d: DeviceState, a: Option<Answer>)
    requires Asking(s, awaiting, d)
    ensures Moves(s, awaiting, a) == 2 * |Unsent(s.host.phase)| + |s.h2d| + AnswerMoves(a)
  {
    hide Arrived, MessageFrame, AnswerMoves, RequestBytes;
  }

  lemma AnsweringMoves(s: System, r: Request, d: DeviceState, a: Answer)
    requires Answering(s, r, d, a)
    ensures Moves(s, Some(r), Some(a)) == 2 * |Unanswered(s.dev.phase)| + |s.d2h|
  {
    hide Arrived, MessageFrame, RequestBytes;
    AnsweringNotStuck(s, r, d, a);
  }

  /** One step in the exchange `a` (or one that is not answered): one move less, or the exchange is over. */
  predicate OneMove(s: System, s': System, awaiting: Option<Request>, a: Option<Answer>) {
    if s'.host.history == s.host.history then Moves(s, awaiting, a) == Moves(s', awaiting, a) + 1
    else a.Some? && s'.host.history == s.host.history + [a.value] && Moves(s, awaiting, a) == 1
  }

  lemma GreetingMove(pl: bool, next: Strategy, s: System, act: Action, d: DeviceState, a: Option<Answer>)
    requires Buffers(s) && Enabled(s, act) && Greeting(s, d)
    ensures OneMove(s, Step(pl, next, s, act), next([]), a)
  {
    hide Arrived, MessageFrame, RequestBytes, AnswerMoves, HostReceive;
    match act
    case DevPush => DevPushGreets(pl, next, s, d);
    case HostPull => HostPullGreets(pl, next, s, d);
    case _ =>
  }

  lemma AskingMove(pl: bool, next: Strategy, s: System, act: Action, d: DeviceState)
    requires Buffers(s) && Enabled(s, act) && Asking(s, next(s.host.history), d)
    requires next(s.host.history).Some? ==> Honest(next(s.host.history).value)
    ensures OneMove(s, Step(pl, next, s, act), next(s.host.history), ExpectedAnswer(pl, d, next(s.host.history)))
  {
    hide Arrived, MessageFrame, ResponseFrame, RequestBytes, AnswerMoves, DevReceive, Moves, Perform;
    var awaiting := next(s.host.history);
    var a := ExpectedAnswer(pl, d, awaiting);
    var s' := Step(pl, next, s, act);
    AskingMoves(s, awaiting, d, a);
    if act == HostPush {
      HostPushKeeps(pl, next, s, awaiting, d);
      AskingMoves(s', awaiting, d, a);
    } else {
      DevPullKeeps(pl, next, s, awaiting, d);
      if Asking(s', awaiting, d) {
        AskingMoves(s', awaiting, d, a);
      } else if Perform(pl, d, awaiting.value).Some? {
        var (d', answer) := Perform(pl, d, awaiting.value).value;
        ServedMoves(s', awaiting.value, d', answer);
      } else {
        UnansweredMoves(pl, s', awaiting.value, d);
        NoAnswerMoves();
      }
    }
  }

  lemma NoAnswerMoves()
    ensures AnswerMoves(None) == 0
  {
  }

  lemma UnansweredMoves(pl: bool, s: System, r: Request, d: DeviceState)
    requires Served(pl, s, r, d) && Perform(pl, d, r).None?
    ensures Moves(s, Some(r), None) == 2 * |Unsent(s.host.phase)| + |s.h2d|
  {
    hide MessageFrame, RequestBytes, Perform, Breaks, Lost;
    if Breaks(pl, d, r.message) {
      LostMoves(s, r);
    }
  }

  lemma DevPullKeeps(pl: bool, next: Strategy, s: System, awaiting: Option<Request>, d: DeviceState)
    requires Buffers(s) && Enabled(s, DevPull) && Asking(s, awaiting, d)
    requires awaiting.Some? ==> Honest(awaiting.value)
    ensures
      var s' := Step(pl, next, s, DevPull);
      s'.host.history == s.host.history && InExchange(pl, s', awaiting, d)
  {
    hide Step, Arrived, InExchange, Honest;
    match s.dev.phase
    case DevHandshake(_) =>
      DevPullHandshake(pl, next, s, awaiting, d);
      AskingIsInExchange(pl, Step(pl, next, s, DevPull), awaiting, d);
    case DevFrame(_) => DevPullFrame(pl, next, s, awaiting, d);
    case DevRaw(_, _, _) => DevPullRaw(pl, next, s, awaiting, d);
    case _ =>
  }

  lemma AskingIsInExchange(pl: bool, s: System, awaiting: Option<Request>, d: DeviceState)
    requires Asking(s, awaiting, d)
    ensures InExchange(pl, s, awaiting, d)
  {
  }

  /** When the device has just read the request, exactly the answer is still to be moved. */
  lemma ServedMoves(s: System, r: Request, d: DeviceState, a: Answer)
    requires Answering(s, r, d, a) && s.d2h == [] && Fresh(s.host.phase, Some(r))
    ensures Moves(s, Some(r), Some(a)) == AnswerMoves(Some(a))
  {
    hide Arrived, MessageFrame, ResponseFrame, RequestBytes;
    AnsweringMoves(s, r, d, a);
  }

  /** A lost device answers nothing; the host still pushes. */
  lemma LostMoves(s: System, r: Request)
    requires Lost(s, r)
    ensures Moves(s, Some(r), None) == 2 * |Unsent(s.host.phase)| + |s.h2d|
  {
    hide MessageFrame, RequestBytes;
  }

  lemma LostMove(pl: bool, next: Strategy, s: System, act: Action, r: Request)
    requires Buffers(s) && Enabled(s, act) && Lost(s, r)
    ensures OneMove(s, Step(pl, next, s, act), Some(r), None)
  {
    hide MessageFrame, RequestBytes, Moves;
    LostPushKeeps(pl, next, s, r);
    LostMoves(s, r);
    LostMoves(Step(pl, next, s, act), r);
  }

  lemma AnsweringMove(pl: bool, next: Strategy, s: System, act: Action, r: Request, d: DeviceState, a: Answer)
    requires Buffers(s) && Enabled(s, act) && Answering(s, r, d, a)
    ensures OneMove(s, Step(pl, next, s, act), Some(r), Some(a))
  {
    hide Arrived, MessageFrame, ResponseFrame, AnswerBytes, RequestBytes, HostReceive, Moves, AnswerMoves;
    var s' := Step(pl, next, s, act);
    AnsweringMoves(s, r, d, a);
    if act == DevPush {
      DevPushAnswers(pl, next, s, r, d, a);
      AnsweringMoves(s', r, d, a);
    } else if s.host.phase.HostRaw? {
      HostPullRaw(pl, next, s, r, d, a);
      AnsweringMoves(s', r, d, a);
    } else {
      HostPullResponse(pl, next, s, r, d, a);
      if !Arrived(s.host.phase.got + [s.d2h[0]]) {
        AnsweringMoves(s', r, d, a);
      }
    }
  }

  lemma EveryStepIsOneMove(pl: bool, next: Strategy, d0: DeviceState, s: System, act: Action)
    requires HonestStrategy(next) && InLockstep(pl, next, d0, s) && Enabled(s, act)
    ensures
      var d, awaiting := DeviceAfter(pl, next, d0, s.host.history).value, next(s.host.history);
      OneMove(s, Step(pl, next, s, act), awaiting, ExpectedAnswer(pl, d, awaiting))
  {
    hide DeviceAfter, Perform, HonestStrategy, Honest, Greeting, Asking, Answering, OneMove, Step, Breaks, Lost, Gone;
    var d, awaiting := DeviceAfter(pl, next, d0, s.host.history).value, next(s.host.history);
    HonestNext(next, s.host.history);
    if Greeting(s, d) {
      GreetingHistory(s, d);
      GreetingMove(pl, next, s, act, d, ExpectedAnswer(pl, d, awaiting));
    } else if Asking(s, awaiting, d) {
      AskingMove(pl, next, s, act, d);
    } else if Perform(pl, d, awaiting.value).Some? {
      var (d', a) := Perform(pl, d, awaiting.value).value;
      AnsweringMove(pl, next, s, act, awaiting.value, d', a);
    } else if Breaks(pl, d, awaiting.value.message) {
      LostMove(pl, next, s, act, awaiting.value);
    } else {
      GoneIsStuck(s, awaiting.value, act);
    }
  }

  lemma GreetingHistory(s: System, d: DeviceState)
    requires Greeting(s, d)
    ensures s.host.history == []
  {
  }

  lemma GoneIsStuck(s: System, r: Request, act: Action)
    requires Gone(s, r)
    ensures !Enabled(s, act)
  {
  }

  lemma MovesArePositive(pl: bool, next: Strategy, d0: DeviceState, s: System)
    requires HonestStrategy(next) && InLockstep(pl, next, d0, s)
    requires ExpectedAnswer(pl, DeviceAfter(pl, next, d0, s.host.history).value, next(s.host.history)).Some?
    ensures MovesLeft(pl, next, d0, s) > 0
  {
    hide InLockstep, Step, HonestStrategy, Enabled, DeviceAfter, Moves, Perform;
    LockstepReached(pl, next, d0, s);
    StuckIsFinished(pl, next, d0, s);
    var act := if Enabled(s, HostPush) then HostPush else if Enabled(s, HostPull) then HostPull
               else if Enabled(s, DevPush) then DevPush else DevPull;
    EveryStepIsOneMove(pl, next, d0, s, act);
  }

  /** Progress: in every interleaving the current exchange takes exactly the same number of steps, two
      for each byte of the request and of its answer that is still to be moved. Before that the answer is
      not there; at that step the host has it, and it is the device's. */
  lemma {:induction false} ExchangeTakesItsMoves(pl: bool, next: Strategy, d0: DeviceState, s: System,
                                                 acts: seq<Action>)
    requires HonestStrategy(next) && InLockstep(pl, next, d0, s)
    requires Run(pl, next, s, acts).Some?
    requires |acts| <= MovesLeft(pl, next, d0, s)
    ensures
      var s' := Run(pl, next, s, acts).value;
      var a := ExpectedAnswer(pl, DeviceAfter(pl, next, d0, s.host.history).value, next(s.host.history));
      if |acts| == MovesLeft(pl, next, d0, s) && a.Some?
      then s'.host.history == s.host.history + [a.value]
      else s'.host.history == s.host.history
    decreases acts
  {
    hide InLockstep, Step, HonestStrategy, Enabled, DeviceAfter, ExpectedAnswer, Moves;
    LockstepReached(pl, next, d0, s);
    if acts == [] {
      if ExpectedAnswer(pl, DeviceAfter(pl, next, d0, s.host.history).value, next(s.host.history)).Some? {
        MovesArePositive(pl, next, d0, s);
      }
    } else {
      var s1 := Step(pl, next, s, acts[0]);
      StepKeepsLockstep(pl, next, d0, s, acts[0]);
      EveryStepIsOneMove(pl, next, d0, s, acts[0]);
      if s1.host.history == s.host.history {
        ExchangeTakesItsMoves(pl, next, d0, s1, acts[1..]);
      }
    }
  }
}
