/** Every interleaving of the two machines stays in lockstep: frames never slip, raw bytes are never
    parsed as a frame, nothing fails, nothing deadlocks, and the answers are those of one atomic
    exchange after another. */
module LockstepSafety {
  import opened Bytes
  import opened Codec
  import opened DaProtocol
  import opened Device
  import opened Lockstep
  import Params

  // ----- byte bookkeeping -----

  /** Moving one byte from the front of `c` to the back of `b`, or of `b` to the back of `a`, keeps the stream. */
  lemma MoveByte(a: seq<u8>, b: seq<u8>, c: seq<u8>)
    ensures c != [] ==> a + (b + [c[0]]) + c[1..] == a + b + c
    ensures b != [] ==> (a + [b[0]]) + b[1..] + c == a + b + c
  {
  }

  /** A reader that stops as soon as a frame has arrived stops exactly at its end. */
  lemma FrameBoundary(got: seq<u8>, b: u8, rest: seq<u8>, body: seq<u8>, tail: seq<u8>)
    requires |body| <= BUF_SIZE
    requires got + [b] + rest == Frame(body) + tail
    requires !Arrived(got) && Arrived(got + [b])
    ensures got + [b] == Frame(body) && rest == tail
  {
    hide Be32, FromBe32;
    var whole := Frame(body) + tail;
    var got' := got + [b];
    Be32RoundTrip(|body|);
    assert whole[..4] == Be32(|body|);
    assert got' == whole[..|got'|] && got == whole[..|got|] && rest == whole[|got'|..];
    assert got'[..4] == whole[..4];
    assert |got| >= 4 ==> got[..4] == whole[..4];
    assert |got'| == 4 + |body|;
    assert whole[..4 + |body|] == Frame(body) && whole[4 + |body|..] == tail;
  }

  /** A reader still waiting has not seen the whole frame. */
  lemma StillWaiting(got: seq<u8>, body: seq<u8>, tail: seq<u8>)
    requires |body| <= BUF_SIZE && !Arrived(got)
    ensures got != Frame(body) + tail
  {
    hide TakeFrame, Refill;
    FrameIsTaken(body, tail, seq<u8>(BUF_SIZE, _ => 0));
  }

  lemma FrameIsLong(body: seq<u8>)
    requires |body| <= BUF_SIZE
    ensures |Frame(body)| >= 4
  {
  }

  lemma NothingArrived()
    ensures !Arrived([])
  {
  }

  // ----- the invariant -----

  /** The request the host is waiting to be answered, and the bytes of the current reading phase. */
  predicate Awaiting(p: HostPhase, r: Request) {
    match p
    case HostRaw(_, q) => q == r
    case HostResponse(_, _, q) => q == r
    case _ => false
  }

  /** The host has not received anything of its answer yet. */
  predicate Fresh(p: HostPhase, awaiting: Option<Request>) {
    p == Await(awaiting)
  }

  function PendingBytes(awaiting: Option<Request>): seq<u8> {
    match awaiting
    case None => []
    case Some(r) => RequestBytes(r)
  }

  /** Before the host has the device's first ack. */
  predicate Greeting(s: System, d: DeviceState) {
    && s.host.history == [] && s.dev.state == d && s.h2d == []
    && s.host.phase.HostStart? && !Arrived(s.host.phase.got)
    && match s.dev.phase
       case DevStart(out) => out != [] && s.host.phase.got + s.d2h + out == MessageFrame(Message.Ack)
       case DevHandshake(got) => got == [] && s.host.phase.got + s.d2h == MessageFrame(Message.Ack)
       case _ => false
  }

  /** Bytes the host still has to push, with what it will wait for then. */
  function Unsent(p: HostPhase): seq<u8> {
    if p.HostSend? then p.out else []
  }

  /** The host asks: what the device has read of the request, what is on the way and what is unsent make
      the request. */
  predicate Asking(s: System, awaiting: Option<Request>, d: DeviceState) {
    && s.dev.state == d && s.d2h == []
    && (match s.host.phase
        case HostSend(out, w) => out != [] && w == awaiting
        case p => Fresh(p, awaiting))
    && match s.dev.phase
       case DevHandshake(got) =>
         && s.host.history == [] && !Arrived(got)
         && got + s.h2d + Unsent(s.host.phase) == MessageFrame(Message.Ack) + PendingBytes(awaiting)
       case DevFrame(got) => !Arrived(got) && got + s.h2d + Unsent(s.host.phase) == PendingBytes(awaiting)
       case DevRaw(got, addr, size) =>
         && awaiting.Some? && awaiting.value.message == Write(addr, size) && |got| < size && d.home.Misses(addr, size)
         && got + s.h2d + Unsent(s.host.phase) == awaiting.value.payload
       case _ => false
  }

  function Unanswered(p: DevPhase): seq<u8> {
    if p.DevSend? then p.out else []
  }

  /** The device answers: what the host has read, what is on the way and what is unsent make the answer. */
  predicate Answering(s: System, r: Request, d': DeviceState, a: Answer) {
    && s.dev.state == d' && s.h2d == []
    && Awaiting(s.host.phase, r)
    && (match s.dev.phase
        case DevSend(out) => out != []
        case DevFrame(got) => got == []
        case _ => false)
    && match s.host.phase
       case HostRaw(got, _) =>
         && |got| < |a.raw| == RawLength(r.message)
         && got + s.d2h + Unanswered(s.dev.phase) == AnswerBytes(a)
       case HostResponse(got, raw, _) =>
         && raw == a.raw && !Arrived(got)
         && got + s.d2h + Unanswered(s.dev.phase) == ResponseFrame(a.response)
       case _ => false
  }

  /** Control has left the handler; the host waits for an answer that does not come. */
  predicate Gone(s: System, r: Request) {
    && s.dev.phase.DevLeft? && s.h2d == [] && s.d2h == []
    && Fresh(s.host.phase, Some(r))
  }

  /** The request has broken the device; the host may still push raw bytes that nobody reads. */
  predicate Lost(s: System, r: Request) {
    && s.dev.phase.DevHalted? && s.d2h == []
    && s.h2d + Unsent(s.host.phase) == r.payload
    && match s.host.phase
       case HostSend(out, w) => out != [] && w == Some(r)
       case p => Fresh(p, Some(r))
  }

  /** The device has read the request `r` in state `d`: it answers, or control has left it, or it is lost. */
  predicate Served(pl: bool, s: System, r: Request, d: DeviceState) {
    match Perform(pl, d, r)
    case None => s.dev.state == d && (if Breaks(pl, d, r.message) then Lost(s, r) else Gone(s, r))
    case Some((d', a)) => Answering(s, r, d', a)
  }

  predicate InExchange(pl: bool, s: System, awaiting: Option<Request>, d: DeviceState) {
    Asking(s, awaiting, d) || (awaiting.Some? && Served(pl, s, awaiting.value, d))
  }

  /** The completed exchanges are those of one atomic operation after another, and the current one is
      in one well-formed intermediate state. */
  predicate InLockstep(pl: bool, next: Strategy, d0: DeviceState, s: System) {
    && Buffers(s)
    && match DeviceAfter(pl, next, d0, s.host.history)
       case None => false
       case Some(d) => Greeting(s, d) || InExchange(pl, s, next(s.host.history), d)
  }

  lemma InitialIsLockstep(pl: bool, next: Strategy, d0: DeviceState, hostBuf: seq<u8>, devBuf: seq<u8>)
    requires |hostBuf| == BUF_SIZE && |devBuf| == BUF_SIZE
    ensures InLockstep(pl, next, d0, Initial(hostBuf, devBuf, d0))
  {
    hide Frame, MessageBytes;
    MessageRoundTrip(Message.Ack, []);
    NothingArrived();
    FrameIsLong(MessageBytes(Message.Ack));
    assert [] + [] + MessageFrame(Message.Ack) == MessageFrame(Message.Ack);
  }

  // ----- pushes -----

  lemma HostPushKeeps(pl: bool, next: Strategy, s: System, awaiting: Option<Request>, d: DeviceState)
    requires Buffers(s) && Enabled(s, HostPush) && Asking(s, awaiting, d)
    ensures
      var s' := Step(pl, next, s, HostPush);
      Buffers(s') && s'.host.history == s.host.history && Asking(s', awaiting, d)
  {
    hide MessageFrame, PendingBytes, Arrived;
    var out := s.host.phase.out;
    var s' := Step(pl, next, s, HostPush);
    match s.dev.phase
    case DevHandshake(got) => MoveByte(got, s.h2d, out);
    case DevFrame(got) => MoveByte(got, s.h2d, out);
    case DevRaw(got, _, _) => MoveByte(got, s.h2d, out);
    case _ =>
  }

  lemma LostPushKeeps(pl: bool, next: Strategy, s: System, r: Request)
    requires Buffers(s) && Enabled(s, HostPush) && Lost(s, r)
    ensures
      var s' := Step(pl, next, s, HostPush);
      Buffers(s') && s'.host.history == s.host.history && s'.dev == s.dev && Lost(s', r)
  {
    MoveByte([], s.h2d, s.host.phase.out);
    assert [] + s.h2d + s.host.phase.out == s.h2d + s.host.phase.out;
  }

  lemma DevPushGreets(pl: bool, next: Strategy, s: System, d: DeviceState)
    requires Buffers(s) && Enabled(s, DevPush) && Greeting(s, d)
    ensures
      var s' := Step(pl, next, s, DevPush);
      Buffers(s') && s'.host.history == s.host.history && Greeting(s', d)
  {
    hide MessageFrame, Arrived;
    MoveByte(s.host.phase.got, s.d2h, s.dev.phase.out);
  }

  lemma DevPushAnswers(pl: bool, next: Strategy, s: System, r: Request, d: DeviceState, a: Answer)
    requires Buffers(s) && Enabled(s, DevPush) && Answering(s, r, d, a)
    ensures
      var s' := Step(pl, next, s, DevPush);
      Buffers(s') && s'.host.history == s.host.history && Answering(s', r, d, a)
  {
    hide AnswerBytes, ResponseFrame, Arrived;
    var out := s.dev.phase.out;
    match s.host.phase
    case HostRaw(got, _) => MoveByte(got, s.d2h, out);
    case HostResponse(got, _, _) => MoveByte(got, s.d2h, out);
    case _ =>
  }

  // ----- the host reads -----

  lemma HostPullGreets(pl: bool, next: Strategy, s: System, d: DeviceState)
    requires Buffers(s) && Enabled(s, HostPull) && Greeting(s, d)
    ensures
      var s' := Step(pl, next, s, HostPull);
      Buffers(s') && s'.host.history == [] && (Greeting(s', d) || Asking(s', next([]), d))
  {
    hide MessageBytes, Frame, Arrived, TakeFrame, DecodeMessage, Refill, RequestBytes;
    var got, b := s.host.phase.got, s.d2h[0];
    var out := if s.dev.phase.DevStart? then s.dev.phase.out else [];
    var body := MessageBytes(Message.Ack);
    MoveByte(got, s.d2h, out);
    assert s.d2h + [] == s.d2h;
    if Arrived(got + [b]) {
      MessageRoundTrip(Message.Ack, []);
      assert Frame(body) + [] == Frame(body);
      assert got + [b] + (s.d2h[1..] + out) == Frame(body) + [];
      FrameBoundary(got, b, s.d2h[1..] + out, body, []);
      MessageIsReceived(Message.Ack, [], s.host.buf);
      assert Frame(body) == MessageFrame(Message.Ack);
      FrameIsLong(body);
      HostStarts(next, s.host, got + [b]);
      NothingArrived();
      RefillLength(s.host.buf, Message.Ack);
      assert out == [];
      var s' := Step(pl, next, s, HostPull);
      assert [] + [] + Unsent(s'.host.phase) == Unsent(s'.host.phase);
      FrameIsLong(body);
      assert MessageFrame(Message.Ack) + [] == MessageFrame(Message.Ack);
    }
  }

  lemma RefillLength(buf: seq<u8>, m: Message)
    requires |buf| == BUF_SIZE
    ensures |MessageBytes(m)| <= BUF_SIZE && |Refill(buf, MessageBytes(m))| == BUF_SIZE
  {
    MessageRoundTrip(m, []);
  }

  /** Once the device's ack is whole, the host sends its own and turns to the first request. */
  lemma HostStarts(next: Strategy, h: Host, frame: seq<u8>)
    requires |h.buf| == BUF_SIZE && h.phase.HostStart? && h.history == []
    requires frame != [] && frame == h.phase.got + [frame[|frame| - 1]]
    requires Arrived(frame) && TakeFrame(frame, h.buf).Some?
    requires DecodeMessage(TakeFrame(frame, h.buf).value.0) == Some(Message.Ack)
    requires |MessageFrame(Message.Ack)| >= 4
    ensures
      var h' := HostReceive(next, h, frame[|frame| - 1]);
      && |h'.buf| == BUF_SIZE && h'.history == []
      && h'.phase == HostSend(MessageFrame(Message.Ack) + PendingBytes(next([])), next([]))
  {
    hide MessageBytes, Frame, Arrived, DecodeMessage, RequestBytes, MessageFrame;
    TakeFrameLength(frame, h.buf);
    hide TakeFrame;
    MessageRoundTrip(Message.Ack, []);
    assert MessageFrame(Message.Ack) + [] == MessageFrame(Message.Ack);
    if next([]).Some? {
      MessageRoundTrip(next([]).value.message, []);
    }
  }

  lemma HostPullRaw(pl: bool, next: Strategy, s: System, r: Request, d: DeviceState, a: Answer)
    requires Buffers(s) && Enabled(s, HostPull) && Answering(s, r, d, a) && s.host.phase.HostRaw?
    ensures
      var s' := Step(pl, next, s, HostPull);
      Buffers(s') && s'.host.history == s.host.history && Answering(s', r, d, a)
  {
    hide ResponseFrame, Arrived;
    var got, b, out := s.host.phase.got, s.d2h[0], Unanswered(s.dev.phase);
    MoveByte(got, s.d2h, out);
    NothingArrived();
    var got', rest := got + [b], s.d2h[1..] + out;
    assert got' + s.d2h[1..] + out == got' + rest;
    if |got'| == |a.raw| {
      assert got' == (got' + rest)[..|got'|] == AnswerBytes(a)[..|a.raw|] == a.raw;
      assert rest == (got' + rest)[|got'|..] == AnswerBytes(a)[|a.raw|..] == ResponseFrame(a.response);
      assert [] + s.d2h[1..] == s.d2h[1..];
    }
  }

  /** The response is whole: the exchange is complete and the next one begins on empty queues. */
  lemma HostPullResponse(pl: bool, next: Strategy, s: System, r: Request, d: DeviceState, a: Answer)
    requires Buffers(s) && Enabled(s, HostPull) && Answering(s, r, d, a) && s.host.phase.HostResponse?
    ensures
      var s' := Step(pl, next, s, HostPull);
      && Buffers(s')
      && (if Arrived(s.host.phase.got + [s.d2h[0]]) then
            var history := s.host.history + [a];
            s'.host.history == history && Asking(s', next(history), d)
          else s'.host.history == s.host.history && Answering(s', r, d, a))
  {
    hide ResponseBytes, Frame, Arrived, TakeFrame, DecodeResponse, Refill, RequestBytes, MessageBytes;
    var got, b, out := s.host.phase.got, s.d2h[0], Unanswered(s.dev.phase);
    var body := ResponseBytes(a.response);
    MoveByte(got, s.d2h, out);
    if Arrived(got + [b]) {
      ResponseRoundTrip(a.response, []);
      assert Frame(body) + [] == Frame(body);
      assert got + [b] + (s.d2h[1..] + out) == Frame(body) + [];
      FrameBoundary(got, b, s.d2h[1..] + out, body, []);
      ResponseIsReceived(a.response, [], s.host.buf);
      assert out == [] && s.d2h[1..] == [];
      HostContinues(next, s.host, got + [b], a.response);
      NothingArrived();
      var s' := Step(pl, next, s, HostPull);
      assert [] + [] + Unsent(s'.host.phase) == Unsent(s'.host.phase);
    }
  }

  lemma RequestIsLong(r: Request)
    ensures |RequestBytes(r)| >= 4 + |r.payload|
  {
    MessageRoundTrip(r.message, []);
  }

  lemma HostContinues(next: Strategy, h: Host, frame: seq<u8>, response: Response)
    requires |h.buf| == BUF_SIZE && h.phase.HostResponse?
    requires frame != [] && frame == h.phase.got + [frame[|frame| - 1]]
    requires Arrived(frame) && TakeFrame(frame, h.buf).Some?
    requires DecodeResponse(TakeFrame(frame, h.buf).value.0) == Some(response)
    ensures
      var h' := HostReceive(next, h, frame[|frame| - 1]);
      var history := h.history + [Answer(h.phase.raw, response)];
      && |h'.buf| == BUF_SIZE && h'.history == history
      && h'.phase == (match next(history)
                      case None => HostStopped
                      case Some(r) => HostSend(RequestBytes(r), Some(r)))
      && (next(history).Some? ==> |RequestBytes(next(history).value)| >= 4)
  {
    hide MessageBytes, Frame, Arrived, DecodeResponse, RequestBytes;
    var history := h.history + [Answer(h.phase.raw, response)];
    TakeFrameLength(frame, h.buf);
    hide TakeFrame;
    match next(history)
    case None =>
    case Some(r) =>
      MessageRoundTrip(r.message, []);
      RequestIsLong(r);
      assert [] + RequestBytes(r) == RequestBytes(r);
  }

  lemma TakeFrameLength(frame: seq<u8>, buf: seq<u8>)
    requires |buf| == BUF_SIZE && Arrived(frame) && TakeFrame(frame, buf).Some?
    ensures |TakeFrame(frame, buf).value.0| == BUF_SIZE
  {
  }

  // ----- the device reads -----

  lemma DevPullHandshake(pl: bool, next: Strategy, s: System, awaiting: Option<Request>, d: DeviceState)
    requires Buffers(s) && Enabled(s, DevPull) && Asking(s, awaiting, d) && s.dev.phase.DevHandshake?
    ensures
      var s' := Step(pl, next, s, DevPull);
      Buffers(s') && s'.host.history == s.host.history && Asking(s', awaiting, d)
  {
    hide MessageBytes, Frame, Arrived, TakeFrame, DecodeResponse, PendingBytes;
    var got, b, out := s.dev.phase.got, s.h2d[0], Unsent(s.host.phase);
    var body, rest := MessageBytes(Message.Ack), s.h2d[1..] + out;
    var got' := got + [b];
    MoveByte(got, s.h2d, out);
    MessageRoundTrip(Message.Ack, []);
    if Arrived(got') {
      ConcatAssoc(got', s.h2d[1..], out);
      FrameBoundary(got, b, rest, body, PendingBytes(awaiting));
      assert got' + [] == got';
      AckIsReceived(s.dev.buf);
      DevReady(pl, s.dev, b);
      NothingArrived();
      assert [] + s.h2d[1..] == s.h2d[1..];
    }
  }

  lemma DevReady(pl: bool, v: Dev, b: u8)
    requires |v.buf| == BUF_SIZE && v.phase.DevHandshake?
    requires Arrived(v.phase.got + [b]) && TakeFrame(v.phase.got + [b], v.buf).Some?
    requires DecodeResponse(TakeFrame(v.phase.got + [b], v.buf).value.0) == Some(Response.Ack)
    ensures
      var v' := DevReceive(pl, v, b);
      |v'.buf| == BUF_SIZE && v'.state == v.state && v'.phase == DevFrame([])
  {
    hide Arrived, TakeFrame, DecodeResponse;
    TakeFrameLength(v.phase.got + [b], v.buf);
  }

  lemma AckIsReceived(buf: seq<u8>)
    requires |buf| == BUF_SIZE
    ensures |MessageBytes(Message.Ack)| <= BUF_SIZE
    ensures
      var frame := Frame(MessageBytes(Message.Ack)) + [];
      && Arrived(frame) && TakeFrame(frame, buf).Some?
      && DecodeResponse(TakeFrame(frame, buf).value.0) == Some(Response.Ack)
  {
    hide TakeFrame, DecodeResponse, MessageBytes, Frame;
    MessageRoundTrip(Message.Ack, []);
    FrameIsTaken(MessageBytes(Message.Ack), [], buf);
    AckReadsAsResponse(buf[|MessageBytes(Message.Ack)|..]);
  }

  lemma RespondAnswers(v: Dev, d: DeviceState, raw: seq<u8>, response: Response)
    requires |v.buf| == BUF_SIZE
    ensures
      var v' := Respond(v, d, raw, response);
      && |v'.buf| == BUF_SIZE && v'.state == d
      && v'.phase == DevSend(AnswerBytes(Answer(raw, response)))
      && v'.phase.out != []
  {
    hide ResponseBytes;
    ResponseRoundTrip(response, []);
    FrameIsLong(ResponseBytes(response));
  }

  /** Nothing of the answer is read or on the way when the device starts sending it. */
  lemma AnswerBegins(s: System, r: Request, d': DeviceState, a: Answer)
    requires s.dev.state == d' && s.h2d == [] && s.d2h == []
    requires s.dev.phase == DevSend(AnswerBytes(a)) && AnswerBytes(a) != []
    requires s.host.phase == Await(Some(r)) && |a.raw| == RawLength(r.message)
    ensures Answering(s, r, d', a)
  {
    hide ResponseFrame, Arrived, AnswerBytes;
    NothingArrived();
    var out := AnswerBytes(a);
    assert [] + [] + out == out;
    if a.raw == [] {
      OnlyResponse(a);
    }
  }

  lemma OnlyResponse(a: Answer)
    ensures a.raw == [] ==> AnswerBytes(a) == ResponseFrame(a.response)
  {
    hide ResponseFrame;
  }

  lemma RawLengthIs(pl: bool, d: DeviceState, r: Request)
    requires Perform(pl, d, r).Some?
    ensures |Perform(pl, d, r).value.1.raw| == RawLength(r.message)
  {
    hide Params.FindUnused, Params.Blacklisted, Hookable;
  }

  lemma WriteIsReceived(pl: bool, d: DeviceState, addr: u32, size: u32)
    requires d.home.Misses(addr, size)
    ensures React(pl, d, Write(addr, size)) == Receive(addr, size)
  {
  }

  lemma DevPullRaw(pl: bool, next: Strategy, s: System, awaiting: Option<Request>, d: DeviceState)
    requires Buffers(s) && Enabled(s, DevPull) && Asking(s, awaiting, d) && s.dev.phase.DevRaw?
    requires awaiting.Some? && Honest(awaiting.value)
    ensures
      var s' := Step(pl, next, s, DevPull);
      Buffers(s') && s'.host.history == s.host.history && InExchange(pl, s', awaiting, d)
  {
    hide ResponseFrame, ResponseBytes, Arrived, AnswerBytes, React, Received, Home.Misses;
    var got, b, out := s.dev.phase.got, s.h2d[0], Unsent(s.host.phase);
    var r := awaiting.value;
    WriteIsReceived(pl, d, s.dev.phase.addr, s.dev.phase.size);
    var got', rest := got + [b], s.h2d[1..] + out;
    MoveByte(got, s.h2d, out);
    assert got' + s.h2d[1..] + out == got' + rest;
    if |got'| == s.dev.phase.size {
      assert |got'| + |rest| == |r.payload|;
      assert rest == [] && got' + [] == got';
      RespondAnswers(s.dev, Received(d, s.dev.phase.addr, got'), [], Response.Ack);
      AnswerBegins(Step(pl, next, s, DevPull), r, Received(d, s.dev.phase.addr, r.payload), Answer([], Response.Ack));
    }
  }

  lemma DevPullFrame(pl: bool, next: Strategy, s: System, awaiting: Option<Request>, d: DeviceState)
    requires Buffers(s) && Enabled(s, DevPull) && Asking(s, awaiting, d) && s.dev.phase.DevFrame?
    requires awaiting.Some? ==> Honest(awaiting.value)
    ensures
      var s' := Step(pl, next, s, DevPull);
      Buffers(s') && s'.host.history == s.host.history && InExchange(pl, s', awaiting, d)
  {
    hide MessageBytes, Frame, Arrived, TakeFrame, DecodeMessage, OnMessage, React, Honest;
    var got, b, out := s.dev.phase.got, s.h2d[0], Unsent(s.host.phase);
    MoveByte(got, s.h2d, out);
    if Arrived(got + [b]) {
      var rest := s.h2d[1..] + out;
      assert got + [b] + rest == PendingBytes(awaiting);
      var r := awaiting.value;
      var body := MessageBytes(r.message);
      MessageRoundTrip(r.message, []);
      FrameBoundary(got, b, rest, body, r.payload);
      assert Frame(body) + [] == Frame(body);
      MessageIsReceived(r.message, [], s.dev.buf);
      TakeFrameLength(got + [b], s.dev.buf);
      var buf := TakeFrame(got + [b], s.dev.buf).value.0;
      MessageServed(pl, s.(dev := s.dev.(buf := buf), h2d := s.h2d[1..]), r, d, out);
      assert Step(pl, next, s, DevPull)
          == s.(dev := OnMessage(pl, s.dev.(buf := buf), Some(r.message)), h2d := s.h2d[1..]);
    }
  }

  /** The device has just taken the message of `r` and nothing more. */
  lemma MessageServed(pl: bool, s: System, r: Request, d: DeviceState, out: seq<u8>)
    requires Buffers(s) && Honest(r) && s.dev.state == d && s.d2h == []
    requires out == Unsent(s.host.phase) && s.h2d + out == r.payload
    requires match s.host.phase
             case HostSend(o, w) => o != [] && w == Some(r)
             case p => Fresh(p, Some(r))
    ensures
      var s' := s.(dev := OnMessage(pl, s.dev, Some(r.message)));
      Buffers(s') && InExchange(pl, s', Some(r), d)
  {
    hide ResponseFrame, ResponseBytes, Arrived, AnswerBytes, Params.FindUnused, Params.Blacklisted, React, Breaks;
    var s' := s.(dev := OnMessage(pl, s.dev, Some(r.message)));
    ReactKinds(pl, d, r.message);
    BreaksIs(pl, d, r.message);
    match React(pl, d, r.message)
    case Reply(d', raw, response) =>
      assert r.payload == [];
      RawLengthIs(pl, d, r);
      RespondAnswers(s.dev, d', raw, response);
      AnswerBegins(s', r, d', Answer(raw, response));
    case Receive(addr, size) =>
      if size == 0 {
        RespondAnswers(s.dev, Received(d, addr, []), [], Response.Ack);
        AnswerBegins(s', r, Received(d, addr, []), Answer([], Response.Ack));
      } else {
        assert [] + s.h2d + out == s.h2d + out;
      }
    case Leave(_, _) =>
      assert r.payload == [];
    case Break =>
  }

  /** Only writes ask for raw bytes, and only jumps leave. */
  lemma ReactKinds(pl: bool, d: DeviceState, m: Message)
    ensures React(pl, d, m).Receive? ==>
              m.Write? && d.home.Misses(m.addr, m.size) && React(pl, d, m) == Receive(m.addr, m.size)
    ensures m.Write? ==> React(pl, d, m).Receive? || React(pl, d, m).Break?
    ensures React(pl, d, m).Leave? ==> m.Jump?
  {
    hide Params.FindUnused, Params.Blacklisted, Hookable;
  }
}
