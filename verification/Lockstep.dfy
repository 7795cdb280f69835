/** Host and device as two step machines joined by two byte queues. A step moves one byte, so every
    interleaving of every partial transfer is a run. */
module Lockstep {
  import opened Bytes
  import opened Codec
  import opened DaProtocol
  import opened Device

  /** A message and the raw bytes that follow it. */
  datatype Request = Request(message: Message, payload: seq<u8>)

  /** What the host learns from one exchange: raw bytes, then a response. */
  datatype Answer = Answer(raw: seq<u8>, response: Response)

  /** Any host program: the next request, given every answer so far. */
  type Strategy = seq<Answer> -> Option<Request>

  /** Raw bytes follow exactly the writes, in the announced number, and addresses do not wrap. */
  predicate Honest(r: Request) {
    match r.message
    case Write(addr, size) => |r.payload| == size && addr + size <= 0x1_0000_0000
    case Read(addr, size) => r.payload == [] && addr + size <= 0x1_0000_0000
    case _ => r.payload == []
  }

  ghost predicate HonestStrategy(next: Strategy) {
    forall history :: next(history).Some? ==> Honest(next(history).value)
  }

  // ----- one exchange at a time -----

  function MessageFrame(m: Message): seq<u8> {
    MessageRoundTrip(m, []);
    Frame(MessageBytes(m))
  }

  function ResponseFrame(r: Response): seq<u8> {
    ResponseRoundTrip(r, []);
    Frame(ResponseBytes(r))
  }

  function RequestBytes(r: Request): seq<u8> {
    MessageFrame(r.message) + r.payload
  }

  function AnswerBytes(a: Answer): seq<u8> {
    a.raw + ResponseFrame(a.response)
  }

  function RawLength(m: Message): nat {
    match m
    case Read(_, size) => size
    case _ => 0
  }

  /** The exchange as one atomic operation of the device; `None` when control leaves the handler or the
      request breaks the device. */
  function Perform(pl: bool, d: DeviceState, r: Request): Option<(DeviceState, Answer)> {
    match React(pl, d, r.message)
    case Reply(d', raw, response) => Some((d', Answer(raw, response)))
    case Receive(addr, size) => Some((Received(d, addr, r.payload), Answer([], Response.Ack)))
    case Leave(_, _) => None
    case Break => None
  }

  /** The device after the exchanges of `history`, if they are the ones the strategy and the device make. */
  function DeviceAfter(pl: bool, next: Strategy, d0: DeviceState, history: seq<Answer>): Option<DeviceState> {
    if history == [] then Some(d0)
    else
      var before := history[..|history| - 1];
      match DeviceAfter(pl, next, d0, before)
      case None => None
      case Some(d) =>
        match next(before)
        case None => None
        case Some(r) =>
          match Perform(pl, d, r)
          case None => None
          case Some((d', a)) => if a == history[|history| - 1] then Some(d') else None
  }

  // ----- the two machines -----

  datatype HostPhase =
    | HostStart(got: seq<u8>)
    | HostSend(out: seq<u8>, awaiting: Option<Request>)
    | HostRaw(got: seq<u8>, request: Request)
    | HostResponse(got: seq<u8>, raw: seq<u8>, request: Request)
    | HostStopped
    | HostFailed

  datatype Host = Host(buf: seq<u8>, history: seq<Answer>, phase: HostPhase)

  datatype DevPhase =
    | DevStart(out: seq<u8>)
    | DevHandshake(got: seq<u8>)
    | DevFrame(got: seq<u8>)
    | DevRaw(got: seq<u8>, addr: u32, size: u32)
    | DevSend(out: seq<u8>)
    | DevLeft
    | DevHalted

  datatype Dev = Dev(buf: seq<u8>, state: DeviceState, phase: DevPhase)

  datatype System = System(host: Host, dev: Dev, h2d: seq<u8>, d2h: seq<u8>)

  datatype Action = HostPush | HostPull | DevPush | DevPull

  function Await(awaiting: Option<Request>): HostPhase {
    match awaiting
    case None => HostStopped
    case Some(r) => if RawLength(r.message) == 0 then HostResponse([], [], r) else HostRaw([], r)
  }

  /** The host turns to its next request, serialised through its buffer. */
  function NextRequest(next: Strategy, h: Host, history: seq<Answer>, prefix: seq<u8>): Host
    requires |h.buf| == BUF_SIZE
  {
    match next(history)
    case None => Host(h.buf, history, if prefix == [] then HostStopped else HostSend(prefix, None))
    case Some(r) =>
      MessageRoundTrip(r.message, []);
      Host(Refill(h.buf, MessageBytes(r.message)), history, HostSend(prefix + RequestBytes(r), Some(r)))
  }

  function HostReceive(next: Strategy, h: Host, b: u8): Host
    requires |h.buf| == BUF_SIZE
  {
    match h.phase
    case HostStart(got0) =>
      var got := got0 + [b];
      if !Arrived(got) then h.(phase := HostStart(got))
      else
        (match TakeFrame(got, h.buf)
         case None => h.(phase := HostFailed)
         case Some((buf, _)) =>
           if DecodeMessage(buf) == Some(Message.Ack) then
             MessageRoundTrip(Message.Ack, []);
             NextRequest(next, h.(buf := Refill(buf, MessageBytes(Message.Ack))), [], MessageFrame(Message.Ack))
           else h.(buf := buf, phase := HostFailed))
    case HostRaw(got0, r) =>
      var got := got0 + [b];
      if |got| < RawLength(r.message) then h.(phase := HostRaw(got, r)) else h.(phase := HostResponse([], got, r))
    case HostResponse(got0, raw, r) =>
      var got := got0 + [b];
      if !Arrived(got) then h.(phase := HostResponse(got, raw, r))
      else
        (match TakeFrame(got, h.buf)
         case None => h.(phase := HostFailed)
         case Some((buf, _)) =>
           match DecodeResponse(buf)
           case None => h.(buf := buf, phase := HostFailed)
           case Some(response) => NextRequest(next, h.(buf := buf), h.history + [Answer(raw, response)], []))
    case _ => h
  }

  function Respond(v: Dev, d: DeviceState, raw: seq<u8>, response: Response): Dev
    requires |v.buf| == BUF_SIZE
  {
    ResponseRoundTrip(response, []);
    Dev(Refill(v.buf, ResponseBytes(response)), d, DevSend(raw + ResponseFrame(response)))
  }

  function OnMessage(pl: bool, v: Dev, m: Option<Message>): Dev
    requires |v.buf| == BUF_SIZE
  {
    match m
    case None => Respond(v, v.state, [], Nack(Unreachable))
    case Some(m) =>
      match React(pl, v.state, m)
      case Reply(d, raw, response) => Respond(v, d, raw, response)
      case Receive(addr, size) =>
        if size == 0 then Respond(v, Received(v.state, addr, []), [], Response.Ack)
        else v.(phase := DevRaw([], addr, size))
      case Leave(_, _) => v.(phase := DevLeft)
      case Break => v.(phase := DevHalted)
  }

  function DevReceive(pl: bool, v: Dev, b: u8): Dev
    requires |v.buf| == BUF_SIZE
  {
    match v.phase
    case DevHandshake(got0) =>
      var got := got0 + [b];
      if !Arrived(got) then v.(phase := DevHandshake(got))
      else
        (match TakeFrame(got, v.buf)
         case None => v.(phase := DevHalted)
         case Some((buf, _)) =>
           if DecodeResponse(buf) == Some(Response.Ack) then v.(buf := buf, phase := DevFrame([]))
           else v.(buf := buf, phase := DevHalted))
    case DevFrame(got0) =>
      var got := got0 + [b];
      if !Arrived(got) then v.(phase := DevFrame(got))
      else
        (match TakeFrame(got, v.buf)
         case None => v.(phase := DevHalted)
         case Some((buf, _)) => OnMessage(pl, v.(buf := buf), DecodeMessage(buf)))
    case DevRaw(got0, addr, size) =>
      var got := got0 + [b];
      if |got| < size then v.(phase := DevRaw(got, addr, size))
      else Respond(v, Received(v.state, addr, got), [], Response.Ack)
    case _ => v
  }

  predicate Reading(p: HostPhase) { p.HostStart? || p.HostRaw? || p.HostResponse? }

  predicate DevReading(p: DevPhase) { p.DevHandshake? || p.DevFrame? || p.DevRaw? }

  predicate Buffers(s: System) { |s.host.buf| == BUF_SIZE && |s.dev.buf| == BUF_SIZE }

  predicate Enabled(s: System, a: Action) {
    match a
    case HostPush => s.host.phase.HostSend? && s.host.phase.out != []
    case HostPull => Reading(s.host.phase) && s.d2h != []
    case DevPush => (s.dev.phase.DevStart? || s.dev.phase.DevSend?) && s.dev.phase.out != []
    case DevPull => DevReading(s.dev.phase) && s.h2d != []
  }

  function Step(pl: bool, next: Strategy, s: System, a: Action): System
    requires Buffers(s) && Enabled(s, a)
  {
    match a
    case HostPush =>
      var out := s.host.phase.out;
      var rest := out[1..];
      var phase := if rest == [] then Await(s.host.phase.awaiting) else s.host.phase.(out := rest);
      s.(host := s.host.(phase := phase), h2d := s.h2d + [out[0]])
    case HostPull =>
      s.(host := HostReceive(next, s.host, s.d2h[0]), d2h := s.d2h[1..])
    case DevPush =>
      var out := s.dev.phase.out;
      var rest := out[1..];
      var phase := if rest != [] then s.dev.phase.(out := rest)
                   else if s.dev.phase.DevStart? then DevHandshake([]) else DevFrame([]);
      s.(dev := s.dev.(phase := phase), d2h := s.d2h + [out[0]])
    case DevPull =>
      s.(dev := DevReceive(pl, s.dev, s.h2d[0]), h2d := s.h2d[1..])
  }

  /** The device is about to send its first ack, the host to read it. */
  function Initial(hostBuf: seq<u8>, devBuf: seq<u8>, d0: DeviceState): System
    requires |hostBuf| == BUF_SIZE && |devBuf| == BUF_SIZE
  {
    MessageRoundTrip(Message.Ack, []);
    System(Host(hostBuf, [], HostStart([])),
           Dev(Refill(devBuf, MessageBytes(Message.Ack)), d0, DevStart(MessageFrame(Message.Ack))), [], [])
  }
}
