/** The byte-level device and the handler class are the same device: fed the bytes one at a time, the
    machine ends one turn where `HandleMessage` promises to end it. */
module Turns {
  import opened Bytes
  import opened Codec
  import opened DaProtocol
  import opened Device
  import opened Lockstep
  import opened LockstepSafety

  /** The machine after it has read `bytes`, one step each. */
  function Feed(pl: bool, v: Dev, bytes: seq<u8>): Dev
    decreases bytes
  {
    if bytes == [] || |v.buf| != BUF_SIZE then v else Feed(pl, DevReceive(pl, v, bytes[0]), bytes[1..])
  }

  lemma {:induction false} FeedAppend(pl: bool, v: Dev, x: seq<u8>, y: seq<u8>)
    ensures Feed(pl, v, x + y) == Feed(pl, Feed(pl, v, x), y)
    decreases x
  {
    hide DevReceive;
    if x == [] {
      assert x + y == y;
    } else if |v.buf| == BUF_SIZE {
      assert (x + y)[1..] == x[1..] + y;
      FeedAppend(pl, DevReceive(pl, v, x[0]), x[1..], y);
    }
  }

  lemma FeedOne(pl: bool, v: Dev, b: u8)
    requires |v.buf| == BUF_SIZE
    ensures Feed(pl, v, [b]) == DevReceive(pl, v, b)
  {
    hide DevReceive;
    assert [b][1..] == [];
  }

  /** The bytes `TakeFrame` takes. */
  function Taken(inbox: seq<u8>): seq<u8>
    requires Arrived(inbox) && FromBe32(inbox[..4]) <= BUF_SIZE
  {
    inbox[..4 + FromBe32(inbox[..4])]
  }

  lemma TakenIs(inbox: seq<u8>, buf: seq<u8>)
    requires |buf| == BUF_SIZE && Arrived(inbox) && TakeFrame(inbox, buf).Some?
    ensures FromBe32(inbox[..4]) <= BUF_SIZE
    ensures
      var frame := Taken(inbox);
      && inbox == frame + TakeFrame(inbox, buf).value.1
      && |frame| >= 4 && Arrived(frame) && TakeFrame(frame, buf) == Some((TakeFrame(inbox, buf).value.0, []))
      && forall n :: 0 <= n < |frame| ==> !Arrived(frame[..n])
  {
    hide FromBe32;
    var frame := Taken(inbox);
    assert frame[..4] == inbox[..4];
    var size := FromBe32(inbox[..4]);
    assert frame[4..4 + size] == inbox[4..4 + size] && frame[4 + size..] == [];
    forall n | 0 <= n < |frame|
      ensures !Arrived(frame[..n])
    {
      assert n >= 4 ==> frame[..n][..4] == frame[..4];
    }
  }

  /** Short of a whole frame the machine only collects. */
  lemma {:induction false} FeedWaits(pl: bool, v: Dev, frame: seq<u8>, n: nat)
    requires |v.buf| == BUF_SIZE && v.phase == DevFrame([]) && n < |frame|
    requires forall k :: 0 <= k < |frame| ==> !Arrived(frame[..k])
    ensures Feed(pl, v, frame[..n]) == v.(phase := DevFrame(frame[..n]))
    decreases n
  {
    hide Arrived, Feed, TakeFrame;
    if n == 0 {
      FeedNothing(pl, v);
      assert frame[..0] == [];
    } else {
      var m := n - 1;
      FeedWaits(pl, v, frame, m);
      assert frame[..n] == frame[..m] + [frame[m]];
      FeedAppend(pl, v, frame[..m], [frame[m]]);
      FeedOne(pl, v.(phase := DevFrame(frame[..m])), frame[m]);
    }
  }

  lemma FeedNothing(pl: bool, v: Dev)
    ensures Feed(pl, v, []) == v
  {
  }

  /** The last byte of the frame hands the message over. */
  lemma FeedFrame(pl: bool, v: Dev, frame: seq<u8>, buf: seq<u8>)
    requires |v.buf| == BUF_SIZE && v.phase == DevFrame([]) && frame != []
    requires forall k :: 0 <= k < |frame| ==> !Arrived(frame[..k])
    requires Arrived(frame) && TakeFrame(frame, v.buf) == Some((buf, []))
    ensures |buf| == BUF_SIZE
    ensures
      var waiting := v.(buf := buf, phase := DevFrame(frame[..|frame| - 1]));
      Feed(pl, v, frame) == OnMessage(pl, waiting, DecodeMessage(buf))
  {
    TakeFrameLength(frame, v.buf);
    hide Arrived, Feed, TakeFrame, DecodeMessage, OnMessage;
    var n := |frame| - 1;
    FeedWaits(pl, v, frame, n);
    assert frame == frame[..n] + [frame[n]];
    FeedAppend(pl, v, frame[..n], [frame[n]]);
    FeedOne(pl, v.(phase := DevFrame(frame[..n])), frame[n]);
  }

  /** Raw bytes are collected and stored at the end. */
  lemma {:induction false} FeedRaw(pl: bool, v: Dev, got: seq<u8>, addr: u32, data: seq<u8>)
    requires |v.buf| == BUF_SIZE && data != [] && |got| + |data| <= U32_MAX
    requires v.phase == DevRaw(got, addr, |got| + |data|)
    ensures Feed(pl, v, data) == Respond(v, Received(v.state, addr, got + data), [], Response.Ack)
    decreases data
  {
    hide Received, ResponseBytes, Frame;
    var b, rest := data[0], data[1..];
    var v' := DevReceive(pl, v, b);
    if rest == [] {
      assert got + [b] == got + data;
      RespondAnswers(v, Received(v.state, addr, got + data), [], Response.Ack);
      FeedNothing(pl, v');
    } else {
      assert v' == v.(phase := DevRaw(got + [b], addr, |got| + |data|));
      FeedRaw(pl, v', got + [b], addr, rest);
      assert got + [b] + rest == got + data;
      assert Respond(v', Received(v.state, addr, got + data), [], Response.Ack)
          == Respond(v, Received(v.state, addr, got + data), [], Response.Ack);
    }
  }

  /** Having answered: new state, and exactly these bytes to send. */
  predicate Answers(v: Dev, d: DeviceState, raw: seq<u8>, response: Response) {
    && |ResponseBytes(response)| <= BUF_SIZE
    && v.state == d && v.phase == DevSend(raw + Frame(ResponseBytes(response)))
  }

  lemma RespondIs(v: Dev, d: DeviceState, raw: seq<u8>, response: Response)
    requires |v.buf| == BUF_SIZE
    ensures Answers(Respond(v, d, raw, response), d, raw, response)
  {
    hide ResponseBytes;
    ResponseRoundTrip(response, []);
  }

  /** One turn of the machine is one call of `HandleMessage`: same frame taken, same raw bytes, same new
      state, same bytes sent, same way of leaving. */
  lemma MachineTurnIsHandlerTurn(pl: bool, v: Dev, inbox: seq<u8>)
    requires |v.buf| == BUF_SIZE && v.phase == DevFrame([]) && Arrived(inbox) && TakeFrame(inbox, v.buf).Some?
    ensures FromBe32(inbox[..4]) <= BUF_SIZE
    ensures
      var (b, rest) := TakeFrame(inbox, v.buf).value;
      var after := Feed(pl, v, Taken(inbox));
      match DecodeMessage(b)
      case None => Answers(after, v.state, [], Nack(Unreachable))
      case Some(m) =>
        match React(pl, v.state, m)
        case Reply(d, raw, response) => Answers(after, d, raw, response)
        case Receive(addr, size) =>
          size <= |rest| ==>
            Answers(Feed(pl, v, Taken(inbox) + rest[..size]), Received(v.state, addr, rest[..size]), [], Response.Ack)
        case Leave(_, _) => after.phase == DevLeft && after.state == v.state
        case Break => after.phase == DevHalted && after.state == v.state
  {
    hide Feed, TakeFrame, DecodeMessage, React, Respond, Arrived, Received;
    var (b, rest) := TakeFrame(inbox, v.buf).value;
    TakenIs(inbox, v.buf);
    var frame := Taken(inbox);
    FeedFrame(pl, v, frame, b);
    var w := v.(buf := b, phase := DevFrame(frame[..|frame| - 1]));
    match DecodeMessage(b)
    case None => RespondIs(w, v.state, [], Nack(Unreachable));
    case Some(m) =>
      match React(pl, v.state, m)
      case Reply(d, raw, response) => RespondIs(w, d, raw, response);
      case Receive(addr, size) =>
        if size <= |rest| {
          var data := rest[..size];
          RespondIs(w, Received(v.state, addr, data), [], Response.Ack);
          FeedAppend(pl, v, frame, data);
          if size == 0 {
            assert data == [];
            FeedNothing(pl, Feed(pl, v, frame));
          } else {
            assert [] + data == data;
            FeedRaw(pl, w.(phase := DevRaw([], addr, size)), [], addr, data);
            RespondIs(w.(phase := DevRaw([], addr, size)), Received(v.state, addr, data), [], Response.Ack);
          }
        }
      case Leave(_, _) =>
      case Break =>
  }

  // ----- the handshake -----

  lemma {:induction false} HandshakeWaits(pl: bool, v: Dev, frame: seq<u8>, n: nat)
    requires |v.buf| == BUF_SIZE && v.phase == DevHandshake([]) && n < |frame|
    requires forall k :: 0 <= k < |frame| ==> !Arrived(frame[..k])
    ensures Feed(pl, v, frame[..n]) == v.(phase := DevHandshake(frame[..n]))
    decreases n
  {
    hide Arrived, Feed, TakeFrame;
    if n == 0 {
      FeedNothing(pl, v);
      assert frame[..0] == [];
    } else {
      var m := n - 1;
      HandshakeWaits(pl, v, frame, m);
      assert frame[..n] == frame[..m] + [frame[m]];
      FeedAppend(pl, v, frame[..m], [frame[m]]);
      FeedOne(pl, v.(phase := DevHandshake(frame[..m])), frame[m]);
    }
  }

  /** The machine's handshake is the handler's: fed the same bytes, it is ready for messages exactly where
      `Handshake` says so, and has halted where the source dies. */
  lemma MachineHandshakeIsHandlers(pl: bool, v: Dev, inbox: seq<u8>)
    requires |v.buf| == BUF_SIZE && v.phase == DevHandshake([])
    requires Arrived(inbox) && TakeFrame(inbox, v.buf).Some?
    ensures FromBe32(inbox[..4]) <= BUF_SIZE
    ensures
      var after := Feed(pl, v, Taken(inbox));
      && (after.phase == DevFrame([]) <==> DecodeResponse(TakeFrame(inbox, v.buf).value.0) == Some(Response.Ack))
      && (after.phase != DevFrame([]) ==> after.phase == DevHalted)
      && after.state == v.state && after.buf == TakeFrame(inbox, v.buf).value.0
  {
    hide Feed, TakeFrame, DecodeResponse, Arrived;
    TakenIs(inbox, v.buf);
    var frame := Taken(inbox);
    var n := |frame| - 1;
    HandshakeWaits(pl, v, frame, n);
    assert frame == frame[..n] + [frame[n]];
    FeedAppend(pl, v, frame[..n], [frame[n]]);
    FeedOne(pl, v.(phase := DevHandshake(frame[..n])), frame[n]);
  }

  /** A length that does not fit the buffer stops the machine at its fourth byte, where the source panics. */
  lemma OversizeHalts(pl: bool, v: Dev, length: seq<u8>)
    requires |v.buf| == BUF_SIZE && (v.phase == DevFrame([]) || v.phase == DevHandshake([]))
    requires |length| == 4 && FromBe32(length) > BUF_SIZE
    ensures Feed(pl, v, length) == v.(phase := DevHalted)
  {
    hide Feed, FromBe32, DecodeMessage, DecodeResponse, OnMessage;
    assert length[..4] == length;
    if v.phase.DevFrame? {
      FeedWaits(pl, v, length, 3);
    } else {
      HandshakeWaits(pl, v, length, 3);
    }
    assert length == length[..3] + [length[3]];
    FeedAppend(pl, v, length[..3], [length[3]]);
    FeedOne(pl, Feed(pl, v, length[..3]), length[3]);
  }

  /** The host's machine after it has read `bytes`. */
  function FeedHost(next: Strategy, h: Host, bytes: seq<u8>): Host
    decreases bytes
  {
    if bytes == [] || |h.buf| != BUF_SIZE then h else FeedHost(next, HostReceive(next, h, bytes[0]), bytes[1..])
  }

  lemma {:induction false} FeedHostAppend(next: Strategy, h: Host, x: seq<u8>, y: seq<u8>)
    ensures FeedHost(next, h, x + y) == FeedHost(next, FeedHost(next, h, x), y)
    decreases x
  {
    hide HostReceive;
    if x == [] {
      assert x + y == y;
    } else if |h.buf| == BUF_SIZE {
      assert (x + y)[1..] == x[1..] + y;
      FeedHostAppend(next, HostReceive(next, h, x[0]), x[1..], y);
    }
  }

  lemma FeedHostOne(next: Strategy, h: Host, b: u8)
    requires |h.buf| == BUF_SIZE
    ensures FeedHost(next, h, [b]) == HostReceive(next, h, b) && FeedHost(next, h, []) == h
  {
    hide HostReceive;
    assert [b][1..] == [];
  }

  lemma {:induction false} StartWaits(next: Strategy, h: Host, frame: seq<u8>, n: nat)
    requires |h.buf| == BUF_SIZE && h.phase == HostStart([]) && n < |frame|
    requires forall k :: 0 <= k < |frame| ==> !Arrived(frame[..k])
    ensures FeedHost(next, h, frame[..n]) == h.(phase := HostStart(frame[..n]))
    decreases n
  {
    hide Arrived, FeedHost, TakeFrame;
    if n == 0 {
      FeedHostOne(next, h, 0);
      assert frame[..0] == [];
    } else {
      var m := n - 1;
      StartWaits(next, h, frame, m);
      assert frame[..n] == frame[..m] + [frame[m]];
      FeedHostAppend(next, h, frame[..m], [frame[m]]);
      FeedHostOne(next, h.(phase := HostStart(frame[..m])), frame[m]);
    }
  }

  /** And the host's is `start`: an ack has it send one, followed by its first request; anything else fails. */
  lemma MachineStartIsHosts(next: Strategy, h: Host, inbox: seq<u8>)
    requires |h.buf| == BUF_SIZE && h.phase == HostStart([])
    requires Arrived(inbox) && TakeFrame(inbox, h.buf).Some?
    ensures FromBe32(inbox[..4]) <= BUF_SIZE && |MessageBytes(Message.Ack)| <= BUF_SIZE
    ensures
      var after := FeedHost(next, h, Taken(inbox));
      var ok := DecodeMessage(TakeFrame(inbox, h.buf).value.0) == Some(Message.Ack);
      && (!ok ==> after.phase == HostFailed)
      && (ok ==>
           && after.history == []
           && after.phase == HostSend(Frame(MessageBytes(Message.Ack))
                                      + (match next([]) case None => [] case Some(r) => RequestBytes(r)), next([])))
  {
    hide FeedHost, TakeFrame, DecodeMessage, Arrived, MessageBytes, Frame;
    TakenIs(inbox, h.buf);
    MessageRoundTrip(Message.Ack, []);
    var frame, ack := Taken(inbox), MessageFrame(Message.Ack);
    FrameIsNonempty(MessageBytes(Message.Ack));
    assert ack + [] == ack;
    var n := |frame| - 1;
    StartWaits(next, h, frame, n);
    assert frame == frame[..n] + [frame[n]];
    FeedHostAppend(next, h, frame[..n], [frame[n]]);
    FeedHostOne(next, h.(phase := HostStart(frame[..n])), frame[n]);
  }

  lemma FrameIsNonempty(b: seq<u8>)
    requires |b| <= BUF_SIZE
    ensures Frame(b) != []
  {
  }
}
