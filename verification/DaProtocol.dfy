/** Framing over a byte channel, through one fixed buffer shared by both directions. */
module DaProtocol {
  import opened Bytes
  import opened Codec

  /** One endpoint's view of the link: bytes that have arrived, bytes that were sent. */
  class Channel {
    var inbox: seq<u8>
    var outbox: seq<u8>

    constructor (inbox: seq<u8>)
      ensures this.inbox == inbox && outbox == []
    {
      this.inbox, outbox := inbox, [];
    }

    /** A blocking read; it returns once `n` bytes have arrived. */
    method Read(n: nat) returns (data: seq<u8>)
      requires n <= |inbox|
      modifies this
      ensures data == old(inbox)[..n] && inbox == old(inbox)[n..] && outbox == old(outbox)
    {
      data := inbox[..n];
      inbox := inbox[n..];
    }

    method Write(data: seq<u8>)
      modifies this
      ensures outbox == old(outbox) + data && inbox == old(inbox)
    {
      outbox := outbox + data;
    }
  }

  /** The receive buffer after `body` was read into its front. */
  function Refill(buf: seq<u8>, body: seq<u8>): seq<u8>
    requires |body| <= |buf|
  {
    body + buf[|body|..]
  }

  /** What `read_data` takes from the channel: the new buffer and the bytes left; `None` if the
      length does not fit the buffer, where the source stops with a panic. */
  function TakeFrame(inbox: seq<u8>, buf: seq<u8>): Option<(seq<u8>, seq<u8>)>
    requires |buf| == BUF_SIZE && Arrived(inbox)
  {
    var size := FromBe32(inbox[..4]);
    if size > BUF_SIZE then None
    else Some((Refill(buf, inbox[4..4 + size]), inbox[4 + size..]))
  }

  /** A whole frame, or a length the reader rejects, has arrived. */
  predicate Arrived(inbox: seq<u8>) {
    |inbox| >= 4 && (FromBe32(inbox[..4]) <= BUF_SIZE ==> |inbox| >= 4 + FromBe32(inbox[..4]))
  }

  /** An honest frame is taken whole, whatever follows it and whatever was in the buffer. */
  lemma FrameIsTaken(body: seq<u8>, rest: seq<u8>, buf: seq<u8>)
    requires |body| <= BUF_SIZE && |buf| == BUF_SIZE
    ensures Arrived(Frame(body) + rest)
    ensures TakeFrame(Frame(body) + rest, buf) == Some((Refill(buf, body), rest))
  {
    hide Be32, FromBe32;
    var inbox := Frame(body) + rest;
    Be32RoundTrip(|body|);
    assert inbox[..4] == Be32(|body|);
    assert inbox[4..4 + |body|] == body;
    assert inbox[4 + |body|..] == rest;
  }

  datatype ReadResult<+T> = Value(value: T) | PostcardError | Panicked

  class Protocol {
    const io: Channel
    const buf: array<u8>

    constructor (io: Channel)
      ensures this.io == io && fresh(buf) && buf.Length == BUF_SIZE
    {
      this.io := io;
      this.buf := new u8[BUF_SIZE](_ => 0);
    }

    method Fill(data: seq<u8>)
      requires |data| <= buf.Length
      modifies buf
      ensures buf[..] == Refill(old(buf[..]), data)
    {
      var i := 0;
      while i < |data|
        invariant 0 <= i <= |data|
        invariant forall j :: 0 <= j < i ==> buf[j] == data[j]
        invariant forall j :: i <= j < buf.Length ==> buf[j] == old(buf[j])
      {
        buf[i] := data[i];
        i := i + 1;
      }
      assert buf[..|data|] == data && buf[|data|..] == old(buf[..])[|data|..];
      assert buf[..] == buf[..|data|] + buf[|data|..];
    }

    /** The transport half of `read_data`. */
    method ReadFrame() returns (ok: bool)
      requires buf.Length == BUF_SIZE && Arrived(io.inbox)
      modifies io, buf
      ensures io.outbox == old(io.outbox)
      ensures match TakeFrame(old(io.inbox), old(buf[..]))
              case None => !ok && buf[..] == old(buf[..])
              case Some((b, rest)) => ok && buf[..] == b && io.inbox == rest
    {
      hide FromBe32;
      var length := io.Read(4);
      var size := FromBe32(length);
      if size > BUF_SIZE {
        return false;
      }
      var data := io.Read(size);
      Fill(data);
      assert old(io.inbox)[4..][..size] == old(io.inbox)[4..4 + size];
      assert old(io.inbox)[4..][size..] == old(io.inbox)[4 + size..];
      ok := true;
    }

    /** Decodes the whole buffer, stale bytes included. */
    method ReadMessage() returns (r: ReadResult<Message>)
      requires buf.Length == BUF_SIZE && Arrived(io.inbox)
      modifies io, buf
      ensures io.outbox == old(io.outbox)
      ensures match TakeFrame(old(io.inbox), old(buf[..]))
              case None => r == Panicked
              case Some((b, rest)) =>
                && buf[..] == b && io.inbox == rest
                && r == match DecodeMessage(b) case None => PostcardError case Some(m) => Value(m)
    {
      hide DecodeMessage, TakeFrame;
      var ok := ReadFrame();
      if !ok {
        return Panicked;
      }
      match DecodeMessage(buf[..])
      case None => r := PostcardError;
      case Some(m) => r := Value(m);
    }

    method ReadResponse() returns (r: ReadResult<Response>)
      requires buf.Length == BUF_SIZE && Arrived(io.inbox)
      modifies io, buf
      ensures io.outbox == old(io.outbox)
      ensures match TakeFrame(old(io.inbox), old(buf[..]))
              case None => r == Panicked
              case Some((b, rest)) =>
                && buf[..] == b && io.inbox == rest
                && r == match DecodeResponse(b) case None => PostcardError case Some(m) => Value(m)
    {
      hide DecodeResponse, TakeFrame;
      var ok := ReadFrame();
      if !ok {
        return Panicked;
      }
      match DecodeResponse(buf[..])
      case None => r := PostcardError;
      case Some(m) => r := Value(m);
    }

    /** `write_data`: serialises into the buffer, then sends the length and the bytes. */
    method WriteData(bytes: seq<u8>)
      requires buf.Length == BUF_SIZE && |bytes| <= BUF_SIZE
      modifies io, buf
      ensures io.outbox == old(io.outbox) + Frame(bytes) && io.inbox == old(io.inbox)
      ensures buf[..] == Refill(old(buf[..]), bytes)
    {
      hide Be32;
      Fill(bytes);
      io.Write(Be32(|bytes|));
      io.Write(buf[..|bytes|]);
      assert buf[..|bytes|] == bytes;
    }

    method SendMessage(m: Message)
      requires buf.Length == BUF_SIZE
      modifies io, buf
      ensures |MessageBytes(m)| <= BUF_SIZE
      ensures io.outbox == old(io.outbox) + Frame(MessageBytes(m)) && io.inbox == old(io.inbox)
      ensures buf[..] == Refill(old(buf[..]), MessageBytes(m))
    {
      MessageRoundTrip(m, []);
      WriteData(MessageBytes(m));
    }

    method SendResponse(r: Response)
      requires buf.Length == BUF_SIZE
      modifies io, buf
      ensures |ResponseBytes(r)| <= BUF_SIZE
      ensures io.outbox == old(io.outbox) + Frame(ResponseBytes(r)) && io.inbox == old(io.inbox)
      ensures buf[..] == Refill(old(buf[..]), ResponseBytes(r))
    {
      ResponseRoundTrip(r, []);
      WriteData(ResponseBytes(r));
    }
  }

  /** Whatever a peer sent comes out of `read_data` as it went in, past any stale bytes. */
  lemma MessageIsReceived(m: Message, rest: seq<u8>, buf: seq<u8>)
    requires |buf| == BUF_SIZE
    ensures |MessageBytes(m)| <= BUF_SIZE
    ensures
      var inbox := Frame(MessageBytes(m)) + rest;
      && Arrived(inbox)
      && TakeFrame(inbox, buf).Some? && TakeFrame(inbox, buf).value.1 == rest
      && DecodeMessage(TakeFrame(inbox, buf).value.0) == Some(m)
  {
    hide TakeFrame, DecodeMessage, MessageBytes;
    MessageRoundTrip(m, []);
    FrameIsTaken(MessageBytes(m), rest, buf);
    MessageRoundTrip(m, buf[|MessageBytes(m)|..]);
  }

  lemma ResponseIsReceived(r: Response, rest: seq<u8>, buf: seq<u8>)
    requires |buf| == BUF_SIZE
    ensures |ResponseBytes(r)| <= BUF_SIZE
    ensures
      var inbox := Frame(ResponseBytes(r)) + rest;
      && Arrived(inbox)
      && TakeFrame(inbox, buf).Some? && TakeFrame(inbox, buf).value.1 == rest
      && DecodeResponse(TakeFrame(inbox, buf).value.0) == Some(r)
  {
    hide TakeFrame, DecodeResponse, ResponseBytes;
    ResponseRoundTrip(r, []);
    FrameIsTaken(ResponseBytes(r), rest, buf);
    ResponseRoundTrip(r, buf[|ResponseBytes(r)|..]);
  }
}
