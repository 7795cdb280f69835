/** The host's chunked upload and download: methods with the source's loops, and the same requests as a
    script for the two byte-level machines, so that the result holds for every interleaving. */
module HostExt {
  import opened Bytes
  import opened Codec
  import opened DaProtocol
  import opened Device
  import opened Lockstep
  import opened LockstepSafety
  import opened LockstepTheorems
  import opened OwnMemory
  import Params
  import opened Placement

  const CHUNK_SIZE: nat := 256 * 1024

  /** Bytes covered by the first `i` chunks of `n`. */
  function Upto(i: nat, n: nat): nat {
    if i * CHUNK_SIZE <= n then i * CHUNK_SIZE else n
  }

  function ChunkCount(n: nat): nat {
    (n + CHUNK_SIZE - 1) / CHUNK_SIZE
  }

  // ----- requests -----

  /** A request, and whether the host gives up on any response but an ack. */
  datatype Call = Call(request: Request, checked: bool)

  function UploadCall(addr: u32, data: seq<u8>, i: nat): Call
    requires addr + |data| <= 0x1_0000_0000 && i < ChunkCount(|data|)
  {
    var chunk := data[i * CHUNK_SIZE..Upto(i + 1, |data|)];
    Call(Request(Write(addr + i * CHUNK_SIZE, |chunk|), chunk), false)
  }

  function UploadCalls(addr: u32, data: seq<u8>): seq<Call>
    requires addr + |data| <= 0x1_0000_0000
  {
    seq(ChunkCount(|data|), i requires 0 <= i < ChunkCount(|data|) => UploadCall(addr, data, i))
  }

  /** Whole chunks, then the remainder if there is one. */
  function DownloadCall(addr: u32, len: u32, i: nat): Call
    requires addr + len <= 0x1_0000_0000 && i < ChunkCount(len)
  {
    var size := if i < len / CHUNK_SIZE then CHUNK_SIZE else len % CHUNK_SIZE;
    Call(Request(Read(addr + i * CHUNK_SIZE, size), []), true)
  }

  function DownloadCalls(addr: u32, len: u32): seq<Call>
    requires addr + len <= 0x1_0000_0000
  {
    seq(ChunkCount(len), i requires 0 <= i < ChunkCount(len) => DownloadCall(addr, len, i))
  }

  // ----- their effect on the device -----

  /** The calls one after another, and the answers to them. */
  function PerformCalls(pl: bool, d: DeviceState, calls: seq<Call>): Option<(DeviceState, seq<Answer>)> {
    if calls == [] then Some((d, []))
    else
      var (d1, answers) :- PerformCalls(pl, d, calls[..|calls| - 1]);
      var (d2, a) :- Perform(pl, d1, calls[|calls| - 1].request);
      Some((d2, answers + [a]))
  }

  predicate AllAcks(answers: seq<Answer>) {
    forall k :: 0 <= k < |answers| ==> answers[k].response == Response.Ack
  }

  function RawOf(answers: seq<Answer>): seq<u8> {
    if answers == [] then [] else RawOf(answers[..|answers| - 1]) + answers[|answers| - 1].raw
  }

  function Stored(d: DeviceState, addr: u32, data: seq<u8>): DeviceState {
    d.(mem := Overlay(d.mem, addr, data))
  }

  lemma PerformWrite(pl: bool, d: DeviceState, addr: u32, data: seq<u8>)
    requires |data| <= U32_MAX && d.home.Misses(addr, |data|)
    ensures Perform(pl, d, Request(Write(addr, |data|), data))
         == Some((Stored(d, addr, data), Answer([], Response.Ack)))
  {
  }

  lemma PerformRead(pl: bool, d: DeviceState, addr: u32, size: u32)
    ensures Perform(pl, d, Request(Read(addr, size), [])) == Some((d, Answer(Slice(d.mem, addr, size), Response.Ack)))
  {
  }

  lemma PerformOneMore(pl: bool, d: DeviceState, calls: seq<Call>, i: nat, d1: DeviceState, answers: seq<Answer>,
                       d2: DeviceState, a: Answer)
    requires i < |calls|
    requires PerformCalls(pl, d, calls[..i]) == Some((d1, answers)) && |answers| == i && AllAcks(answers)
    requires Perform(pl, d1, calls[i].request) == Some((d2, a)) && a.response == Response.Ack
    ensures PerformCalls(pl, d, calls[..i + 1]) == Some((d2, answers + [a]))
    ensures AllAcks(answers + [a]) && RawOf(answers + [a]) == RawOf(answers) + a.raw
  {
    hide Perform;
    assert calls[..i + 1][..i] == calls[..i];
    assert (answers + [a])[..i] == answers;
  }

  lemma UploadCallIs(addr: u32, data: seq<u8>, i: nat)
    requires addr + |data| <= 0x1_0000_0000 && i < ChunkCount(|data|)
    ensures
      var lo, hi := Upto(i, |data|), Upto(i + 1, |data|);
      && lo < hi <= |data| && addr + lo <= U32_MAX && hi - lo <= U32_MAX
      && UploadCall(addr, data, i).request == Request(Write(addr + lo, hi - lo), data[lo..hi])
  {
  }

  lemma MissesPart(home: Home, addr: int, size: nat, lo: nat, hi: nat)
    requires home.Misses(addr, size) && lo <= hi <= size
    ensures home.Misses(addr + lo, hi - lo)
  {
  }

  lemma StoreMore(d: DeviceState, addr: u32, data: seq<u8>, lo: nat, hi: nat)
    requires lo <= hi <= |data| && addr + lo <= U32_MAX
    ensures Stored(Stored(d, addr, data[..lo]), addr + lo, data[lo..hi]) == Stored(d, addr, data[..hi])
  {
    hide Overlay;
    OverlayAppend(d.mem, addr, data[..lo], data[lo..hi]);
    assert data[..lo] + data[lo..hi] == data[..hi];
  }

  lemma StoreNothing(d: DeviceState, addr: u32)
    ensures Stored(d, addr, []) == d
  {
  }

  lemma SliceMore(m: Mem, addr: int, lo: nat, hi: nat)
    requires lo <= hi
    ensures Slice(m, addr, lo) + Slice(m, addr + lo, hi - lo) == Slice(m, addr, hi)
  {
  }

  /** Chunk by chunk, exactly the covered part of the range is written and nothing else. */
  lemma {:induction false} UploadPrefix(pl: bool, d: DeviceState, addr: u32, data: seq<u8>, i: nat)
    requires addr + |data| <= 0x1_0000_0000 && i <= ChunkCount(|data|) && d.home.Misses(addr, |data|)
    ensures
      var r := PerformCalls(pl, d, UploadCalls(addr, data)[..i]);
      && r.Some? && r.value.0 == Stored(d, addr, data[..Upto(i, |data|)])
      && |r.value.1| == i && AllAcks(r.value.1) && RawOf(r.value.1) == []
    decreases i
  {
    hide Perform, PerformCalls, RawOf, Overlay, AllAcks, ChunkCount, Upto, UploadCall, Home.Misses;
    var calls := UploadCalls(addr, data);
    if i == 0 {
      ZeroChunks(|data|);
      assert data[..0] == [];
      NoCalls(pl, d);
      StoreNothing(d, addr);
    } else {
      var lo, hi := Upto(i - 1, |data|), Upto(i, |data|);
      UploadCallIs(addr, data, i - 1);
      UploadPrefix(pl, d, addr, data, i - 1);
      var answers := PerformCalls(pl, d, calls[..i - 1]).value.1;
      MissesPart(d.home, addr, |data|, lo, hi);
      PerformWrite(pl, Stored(d, addr, data[..lo]), addr + lo, data[lo..hi]);
      StoreMore(d, addr, data, lo, hi);
      PerformOneMore(pl, d, calls, i - 1, Stored(d, addr, data[..lo]), answers,
                     Stored(d, addr, data[..hi]), Answer([], Response.Ack));
    }
  }

  /** The requests of an upload: 256 KiB each and in order, and what remains in the last. */
  lemma UploadChunks(addr: u32, data: seq<u8>, i: nat)
    requires addr + |data| <= 0x1_0000_0000
    ensures |UploadCalls(addr, data)| == (|data| + 0x3_FFFF) / 0x4_0000
    ensures 0x4_0000 * i < |data| ==>
      var size := if 0x4_0000 * (i + 1) <= |data| then 0x4_0000 else |data| - 0x4_0000 * i;
      && i < |UploadCalls(addr, data)|
      && UploadCalls(addr, data)[i].request
         == Request(Write(addr + 0x4_0000 * i, size), data[0x4_0000 * i..0x4_0000 * i + size])
  {
  }

  /** And those of a download. */
  lemma DownloadChunks(addr: u32, len: u32, i: nat)
    requires addr + len <= 0x1_0000_0000
    ensures |DownloadCalls(addr, len)| == (len + 0x3_FFFF) / 0x4_0000
    ensures 0x4_0000 * i < len ==>
      var size := if 0x4_0000 * (i + 1) <= len then 0x4_0000 else len - 0x4_0000 * i;
      && i < |DownloadCalls(addr, len)|
      && DownloadCalls(addr, len)[i] == Call(Request(Read(addr + 0x4_0000 * i, size), []), true)
  {
  }

  lemma ZeroChunks(n: nat)
    ensures Upto(0, n) == 0
  {
  }

  lemma NoCalls(pl: bool, d: DeviceState)
    ensures PerformCalls(pl, d, []) == Some((d, [])) && AllAcks([]) && RawOf([]) == []
  {
  }

  /** The remainder of a download is what the last chunk of an upload would be. */
  lemma DownloadCallIs(addr: u32, len: u32, i: nat)
    requires addr + len <= 0x1_0000_0000 && i < ChunkCount(len)
    ensures Upto(i + 1, len) - Upto(i, len) >= 0 && addr + Upto(i, len) <= U32_MAX
    ensures DownloadCall(addr, len, i).request
         == Request(Read(addr + Upto(i, len), Upto(i + 1, len) - Upto(i, len)), [])
  {
  }

  /** Chunk by chunk, the bytes fetched are exactly the covered part of the range, in order. */
  lemma {:induction false} DownloadPrefix(pl: bool, d: DeviceState, addr: u32, len: u32, i: nat)
    requires addr + len <= 0x1_0000_0000 && i <= ChunkCount(len)
    ensures
      var r := PerformCalls(pl, d, DownloadCalls(addr, len)[..i]);
      && r.Some? && r.value.0 == d
      && |r.value.1| == i && AllAcks(r.value.1) && RawOf(r.value.1) == Slice(d.mem, addr, Upto(i, len))
    decreases i
  {
    hide Perform, PerformCalls, RawOf, AllAcks, ChunkCount, Upto, DownloadCall;
    var calls := DownloadCalls(addr, len);
    if i == 0 {
      ZeroChunks(len);
      NoCalls(pl, d);
    } else {
      var lo, hi := Upto(i - 1, len), Upto(i, len);
      DownloadCallIs(addr, len, i - 1);
      DownloadPrefix(pl, d, addr, len, i - 1);
      var answers := PerformCalls(pl, d, calls[..i - 1]).value.1;
      PerformRead(pl, d, addr + lo, hi - lo);
      SliceMore(d.mem, addr, lo, hi);
      PerformOneMore(pl, d, calls, i - 1, d, answers, d, Answer(Slice(d.mem, addr + lo, hi - lo), Response.Ack));
    }
  }

  /** Upload refines one copy. */
  lemma UploadIsOneCopy(pl: bool, d: DeviceState, addr: u32, data: seq<u8>)
    requires addr + |data| <= 0x1_0000_0000 && d.home.Misses(addr, |data|)
    ensures
      var r := PerformCalls(pl, d, UploadCalls(addr, data));
      && r.Some? && r.value.0 == Stored(d, addr, data)
      && |r.value.1| == |UploadCalls(addr, data)| && AllAcks(r.value.1) && RawOf(r.value.1) == []
  {
    hide Perform, Overlay, PerformCalls, RawOf, UploadCall;
    var calls := UploadCalls(addr, data);
    UploadPrefix(pl, d, addr, data, |calls|);
    assert calls[..|calls|] == calls;
    assert data[..|data|] == data;
  }

  /** Download refines one read. */
  lemma DownloadIsOneRead(pl: bool, d: DeviceState, addr: u32, len: u32)
    requires addr + len <= 0x1_0000_0000
    ensures
      var r := PerformCalls(pl, d, DownloadCalls(addr, len));
      && r.Some? && r.value.0 == d
      && |r.value.1| == |DownloadCalls(addr, len)| && AllAcks(r.value.1) && RawOf(r.value.1) == Slice(d.mem, addr, len)
  {
    hide Perform, Slice, PerformCalls, RawOf, DownloadCall;
    var calls := DownloadCalls(addr, len);
    DownloadPrefix(pl, d, addr, len, |calls|);
    assert calls[..|calls|] == calls;
  }

  lemma {:induction false} PerformAppend(pl: bool, d: DeviceState, x: seq<Call>, y: seq<Call>)
    requires PerformCalls(pl, d, x).Some?
    requires PerformCalls(pl, PerformCalls(pl, d, x).value.0, y).Some?
    ensures
      var (d1, first) := PerformCalls(pl, d, x).value;
      var (d2, second) := PerformCalls(pl, d1, y).value;
      PerformCalls(pl, d, x + y) == Some((d2, first + second))
    decreases y
  {
    hide Perform;
    var (d1, first) := PerformCalls(pl, d, x).value;
    if y == [] {
      assert x + y == x && first + [] == first;
    } else {
      var (_, early) := PerformCalls(pl, d1, y[..|y| - 1]).value;
      var a := PerformCalls(pl, d1, y).value.1[|early|];
      ConcatAssoc(first, early, [a]);
      PerformAppend(pl, d, x, y[..|y| - 1]);
      assert (x + y)[..|x + y| - 1] == x + y[..|y| - 1];
    }
  }

  /** Download after upload of the same range is the identity. */
  lemma DownloadAfterUpload(pl: bool, d: DeviceState, addr: u32, data: seq<u8>)
    requires addr + |data| <= 0x1_0000_0000 && |data| <= U32_MAX && d.home.Misses(addr, |data|)
    ensures
      var up := UploadCalls(addr, data);
      var r := PerformCalls(pl, d, up + DownloadCalls(addr, |data|));
      && r.Some? && r.value.0 == Stored(d, addr, data)
      && |up| <= |r.value.1| && RawOf(r.value.1[|up|..]) == data
  {
    hide Perform, PerformCalls, RawOf, UploadCalls, DownloadCalls;
    var up, down := UploadCalls(addr, data), DownloadCalls(addr, |data|);
    UploadIsOneCopy(pl, d, addr, data);
    var (d1, first) := PerformCalls(pl, d, up).value;
    DownloadIsOneRead(pl, d1, addr, |data|);
    PerformAppend(pl, d, up, down);
    var second := PerformCalls(pl, d1, down).value.1;
    assert (first + second)[|first|..] == second;
    assert Slice(d1.mem, addr, |data|) == data;
  }

  // ----- the source's loops -----

  /** `start`: the device's ack is answered with an ack; anything else is an error and nothing is sent. */
  method Start(protocol: Protocol) returns (ok: bool)
    requires protocol.buf.Length == BUF_SIZE && Arrived(protocol.io.inbox)
    modifies protocol.io, protocol.buf
    ensures |MessageBytes(Message.Ack)| <= BUF_SIZE
    ensures
      var taken := TakeFrame(old(protocol.io.inbox), old(protocol.buf[..]));
      ok <==> taken.Some? && DecodeMessage(taken.value.0) == Some(Message.Ack)
    ensures protocol.io.outbox == old(protocol.io.outbox) + (if ok then Frame(MessageBytes(Message.Ack)) else [])
    ensures forall rest :: old(protocol.io.inbox) == Frame(MessageBytes(Message.Ack)) + rest ==>
              ok && protocol.io.inbox == rest
  {
    hide TakeFrame, DecodeMessage, MessageBytes, Frame, Arrived;
    ghost var inbox, stale := protocol.io.inbox, protocol.buf[..];
    var r := protocol.ReadMessage();
    MessageRoundTrip(Message.Ack, []);
    ok := r == Value(Message.Ack);
    forall rest | inbox == Frame(MessageBytes(Message.Ack)) + rest
      ensures ok && protocol.io.inbox == rest
    {
      MessageIsReceived(Message.Ack, rest, stale);
    }
    if ok {
      protocol.SendMessage(Message.Ack);
    }
  }

  function WrittenBy(m: Message): seq<Block> {
    match m
    case Write(addr, size) => [Block(addr, addr + size)]
    case _ => []
  }

  lemma ExchangeIsClean(pl: bool, d: DeviceState, r: Request)
    requires Perform(pl, d, r).Some?
    ensures Perform(pl, d, r).value.0.home == d.home && Perform(pl, d, r).value.0.memory == d.memory
    ensures r.message.Write? ==> d.home.Misses(r.message.addr, r.message.size)
  {
    hide React, Home.Misses;
    ReactKinds(pl, d, r.message);
    if React(pl, d, r.message).Reply? {
      ReplyKeepsHome(pl, d, r.message);
    }
  }

  lemma PerformNext(pl: bool, d: DeviceState, calls: seq<Call>, r: Request, checked: bool)
    requires PerformCalls(pl, d, calls).Some? && Perform(pl, PerformCalls(pl, d, calls).value.0, r).Some?
    ensures
      var (d1, answers) := PerformCalls(pl, d, calls).value;
      var (d2, a) := Perform(pl, d1, r).value;
      PerformCalls(pl, d, calls + [Call(r, checked)]) == Some((d2, answers + [a]))
  {
    hide Perform;
    assert (calls + [Call(r, checked)])[..|calls|] == calls;
  }

  /** The host's end of a session, one exchange at a time: what lockstep shows a `send_message`, the raw
      bytes either way and a `read_response` to come to. */
  class Session {
    const pl: bool
    var device: DeviceState
    /** The device at the start, what has been asked of it and what it has answered. */
    ghost const first: DeviceState
    ghost var asked: seq<Call>
    ghost var answers: seq<Answer>
    /** The ranges the host has written. */
    ghost var written: seq<Block>

    constructor (pl: bool, device: DeviceState)
      ensures this.pl == pl && this.device == first == device && asked == [] && written == [] && Clean()
    {
      this.pl, this.device, first, asked, answers, written := pl, device, device, [], [], [];
    }

    /** The exchanges so far have led to this device, and no write among them has met the payload's own memory
        or the loader's. */
    ghost predicate Clean()
      reads this
    {
      && PerformCalls(pl, first, asked) == Some((device, answers))
      && forall i :: 0 <= i < |written| && written[i].start <= written[i].end ==>
           device.home.Misses(written[i].start, written[i].end - written[i].start)
    }

    /** `checked`: the caller gives up on any response but an ack. */
    method Exchange(r: Request, ghost checked: bool) returns (a: Answer)
      requires Perform(pl, device, r).Some? && Clean()
      modifies this
      ensures Perform(pl, old(device), r) == Some((device, a))
      ensures Clean() && device.home == old(device.home)
      ensures asked == old(asked) + [Call(r, checked)] && answers == old(answers) + [a]
      ensures written == old(written) + WrittenBy(r.message)
    {
      hide Perform, Home.Misses, PerformCalls;
      ExchangeIsClean(pl, device, r);
      PerformNext(pl, first, asked, r, checked);
      var result := Perform(pl, device, r).value;
      device, a := result.0, result.1;
      asked, answers, written := asked + [Call(r, checked)], answers + [a], written + WrittenBy(r.message);
    }

    method Upload(addr: u32, data: seq<u8>)
      requires addr + |data| <= 0x1_0000_0000 && device.home.Misses(addr, |data|) && Clean()
      modifies this
      ensures device == Stored(old(device), addr, data) && Clean() && old(written) <= written
      ensures asked == old(asked) + UploadCalls(addr, data)
    {
      hide Perform, ChunkCount, Upto, UploadCall, UploadCalls, Home.Misses, Overlay, FirstCalls;
      var i := 0;
      ZeroChunks(|data|);
      StoreNothing(device, addr);
      assert data[..0] == [] && data[..|data|] == data;
      ghost var calls := UploadCalls(addr, data);
      FirstAndAll(calls);
      while i * CHUNK_SIZE < |data|
        invariant Upto(i, |data|) <= |data|
        invariant device == Stored(old(device), addr, data[..Upto(i, |data|)])
        invariant asked == old(asked) + FirstCalls(calls, i)
        invariant Clean() && old(written) <= written
        decreases |data| - i * CHUNK_SIZE
      {
        MoreChunks(i, |data|);
        UploadCallIs(addr, data, i);
        var call := UploadCall(addr, data, i);
        StoreMore(old(device), addr, data, Upto(i, |data|), Upto(i + 1, |data|));
        MissesPart(device.home, addr, |data|, Upto(i, |data|), Upto(i + 1, |data|));
        PerformWrite(pl, device, call.request.message.addr, call.request.payload);
        var _ := Exchange(call.request, false);
        UploadSnoc(addr, data, i);
        i := i + 1;
      }
      UploadLength(addr, data);
      AllFirst(calls, i);
      MoreChunks(i, |data|);
    }

    /** Fetches one chunk into its place; `false` where the source gives up. */
    method DoDownload(vec: array<u8>, addr: u32, size: u32, offset: nat) returns (ok: bool)
      requires offset + size <= vec.Length && Clean()
      modifies this, vec
      ensures device == old(device) && ok && Clean() && written == old(written)
      ensures asked == old(asked) + [Call(Request(Read(addr, size), []), true)]
      ensures vec[..] == old(vec[..offset]) + Slice(old(device).mem, addr, size) + old(vec[offset + size..])
      ensures vec[..offset + size] == old(vec[..offset]) + Slice(old(device).mem, addr, size)
    {
      hide Perform;
      PerformRead(pl, device, addr, size);
      var a := Exchange(Request(Read(addr, size), []), true);
      forall k | 0 <= k < size {
        vec[offset + k] := a.raw[k];
      }
      ok := a.response.Ack?;
    }

    method Download(addr: u32, len: u32) returns (result: Option<array<u8>>)
      requires addr + len <= 0x1_0000_0000 && Clean()
      modifies this
      ensures device == old(device) && Clean() && written == old(written)
      ensures asked == old(asked) + DownloadCalls(addr, len)
      ensures result.Some? && fresh(result.value) && result.value[..] == Slice(device.mem, addr, len)
    {
      hide Perform, Slice, DownloadCalls, DownloadCall, FirstCalls, Clean;
      var vec := new u8[len](_ => 0);
      ghost var calls := DownloadCalls(addr, len);
      FirstAndAll(calls);
      var i := 0;
      WholeChunks(0, len);
      SliceNothing(device.mem, addr);
      assert vec[..0] == [];
      while i < len / CHUNK_SIZE
        invariant i * CHUNK_SIZE <= len && device == old(device) && Clean() && written == old(written)
        invariant vec[..i * CHUNK_SIZE] == Slice(device.mem, addr, i * CHUNK_SIZE)
        invariant i <= len / CHUNK_SIZE && asked == old(asked) + FirstCalls(calls, i)
      {
        WholeChunks(i, len);
        var offset := i * CHUNK_SIZE;
        SliceMore(device.mem, addr, offset, offset + CHUNK_SIZE);
        var ok := DoDownload(vec, addr + offset, CHUNK_SIZE, offset);
        if !ok {
          return None;
        }
        DownloadSnoc(addr, len, i);
        i := i + 1;
      }
      WholeChunks(i, len);
      var remainder := len % CHUNK_SIZE;
      if remainder != 0 {
        var offset := len / CHUNK_SIZE * CHUNK_SIZE;
        SliceMore(device.mem, addr, offset, len);
        var ok := DoDownload(vec, addr + offset, remainder, offset);
        if !ok {
          return None;
        }
        DownloadSnoc(addr, len, i);
      }
      DownloadLength(addr, len);
      AllFirst(calls, i);
      AllFirst(calls, i + 1);
      assert vec[..] == vec[..len];
      result := Some(vec);
    }
  }

  /** The first `n` calls, or all of them. */
  function FirstCalls(calls: seq<Call>, n: nat): seq<Call> {
    if n <= |calls| then calls[..n] else calls
  }

  lemma FirstAndAll(calls: seq<Call>)
    ensures FirstCalls(calls, 0) == []
  {
  }

  lemma AllFirst(calls: seq<Call>, n: nat)
    ensures n >= |calls| ==> FirstCalls(calls, n) == calls
  {
  }

  lemma UploadSnoc(addr: u32, data: seq<u8>, i: nat)
    requires addr + |data| <= 0x1_0000_0000 && i < ChunkCount(|data|)
    ensures
      var call := UploadCall(addr, data, i);
      && call == Call(call.request, false)
      && FirstCalls(UploadCalls(addr, data), i + 1) == FirstCalls(UploadCalls(addr, data), i) + [call]
  {
    hide ChunkCount, Upto;
  }

  lemma DownloadSnoc(addr: u32, len: u32, i: nat)
    requires addr + len <= 0x1_0000_0000 && i * CHUNK_SIZE < len
    ensures addr + i * CHUNK_SIZE <= U32_MAX && i < ChunkCount(len)
    ensures
      var size := if i < len / CHUNK_SIZE then CHUNK_SIZE else len % CHUNK_SIZE;
      FirstCalls(DownloadCalls(addr, len), i + 1)
      == FirstCalls(DownloadCalls(addr, len), i) + [Call(Request(Read(addr + i * CHUNK_SIZE, size), []), true)]
  {
  }

  lemma DownloadLength(addr: u32, len: u32)
    requires addr + len <= 0x1_0000_0000
    ensures |DownloadCalls(addr, len)| == len / CHUNK_SIZE + if len % CHUNK_SIZE == 0 then 0 else 1
  {
  }

  lemma WholeChunks(i: nat, n: nat)
    ensures i < n / CHUNK_SIZE ==> (i + 1) * CHUNK_SIZE <= n
    ensures n / CHUNK_SIZE * CHUNK_SIZE + n % CHUNK_SIZE == n
    ensures i * CHUNK_SIZE <= n && i >= n / CHUNK_SIZE ==> i == n / CHUNK_SIZE
  {
  }

  lemma SliceNothing(m: Mem, a: int)
    ensures Slice(m, a, 0) == []
  {
  }

  lemma MoreChunks(i: nat, n: nat)
    ensures i * CHUNK_SIZE < n <==> i < ChunkCount(n)
    ensures i * CHUNK_SIZE >= n ==> Upto(i, n) == n
    ensures Upto(i, n) <= n
  {
  }

  // ----- the same requests, byte by byte -----

  /** A host that makes the calls in order and stops at the end or at a checked response that is no ack. */
  function ScriptNext(calls: seq<Call>, history: seq<Answer>): Option<Request> {
    var n := |history|;
    if n >= |calls| then None
    else if n > 0 && calls[n - 1].checked && history[n - 1].response != Response.Ack then None
    else Some(calls[n].request)
  }

  function Script(calls: seq<Call>): Strategy {
    (history: seq<Answer>) => ScriptNext(calls, history)
  }

  predicate HonestCalls(calls: seq<Call>) {
    forall k :: 0 <= k < |calls| ==> Honest(calls[k].request)
  }

  lemma ScriptIsHonest(calls: seq<Call>)
    requires HonestCalls(calls)
    ensures HonestStrategy(Script(calls))
  {
  }

  /** Completed exchanges of a script are its first calls, performed. */
  lemma {:induction false} ScriptProgress(pl: bool, calls: seq<Call>, d: DeviceState, history: seq<Answer>)
    requires DeviceAfter(pl, Script(calls), d, history).Some?
    ensures |history| <= |calls|
    ensures PerformCalls(pl, d, calls[..|history|]) == Some((DeviceAfter(pl, Script(calls), d, history).value, history))
    decreases history
  {
    hide Perform;
    var n := |history|;
    if n > 0 {
      var before := history[..n - 1];
      ScriptProgress(pl, calls, d, before);
      assert history == before + [history[n - 1]];
      assert Script(calls)(before) == ScriptNext(calls, before);
      assert calls[..n][..n - 1] == calls[..n - 1];
    }
  }

  lemma PerformLast(pl: bool, d: DeviceState, calls: seq<Call>, n: nat)
    requires n < |calls| && PerformCalls(pl, d, calls[..n]).Some? && PerformCalls(pl, d, calls[..n + 1]).Some?
    ensures Perform(pl, PerformCalls(pl, d, calls[..n]).value.0, calls[n].request).Some?
  {
    hide Perform;
    assert calls[..n + 1][..n] == calls[..n];
  }

  /** Whatever the interleaving, a script that the device acks throughout runs to its end: where the two
      machines stop, every call was performed, in order, and the queues are empty. */
  lemma ScriptRunsToItsEnd(pl: bool, calls: seq<Call>, d0: DeviceState, s: System)
    requires HonestCalls(calls) && InLockstep(pl, Script(calls), d0, s) && Stuck(s)
    requires forall i :: 0 <= i <= |calls| ==> PerformCalls(pl, d0, calls[..i]).Some?
    requires forall i :: 0 <= i <= |calls| ==> AllAcks(PerformCalls(pl, d0, calls[..i]).value.1)
    ensures s.h2d == [] && s.d2h == []
    ensures PerformCalls(pl, d0, calls) == Some((s.dev.state, s.host.history))
  {
    hide InLockstep, Perform, DeviceAfter, Stuck, HonestStrategy, HonestCalls, PerformCalls;
    ScriptIsHonest(calls);
    LockstepReached(pl, Script(calls), d0, s);
    StuckIsFinished(pl, Script(calls), d0, s);
    ScriptProgress(pl, calls, d0, s.host.history);
    var n := |s.host.history|;
    if n < |calls| {
      assert AllAcks(s.host.history);
      assert PerformCalls(pl, d0, calls[..n + 1]).Some?;
      PerformLast(pl, d0, calls, n);
    } else {
      assert calls[..n] == calls;
    }
  }

  // ----- sessions, byte by byte -----

  lemma {:induction false} PrefixPerforms(pl: bool, d: DeviceState, calls: seq<Call>, n: nat)
    requires PerformCalls(pl, d, calls).Some? && n <= |calls|
    ensures |PerformCalls(pl, d, calls).value.1| == |calls|
    ensures PerformCalls(pl, d, calls[..n]).Some?
    ensures PerformCalls(pl, d, calls[..n]).value.1 == PerformCalls(pl, d, calls).value.1[..n]
    decreases calls
  {
    hide Perform;
    if n == |calls| {
      assert calls[..n] == calls;
      if n > 0 {
        PrefixPerforms(pl, d, calls[..n - 1], n - 1);
      }
    } else {
      PrefixPerforms(pl, d, calls[..|calls| - 1], n);
      assert calls[..|calls| - 1][..n] == calls[..n];
    }
  }

  /** The program asks what the session asked, as long as it gets the session's answers. */
  predicate Follows(next: Strategy, calls: seq<Call>, answers: seq<Answer>) {
    |calls| == |answers| && forall i :: 0 <= i < |calls| ==> next(answers[..i]) == Some(calls[i].request)
  }

  /** The device is deterministic, so a run that follows the session gets the session's answers. */
  lemma {:induction false} FollowsAlong(pl: bool, next: Strategy, d0: DeviceState, calls: seq<Call>,
                                       answers: seq<Answer>, history: seq<Answer>)
    requires PerformCalls(pl, d0, calls).Some? && PerformCalls(pl, d0, calls).value.1 == answers
    requires Follows(next, calls, answers) && DeviceAfter(pl, next, d0, history).Some? && |history| <= |calls|
    ensures history == answers[..|history|]
    ensures PerformCalls(pl, d0, calls[..|history|])
         == Some((DeviceAfter(pl, next, d0, history).value, history))
    decreases history
  {
    hide Perform, PerformCalls, DeviceAfter;
    var n := |history|;
    PrefixPerforms(pl, d0, calls, n);
    if n > 0 {
      var before := history[..n - 1];
      DeviceAfterLast(pl, next, d0, history);
      FollowsAlong(pl, next, d0, calls, answers, before);
      assert history == before + [history[n - 1]];
      assert next(before) == Some(calls[n - 1].request);
      PerformLastIs(pl, d0, calls, n);
    } else {
      NoCalls(pl, d0);
      DeviceAfterNothing(pl, next, d0);
      assert calls[..0] == [];
    }
  }

  lemma DeviceAfterNothing(pl: bool, next: Strategy, d0: DeviceState)
    ensures DeviceAfter(pl, next, d0, []) == Some(d0)
  {
  }

  lemma DeviceAfterLast(pl: bool, next: Strategy, d0: DeviceState, history: seq<Answer>)
    requires history != [] && DeviceAfter(pl, next, d0, history).Some?
    ensures
      var before := history[..|history| - 1];
      && DeviceAfter(pl, next, d0, before).Some? && next(before).Some?
      && Perform(pl, DeviceAfter(pl, next, d0, before).value, next(before).value)
      == Some((DeviceAfter(pl, next, d0, history).value, history[|history| - 1]))
  {
    hide Perform;
  }

  lemma PerformLastIs(pl: bool, d: DeviceState, calls: seq<Call>, n: nat)
    requires 0 < n <= |calls| && PerformCalls(pl, d, calls[..n - 1]).Some?
    requires Perform(pl, PerformCalls(pl, d, calls[..n - 1]).value.0, calls[n - 1].request).Some?
    ensures
      var (d1, answers) := PerformCalls(pl, d, calls[..n - 1]).value;
      var (d2, a) := Perform(pl, d1, calls[n - 1].request).value;
      PerformCalls(pl, d, calls[..n]) == Some((d2, answers + [a]))
  {
    hide Perform;
    assert calls[..n][..n - 1] == calls[..n - 1];
  }

  lemma {:induction false} DeviceAfterPrefix(pl: bool, next: Strategy, d0: DeviceState, history: seq<Answer>, n: nat)
    requires DeviceAfter(pl, next, d0, history).Some? && n <= |history|
    ensures DeviceAfter(pl, next, d0, history[..n]).Some?
    ensures n < |history| ==>
              && next(history[..n]).Some?
              && Perform(pl, DeviceAfter(pl, next, d0, history[..n]).value, next(history[..n]).value).Some?
    decreases |history|
  {
    hide Perform, DeviceAfter;
    if n < |history| {
      DeviceAfterLast(pl, next, d0, history);
      var before := history[..|history| - 1];
      DeviceAfterPrefix(pl, next, d0, before, n);
      assert before[..n] == history[..n];
      assert n == |before| ==> before[..n] == before;
    } else {
      assert history[..n] == history;
    }
  }

  /** A session led exchange by exchange is a session on the two byte-level machines: whatever the
      interleaving, a host program that follows it and then has nothing to ask, or asks something that the
      device does not answer, stops with the session's answers and the session's device. */
  lemma SessionRunsOnMachines(pl: bool, next: Strategy, d0: DeviceState, calls: seq<Call>, answers: seq<Answer>,
                              d: DeviceState, s: System)
    requires HonestStrategy(next) && InLockstep(pl, next, d0, s) && Stuck(s)
    requires PerformCalls(pl, d0, calls) == Some((d, answers)) && Follows(next, calls, answers)
    requires next(answers).Some? ==> Perform(pl, d, next(answers).value).None?
    ensures s.host.history == answers && s.dev.state == d
    ensures match next(answers)
            case None => s.host.phase.HostStopped? && s.h2d == [] && s.d2h == []
            case Some(r) => if Breaks(pl, d, r.message) then s.dev.phase.DevHalted? else s.dev.phase.DevLeft?
  {
    hide InLockstep, Perform, DeviceAfter, Stuck, HonestStrategy, PerformCalls, Breaks;
    LockstepReached(pl, next, d0, s);
    StuckIsFinished(pl, next, d0, s);
    var history, n := s.host.history, |s.host.history|;
    if n < |calls| {
      FollowsAlong(pl, next, d0, calls, answers, history);
      PrefixPerforms(pl, d0, calls, n + 1);
      PerformLast(pl, d0, calls, n);
    } else {
      DeviceAfterPrefix(pl, next, d0, history, |calls|);
      FollowsAlong(pl, next, d0, calls, answers, history[..|calls|]);
      assert calls[..|calls|] == calls && answers[..|calls|] == answers && history[..n] == history;
    }
  }

  /** One write of zeros over the blacklist. */
  function Overwrite(home: Home): Call
    requires 0 <= home.tableAt && home.tableAt + Params.TABLE_SIZE <= U32_MAX
  {
    Call(Request(Write(home.tableAt, Params.TABLE_SIZE), Zeros(Params.TABLE_SIZE)), false)
  }

  /** A host that sends exactly the bytes it announces is not enough: this one loses the device in every
      run. What the device would go on with is `ZeroesEmptyTheTable`. */
  lemma OverwriteLosesDevice(pl: bool, d0: DeviceState, hostBuf: seq<u8>, devBuf: seq<u8>, acts: seq<Action>)
    requires |hostBuf| == BUF_SIZE && |devBuf| == BUF_SIZE && Intact(d0)
    requires 0 <= d0.home.tableAt && d0.home.tableAt + Params.TABLE_SIZE <= U32_MAX
    requires
      var end := Run(pl, Script([Overwrite(d0.home)]), Initial(hostBuf, devBuf, d0), acts);
      end.Some? && Stuck(end.value)
    ensures HonestStrategy(Script([Overwrite(d0.home)]))
    ensures Run(pl, Script([Overwrite(d0.home)]), Initial(hostBuf, devBuf, d0), acts).value.dev.phase.DevHalted?
  {
    hide Run, Initial, Stuck, InLockstep, HonestStrategy, Perform, Intact, Breaks, DeviceAfter;
    var calls := [Overwrite(d0.home)];
    var next := Script(calls);
    var s := Run(pl, next, Initial(hostBuf, devBuf, d0), acts).value;
    ScriptIsHonest(calls);
    EveryRunIsSafe(pl, next, d0, hostBuf, devBuf, acts);
    ScriptProgress(pl, calls, d0, s.host.history);
    ZeroesEmptyTheTable(pl, d0);
    BrokenIsNotPerformed(pl, d0, calls[0].request);
    assert calls[..0] == [] && calls[..1] == calls;
    assert next(s.host.history) == ScriptNext(calls, s.host.history);
    HaltsExactly(pl, next, d0, s);
  }

  /** Every interleaving of an upload ends with device memory equal to the data exactly on the range. */
  lemma UploadEndToEnd(pl: bool, d0: DeviceState, addr: u32, data: seq<u8>, hostBuf: seq<u8>, devBuf: seq<u8>,
                       acts: seq<Action>)
    requires |hostBuf| == BUF_SIZE && |devBuf| == BUF_SIZE && addr + |data| <= 0x1_0000_0000
    requires d0.home.Misses(addr, |data|)
    requires
      var end := Run(pl, Script(UploadCalls(addr, data)), Initial(hostBuf, devBuf, d0), acts);
      end.Some? && Stuck(end.value)
    ensures
      var s := Run(pl, Script(UploadCalls(addr, data)), Initial(hostBuf, devBuf, d0), acts).value;
      s.dev.state == Stored(d0, addr, data) && s.h2d == [] && s.d2h == [] && AllAcks(s.host.history)
  {
    hide UploadCalls, PerformCalls, Run, Initial, Stuck, AllAcks, RawOf, InLockstep, HonestStrategy, Perform;
    var calls := UploadCalls(addr, data);
    var s := Run(pl, Script(calls), Initial(hostBuf, devBuf, d0), acts).value;
    UploadIsHonest(addr, data);
    ScriptIsHonest(calls);
    EveryRunIsSafe(pl, Script(calls), d0, hostBuf, devBuf, acts);
    forall i | 0 <= i <= |calls|
      ensures PerformCalls(pl, d0, calls[..i]).Some? && AllAcks(PerformCalls(pl, d0, calls[..i]).value.1)
    {
      UploadLength(addr, data);
      UploadPrefix(pl, d0, addr, data, i);
    }
    ScriptRunsToItsEnd(pl, calls, d0, s);
    UploadIsOneCopy(pl, d0, addr, data);
  }

  lemma UploadLength(addr: u32, data: seq<u8>)
    requires addr + |data| <= 0x1_0000_0000
    ensures |UploadCalls(addr, data)| == ChunkCount(|data|)
  {
  }

  lemma UploadIsHonest(addr: u32, data: seq<u8>)
    requires addr + |data| <= 0x1_0000_0000
    ensures HonestCalls(UploadCalls(addr, data))
  {
    hide UploadCall, ChunkCount, Upto;
    forall k | 0 <= k < ChunkCount(|data|)
      ensures Honest(UploadCall(addr, data, k).request)
    {
      UploadCallIs(addr, data, k);
    }
  }

  lemma DownloadIsHonest(addr: u32, len: u32)
    requires addr + len <= 0x1_0000_0000
    ensures HonestCalls(DownloadCalls(addr, len)) && |DownloadCalls(addr, len)| == ChunkCount(len)
  {
    hide DownloadCall, ChunkCount, Upto;
    forall k | 0 <= k < ChunkCount(len)
      ensures Honest(DownloadCall(addr, len, k).request)
    {
      UptoIsBounded(k, len);
      DownloadCallIs(addr, len, k);
    }
  }

  lemma UptoIsBounded(i: nat, n: nat)
    ensures Upto(i + 1, n) <= n
  {
  }

  /** Every interleaving of a download ends with the host holding exactly the range, and the device as it was. */
  lemma DownloadEndToEnd(pl: bool, d0: DeviceState, addr: u32, len: u32, hostBuf: seq<u8>, devBuf: seq<u8>,
                         acts: seq<Action>)
    requires |hostBuf| == BUF_SIZE && |devBuf| == BUF_SIZE && addr + len <= 0x1_0000_0000
    requires
      var end := Run(pl, Script(DownloadCalls(addr, len)), Initial(hostBuf, devBuf, d0), acts);
      end.Some? && Stuck(end.value)
    ensures
      var s := Run(pl, Script(DownloadCalls(addr, len)), Initial(hostBuf, devBuf, d0), acts).value;
      RawOf(s.host.history) == Slice(d0.mem, addr, len) && s.dev.state == d0 && s.h2d == [] && s.d2h == []
  {
    hide DownloadCalls, PerformCalls, Run, Initial, Stuck, AllAcks, RawOf, InLockstep, HonestStrategy, Perform, Slice;
    var calls := DownloadCalls(addr, len);
    var s := Run(pl, Script(calls), Initial(hostBuf, devBuf, d0), acts).value;
    DownloadIsHonest(addr, len);
    ScriptIsHonest(calls);
    EveryRunIsSafe(pl, Script(calls), d0, hostBuf, devBuf, acts);
    forall i | 0 <= i <= |calls|
      ensures PerformCalls(pl, d0, calls[..i]).Some? && AllAcks(PerformCalls(pl, d0, calls[..i]).value.1)
    {
      DownloadPrefix(pl, d0, addr, len, i);
    }
    ScriptRunsToItsEnd(pl, calls, d0, s);
    DownloadIsOneRead(pl, d0, addr, len);
  }
}
