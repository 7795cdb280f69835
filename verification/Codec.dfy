/** Messages and responses, and their wire encoding: the postcard format's variable-length integers,
    tagged unions numbered in declaration order, and options. */
module Codec {
  import opened Bytes
  import Params

  datatype HookId = MtPartGenericRead

  datatype PreloaderRunnerParams = PreloaderRunnerParams(ptrBldrJump: u32) {
    predicate IsValid() { ptrBldrJump != 0 }
  }

  datatype LKRunnerParams = LKRunnerParams(ptrMtPartGenericRead: u32, ptrMtPartGetPartition: u32,
                                           bootimgScratchAddr: u32) {
    predicate IsValid() {
      ptrMtPartGenericRead != 0 && ptrMtPartGetPartition != 0 && bootimgScratchAddr != 0
    }
  }

  datatype ParamsType = Preloader(pl: PreloaderRunnerParams) | LK(lk: LKRunnerParams)

  datatype Message =
    | Ack
    | Read(addr: u32, size: u32)
    | Write(addr: u32, size: u32)
    | FlushCache(addr: u32, size: u32)
    | Jump(addr: u32, r0: Option<u32>, r1: Option<u32>)
    | Reset
    | Hook(id: HookId)
    | GetFreeRange(size: u32)
    | BlacklistRange(range: Params.MemoryRange)
    | SetParams(params: ParamsType)

  datatype ProtocolError = NotSupported | Unreachable | DownloadForbidden | InvalidParams

  datatype Response = Ack | Nack(error: ProtocolError) | Range(start: Option<u32>)

  const BUF_SIZE: nat := 24

  /** A value read off the front of a byte sequence, and the bytes after it. */
  type Taken<+T> = Option<(T, seq<u8>)>

  // ----- variable-length integers -----

  const VARINT_MAX: nat := 5

  function Varint(v: nat): seq<u8> {
    if v < 0x80 then [v] else [v % 0x80 + 0x80] + Varint(v / 0x80)
  }

  /** One more than the largest value `n` bytes may hold; the last byte of five holds four bits. */
  function VarintLimit(n: nat): nat {
    if n == 0 then 0 else if n == 1 then 16 else 0x80 * VarintLimit(n - 1)
  }

  function TakeVarint(b: seq<u8>, n: nat): (r: Taken<nat>)
    ensures r.Some? ==> r.value.0 < VarintLimit(n)
    decreases n
  {
    if n == 0 || b == [] then None
    else if b[0] < 0x80 then
      if n == 1 && b[0] > 15 then None else
      LimitAtLeast(n);
      Some((b[0], b[1..]))
    else
      var (high, rest) :- TakeVarint(b[1..], n - 1);
      Some((b[0] - 0x80 + 0x80 * high, rest))
  }

  lemma LimitAtLeast(n: nat)
    ensures n >= 1 ==> VarintLimit(n) >= 16
    ensures n >= 2 ==> VarintLimit(n) >= 0x80
  {
  }

  lemma LimitFive()
    ensures VarintLimit(5) == 0x1_0000_0000
  {
    assert VarintLimit(2) == 0x800;
    assert VarintLimit(3) == 0x4_0000;
    assert VarintLimit(4) == 0x200_0000;
  }

  function TakeU32(b: seq<u8>): Taken<u32> {
    LimitFive();
    TakeVarint(b, VARINT_MAX)
  }

  lemma {:induction false} VarintRoundTrip(v: nat, n: nat, junk: seq<u8>)
    requires v < VarintLimit(n)
    ensures TakeVarint(Varint(v) + junk, n) == Some((v, junk))
    ensures 1 <= |Varint(v)| <= n
  {
    var b := Varint(v) + junk;
    if v < 0x80 {
      assert b[1..] == junk;
    } else {
      VarintRoundTrip(v / 0x80, n - 1, junk);
      assert b[1..] == Varint(v / 0x80) + junk;
    }
  }

  lemma U32RoundTrip(v: u32, junk: seq<u8>)
    ensures TakeU32(Varint(v) + junk) == Some((v, junk))
    ensures 1 <= |Varint(v)| <= 5
  {
    LimitFive();
    VarintRoundTrip(v, VARINT_MAX, junk);
  }

  // ----- options -----

  function OptionBytes(o: Option<u32>): seq<u8> {
    match o
    case None => [0]
    case Some(v) => [1] + Varint(v)
  }

  function TakeOption(b: seq<u8>): Taken<Option<u32>> {
    if b == [] then None
    else if b[0] == 0 then Some((None, b[1..]))
    else if b[0] == 1 then
      var (v, rest) :- TakeU32(b[1..]);
      Some((Some(v), rest))
    else None
  }

  lemma OptionRoundTrip(o: Option<u32>, junk: seq<u8>)
    ensures TakeOption(OptionBytes(o) + junk) == Some((o, junk))
    ensures 1 <= |OptionBytes(o)| <= 6
  {
    hide Varint, TakeU32;
    match o
    case None =>
      assert ([0] + junk)[1..] == junk;
    case Some(v) =>
      U32RoundTrip(v, junk);
      assert (OptionBytes(o) + junk)[1..] == Varint(v) + junk;
  }

  /** Two integers in a row. */
  function PairBytes(x: u32, y: u32): seq<u8> {
    Varint(x) + Varint(y)
  }

  function TakePair(b: seq<u8>): Taken<(u32, u32)> {
    var (x, b1) :- TakeU32(b);
    var (y, b2) :- TakeU32(b1);
    Some(((x, y), b2))
  }

  lemma PairRoundTrip(x: u32, y: u32, junk: seq<u8>)
    ensures TakePair(PairBytes(x, y) + junk) == Some(((x, y), junk))
    ensures 2 <= |PairBytes(x, y)| <= 10
  {
    hide Varint, TakeU32;
    U32RoundTrip(x, Varint(y) + junk);
    U32RoundTrip(y, junk);
    ConcatAssoc(Varint(x), Varint(y), junk);
  }

  // ----- messages -----

  function ParamsBytes(p: ParamsType): seq<u8> {
    match p
    case Preloader(pl) => [0] + Varint(pl.ptrBldrJump)
    case LK(lk) => [1] + PairBytes(lk.ptrMtPartGenericRead, lk.ptrMtPartGetPartition) + Varint(lk.bootimgScratchAddr)
  }

  function TakeParams(b: seq<u8>): Taken<ParamsType> {
    var (tag, b1) :- TakeU32(b);
    if tag == 0 then
      var (ptr, b2) :- TakeU32(b1);
      Some((Preloader(PreloaderRunnerParams(ptr)), b2))
    else if tag == 1 then
      var (pair, b2) :- TakePair(b1);
      var (scratch, b3) :- TakeU32(b2);
      Some((LK(LKRunnerParams(pair.0, pair.1, scratch)), b3))
    else None
  }

  /** The position of the variant in its declaration. */
  function Tag(m: Message): u8 {
    match m
    case Ack => 0
    case Read(_, _) => 1
    case Write(_, _) => 2
    case FlushCache(_, _) => 3
    case Jump(_, _, _) => 4
    case Reset => 5
    case Hook(_) => 6
    case GetFreeRange(_) => 7
    case BlacklistRange(_) => 8
    case SetParams(_) => 9
  }

  function BodyBytes(m: Message): seq<u8> {
    match m
    case Ack | Reset => []
    case Read(addr, size) => PairBytes(addr, size)
    case Write(addr, size) => PairBytes(addr, size)
    case FlushCache(addr, size) => PairBytes(addr, size)
    case Jump(addr, r0, r1) => Varint(addr) + (OptionBytes(r0) + OptionBytes(r1))
    case Hook(MtPartGenericRead) => [0]
    case GetFreeRange(size) => Varint(size)
    case BlacklistRange(range) => PairBytes(range.start, range.end)
    case SetParams(params) => ParamsBytes(params)
  }

  function MessageBytes(m: Message): seq<u8> {
    [Tag(m)] + BodyBytes(m)
  }

  function TakeBody(tag: u32, b: seq<u8>): Taken<Message> {
    if tag == 0 then Some((Message.Ack, b))
    else if tag == 1 then var (p, rest) :- TakePair(b); Some((Read(p.0, p.1), rest))
    else if tag == 2 then var (p, rest) :- TakePair(b); Some((Write(p.0, p.1), rest))
    else if tag == 3 then var (p, rest) :- TakePair(b); Some((FlushCache(p.0, p.1), rest))
    else if tag == 4 then
      var (addr, b1) :- TakeU32(b);
      var (r0, b2) :- TakeOption(b1);
      var (r1, b3) :- TakeOption(b2);
      Some((Jump(addr, r0, r1), b3))
    else if tag == 5 then Some((Reset, b))
    else if tag == 6 then
      var (id, rest) :- TakeU32(b);
      if id == 0 then Some((Hook(MtPartGenericRead), rest)) else None
    else if tag == 7 then var (size, rest) :- TakeU32(b); Some((GetFreeRange(size), rest))
    else if tag == 8 then
      var (p, rest) :- TakePair(b);
      Some((BlacklistRange(Params.MemoryRange(p.0, p.1)), rest))
    else if tag == 9 then var (params, rest) :- TakeParams(b); Some((SetParams(params), rest))
    else None
  }

  /** Decodes from the front; whatever follows the message is ignored. */
  function DecodeMessage(b: seq<u8>): Option<Message> {
    var (tag, b1) :- TakeU32(b);
    var (m, _) :- TakeBody(tag, b1);
    Some(m)
  }

  lemma TagRoundTrip(tag: u8, rest: seq<u8>)
    requires tag < 0x80
    ensures TakeU32([tag] + rest) == Some((tag, rest))
  {
    hide TakeU32;
    assert Varint(tag) == [tag];
    U32RoundTrip(tag, rest);
  }

  lemma ParamsRoundTrip(p: ParamsType, junk: seq<u8>)
    ensures TakeParams(ParamsBytes(p) + junk) == Some((p, junk))
    ensures 1 <= |ParamsBytes(p)| <= 16
  {
    hide Varint, TakeU32, TakePair, PairBytes;
    match p
    case Preloader(pl) =>
      U32RoundTrip(pl.ptrBldrJump, junk);
      TagRoundTrip(0, Varint(pl.ptrBldrJump) + junk);
      ConcatAssoc([0], Varint(pl.ptrBldrJump), junk);
    case LK(lk) =>
      var pair := PairBytes(lk.ptrMtPartGenericRead, lk.ptrMtPartGetPartition);
      var scratch := Varint(lk.bootimgScratchAddr);
      U32RoundTrip(lk.bootimgScratchAddr, junk);
      PairRoundTrip(lk.ptrMtPartGenericRead, lk.ptrMtPartGetPartition, scratch + junk);
      TagRoundTrip(1, pair + (scratch + junk));
      assert ParamsBytes(p) + junk == [1] + (pair + (scratch + junk));
  }

  lemma BodyRoundTrip(m: Message, junk: seq<u8>)
    ensures TakeBody(Tag(m), BodyBytes(m) + junk) == Some((m, junk))
    ensures |BodyBytes(m)| <= 17
  {
    hide Varint, TakeU32, TakePair, PairBytes, TakeOption, OptionBytes, TakeParams, ParamsBytes;
    match m
    case Ack | Reset =>
      assert [] + junk == junk;
    case Read(addr, size) => PairRoundTrip(addr, size, junk);
    case Write(addr, size) => PairRoundTrip(addr, size, junk);
    case FlushCache(addr, size) => PairRoundTrip(addr, size, junk);
    case Jump(addr, r0, r1) =>
      var o0, o1 := OptionBytes(r0), OptionBytes(r1);
      OptionRoundTrip(r1, junk);
      OptionRoundTrip(r0, o1 + junk);
      U32RoundTrip(addr, o0 + (o1 + junk));
      assert BodyBytes(m) + junk == Varint(addr) + (o0 + (o1 + junk));
    case Hook(MtPartGenericRead) => TagRoundTrip(0, junk);
    case GetFreeRange(size) => U32RoundTrip(size, junk);
    case BlacklistRange(range) => PairRoundTrip(range.start, range.end, junk);
    case SetParams(params) => ParamsRoundTrip(params, junk);
  }

  /** Codec round trip despite stale buffer bytes, and every message fits the buffer (18 bytes at worst). */
  lemma MessageRoundTrip(m: Message, junk: seq<u8>)
    ensures DecodeMessage(MessageBytes(m) + junk) == Some(m)
    ensures 1 <= |MessageBytes(m)| <= 18
  {
    hide BodyBytes, TakeBody, TakeU32;
    BodyRoundTrip(m, junk);
    TagRoundTrip(Tag(m), BodyBytes(m) + junk);
    ConcatAssoc([Tag(m)], BodyBytes(m), junk);
  }

  // ----- responses -----

  function ErrorTag(e: ProtocolError): u8 {
    match e
    case NotSupported => 0
    case Unreachable => 1
    case DownloadForbidden => 2
    case InvalidParams => 3
  }

  function ResponseBytes(r: Response): seq<u8> {
    match r
    case Ack => [0]
    case Nack(e) => [1] + [ErrorTag(e)]
    case Range(start) => [2] + OptionBytes(start)
  }

  function TakeError(b: seq<u8>): Taken<ProtocolError> {
    var (tag, rest) :- TakeU32(b);
    if tag == 0 then Some((NotSupported, rest))
    else if tag == 1 then Some((Unreachable, rest))
    else if tag == 2 then Some((DownloadForbidden, rest))
    else if tag == 3 then Some((InvalidParams, rest))
    else None
  }

  function DecodeResponse(b: seq<u8>): Option<Response> {
    var (tag, b1) :- TakeU32(b);
    if tag == 0 then Some(Response.Ack)
    else if tag == 1 then var (e, _) :- TakeError(b1); Some(Nack(e))
    else if tag == 2 then var (start, _) :- TakeOption(b1); Some(Range(start))
    else None
  }

  /** The same for responses (7 bytes at worst). */
  lemma ResponseRoundTrip(r: Response, junk: seq<u8>)
    ensures DecodeResponse(ResponseBytes(r) + junk) == Some(r)
    ensures 1 <= |ResponseBytes(r)| <= 7
  {
    hide TakeU32, TakeOption, OptionBytes;
    match r
    case Ack => TagRoundTrip(0, junk);
    case Nack(e) =>
      TagRoundTrip(1, [ErrorTag(e)] + junk);
      TagRoundTrip(ErrorTag(e), junk);
      ConcatAssoc([1], [ErrorTag(e)], junk);
    case Range(start) =>
      OptionRoundTrip(start, junk);
      TagRoundTrip(2, OptionBytes(start) + junk);
      ConcatAssoc([2], OptionBytes(start), junk);
  }

  /** The handshake: the host answers the device's `Message::Ack` with a `Message::Ack`, which the
      device decodes as a response, and it reads as `Response::Ack`. */
  lemma AckReadsAsResponse(junk: seq<u8>)
    ensures DecodeResponse(MessageBytes(Message.Ack) + junk) == Some(Response.Ack)
  {
    assert MessageBytes(Message.Ack) == ResponseBytes(Response.Ack);
    ResponseRoundTrip(Response.Ack, junk);
  }

  /** A frame: big-endian length, then the bytes. */
  function Frame(body: seq<u8>): seq<u8>
    requires |body| <= BUF_SIZE
  {
    Be32(|body|) + body
  }
}
