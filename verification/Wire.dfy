/** The wire format spelled out: what a peer that knows only the format reads off the link. */
module Wire {
  import opened Bytes
  import opened Codec
  import opened DaProtocol
  import Params

  /** The number that groups of seven bits stand for, the least significant first. */
  function Worth(b: seq<u8>): nat {
    if b == [] then 0 else b[0] % 0x80 + 0x80 * Worth(b[1..])
  }

  /** An integer is written as such groups, all but the last marked by the top bit, and as few as will do. */
  lemma {:induction false} VarintIs(v: nat)
    ensures
      var b := Varint(v);
      && b != [] && Worth(b) == v
      && (forall i :: 0 <= i < |b| - 1 ==> b[i] >= 0x80) && b[|b| - 1] < 0x80
      && (|b| > 1 ==> b[|b| - 1] != 0)
  {
    if v >= 0x80 {
      VarintIs(v / 0x80);
      var b, rest := Varint(v), Varint(v / 0x80);
      assert b[1..] == rest;
      assert forall i :: 0 < i < |b| ==> b[i] == rest[i - 1];
      assert b[0] % 0x80 == v % 0x80;
    } else {
      assert Varint(v)[1..] == [];
    }
  }

  /** `p` spells the 32-bit integer `v`: groups of seven bits, marked but for the last, at most five, of which the
      fifth holds four bits. It need not be the shortest spelling. */
  predicate Spells(p: seq<u8>, v: nat, limit: nat) {
    && 1 <= |p| <= limit && Worth(p) == v
    && (forall i :: 0 <= i < |p| - 1 ==> p[i] >= 0x80) && p[|p| - 1] < 0x80
    && (|p| == limit ==> p[|p| - 1] <= 15)
  }

  lemma {:induction false} TakeVarintReads(b: seq<u8>, n: nat) returns (p: seq<u8>)
    requires TakeVarint(b, n).Some?
    ensures Spells(p, TakeVarint(b, n).value.0, n) && b == p + TakeVarint(b, n).value.1
    decreases n
  {
    if b[0] < 0x80 {
      p := [b[0]];
      assert p[1..] == [];
    } else {
      var q := TakeVarintReads(b[1..], n - 1);
      p := [b[0]] + q;
      assert p[1..] == q;
    }
  }

  lemma {:induction false} TakeVarintAccepts(p: seq<u8>, v: nat, rest: seq<u8>, n: nat)
    requires Spells(p, v, n)
    ensures TakeVarint(p + rest, n) == Some((v, rest))
    decreases n
  {
    var b := p + rest;
    assert b[0] == p[0];
    if |p| == 1 {
      assert b[1..] == rest && p[1..] == [] && Worth(p[1..]) == 0;
      assert Worth(p) == p[0];
    } else {
      var q := p[1..];
      assert b[1..] == q + rest;
      assert q[|q| - 1] == p[|p| - 1];
      TakeVarintAccepts(q, Worth(q), rest, n - 1);
    }
  }

  /** An integer is read exactly where one is spelled, and that spelling is consumed; anything else, cut short or
      too long, is refused. */
  lemma IntegersExactly(b: seq<u8>, v: u32, rest: seq<u8>)
    ensures TakeU32(b) == Some((v, rest)) <==> exists p :: Spells(p, v, 5) && b == p + rest
  {
    hide TakeVarint, Spells;
    if TakeU32(b) == Some((v, rest)) {
      var p := TakeVarintReads(b, 5);
      assert Spells(p, v, 5) && b == p + rest;
    }
    if exists p :: Spells(p, v, 5) && b == p + rest {
      var p :| Spells(p, v, 5) && b == p + rest;
      TakeVarintAccepts(p, v, rest, 5);
    }
  }

  /** Nothing else is taken for a message: what is decoded starts with the number of its variant, and a number
      that is no variant's, of a message, a hook or a kind of parameters, is refused. */
  lemma OnlyMessagesDecode(b: seq<u8>)
    ensures DecodeMessage(b).Some? ==> TakeU32(b).Some? && TakeU32(b).value.0 == Tag(DecodeMessage(b).value) as int
    ensures TakeU32(b).None? || TakeU32(b).value.0 > 9 ==> DecodeMessage(b) == None
    ensures TakeU32(b).Some? && TakeU32(b).value.0 == 6 ==>
              var id := TakeU32(TakeU32(b).value.1);
              DecodeMessage(b).Some? <==> id.Some? && id.value.0 == 0
    ensures TakeU32(b).Some? && TakeU32(b).value.0 == 9 && DecodeMessage(b).Some? ==>
              var kind := TakeU32(TakeU32(b).value.1);
              kind.Some? && kind.value.0 == (if DecodeMessage(b).value.params.Preloader? then 0 else 1)
  {
    hide TakeU32, TakePair, TakeOption;
  }

  /** Nor for a response, an error or an option. */
  lemma OnlyResponsesDecode(b: seq<u8>)
    ensures match DecodeResponse(b)
            case None => true
            case Some(Ack) => TakeU32(b).Some? && TakeU32(b).value.0 == 0
            case Some(Nack(e)) =>
              && TakeU32(b).Some? && TakeU32(b).value.0 == 1
              && var tag := TakeU32(TakeU32(b).value.1);
                 tag.Some? && tag.value.0 == (match e case NotSupported => 0 case Unreachable => 1
                                                      case DownloadForbidden => 2 case InvalidParams => 3)
            case Some(Range(start)) =>
              && TakeU32(b).Some? && TakeU32(b).value.0 == 2
              && var o := TakeU32(b).value.1;
                 o != [] && o[0] == (if start.Some? then 1 else 0)
                 && (start.Some? ==> TakeU32(o[1..]).Some? && TakeU32(o[1..]).value.0 == start.value)
  {
    hide TakeU32;
  }

  /** A message is its position in the declaration, then its fields in order. */
  lemma MessagesOnTheWire(x: u32, y: u32)
    ensures MessageBytes(Message.Ack) == [0] && MessageBytes(Reset) == [5]
    ensures MessageBytes(Read(x, y)) == [1] + Varint(x) + Varint(y)
    ensures MessageBytes(Write(x, y)) == [2] + Varint(x) + Varint(y)
    ensures MessageBytes(FlushCache(x, y)) == [3] + Varint(x) + Varint(y)
    ensures MessageBytes(Hook(MtPartGenericRead)) == [6, 0]
    ensures MessageBytes(GetFreeRange(x)) == [7] + Varint(x)
    ensures MessageBytes(BlacklistRange(Params.MemoryRange(x, y))) == [8] + Varint(x) + Varint(y)
  {
    hide Varint;
    ConcatAssoc([1], Varint(x), Varint(y));
    ConcatAssoc([2], Varint(x), Varint(y));
    ConcatAssoc([3], Varint(x), Varint(y));
    ConcatAssoc([8], Varint(x), Varint(y));
  }

  /** An option is a 0, or a 1 and its value. */
  lemma JumpOnTheWire(x: u32, r0: Option<u32>, r1: Option<u32>)
    ensures MessageBytes(Jump(x, r0, r1)) == [4] + (Varint(x) + (
                  (match r0 case None => [0] case Some(y) => [1] + Varint(y))
                + (match r1 case None => [0] case Some(z) => [1] + Varint(z))))
  {
    hide Varint;
  }

  lemma ParamsOnTheWire(x: u32, y: u32, z: u32)
    ensures MessageBytes(SetParams(Preloader(PreloaderRunnerParams(x)))) == [9] + ([0] + Varint(x))
    ensures MessageBytes(SetParams(LK(LKRunnerParams(x, y, z)))) == [9] + ([1] + (Varint(x) + Varint(y)) + Varint(z))
  {
    hide Varint;
  }

  /** So is a response; the tag is the position, although the source gives the first variant the value 0xDA. */
  lemma ResponsesOnTheWire(x: u32)
    ensures ResponseBytes(Response.Ack) == [0]
    ensures ResponseBytes(Nack(NotSupported)) == [1, 0] && ResponseBytes(Nack(Unreachable)) == [1, 1]
    ensures ResponseBytes(Nack(DownloadForbidden)) == [1, 2] && ResponseBytes(Nack(InvalidParams)) == [1, 3]
    ensures ResponseBytes(Range(None)) == [2, 0] && ResponseBytes(Range(Some(x))) == [2, 1] + Varint(x)
  {
    hide Varint;
  }

  /** A frame starts with its length, most significant byte first. Up to 24 bytes are taken; a longer one stops
      the reader. */
  lemma FramesOnTheWire(body: seq<u8>, rest: seq<u8>, buf: seq<u8>)
    requires |buf| == BUF_SIZE && |body| <= 0x100
    ensures |body| <= 24 <==> |body| <= BUF_SIZE
    ensures |body| <= 24 ==> Frame(body) == [0, 0, 0, |body|] + body
    ensures
      var inbox := [0, 0, |body| / 0x100, |body| % 0x100] + body + rest;
      && Arrived(inbox)
      && (if |body| <= 24 then TakeFrame(inbox, buf) == Some((body + buf[|body|..], rest))
          else TakeFrame(inbox, buf) == None)
  {
    var length: seq<u8> := [0, 0, |body| / 0x100, |body| % 0x100];
    var inbox := length + body + rest;
    assert inbox[..4] == length;
    assert inbox[4..4 + |body|] == body && inbox[4 + |body|..] == rest;
  }
}
