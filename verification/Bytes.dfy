/** Fixed-width integers and the flat byte memory shared by every component. */
module Bytes {

  type u8 = x: int | 0 <= x < 0x100
  type u16 = x: int | 0 <= x < 0x1_0000
  type u32 = x: int | 0 <= x < 0x1_0000_0000

  const U32_MAX: u32 := 0xFFFF_FFFF

  datatype Option<+T> = None | Some(value: T) {
    predicate IsFailure() { None? }
    function PropagateFailure<U>(): Option<U>
      requires None?
    {
      None
    }
    function Extract(): T
      requires Some?
    {
      value
    }
  }

  /** Addition of words as the machine performs it. */
  function WrappingAdd(a: u32, b: u32): u32 {
    if a + b > U32_MAX then a + b - 0x1_0000_0000 else a + b
  }

  lemma ConcatAssoc<T>(a: seq<T>, b: seq<T>, c: seq<T>)
    ensures (a + b) + c == a + (b + c)
  {
  }

  /** `x & !3` and `x & !7` on unsigned words. */
  function AlignDown(x: int, align: int): int
    requires align > 0
  {
    x - x % align
  }

  /** Remainders from an explicit quotient. */
  lemma Mod4(q: int, r: int)
    requires 0 <= r < 4
    ensures (4 * q + r) % 4 == r
  {
  }

  lemma Mod2(q: int, r: int)
    requires 0 <= r < 2
    ensures (2 * q + r) % 2 == r
  {
  }

  /** Byte memory; an address that was never written reads as zero. */
  type Mem = map<int, u8>

  function Get(m: Mem, a: int): u8 {
    if a in m then m[a] else 0
  }

  function Get16(m: Mem, a: int): u16 {
    Get(m, a) + 0x100 * Get(m, a + 1)
  }

  function Get32(m: Mem, a: int): u32 {
    Get16(m, a) + 0x1_0000 * Get16(m, a + 2)
  }

  /** Memory `m` with the bytes `bs` written from address `a` upwards. */
  function Overlay(m: Mem, a: int, bs: seq<u8>): (r: Mem)
    ensures forall x :: Get(r, x) == if a <= x < a + |bs| then bs[x - a] else Get(m, x)
    ensures bs == [] ==> r == m
    decreases bs
  {
    if bs == [] then m else Overlay(m[a := bs[0]], a + 1, bs[1..])
  }

  /** The `n` bytes of `m` starting at `a`. */
  function Slice(m: Mem, a: int, n: nat): (r: seq<u8>)
    ensures |r| == n
    ensures forall i :: 0 <= i < n ==> r[i] == Get(m, a + i)
  {
    seq<u8>(n, i => Get(m, a + i))
  }

  /** Two writes that follow each other are one write of the concatenation. */
  lemma {:induction false} OverlayAppend(m: Mem, a: int, x: seq<u8>, y: seq<u8>)
    ensures Overlay(Overlay(m, a, x), a + |x|, y) == Overlay(m, a, x + y)
    decreases x
  {
    if x == [] {
      assert x + y == y;
    } else {
      OverlayAppend(m[a := x[0]], a + 1, x[1..], y);
      assert (x + y)[1..] == x[1..] + y;
    }
  }

  ghost predicate SameOutside(m: Mem, m': Mem, lo: int, hi: int) {
    forall x {:trigger Get(m', x)} :: !(lo <= x < hi) ==> Get(m', x) == Get(m, x)
  }

  ghost predicate SameOn(m: Mem, m': Mem, lo: int, hi: int) {
    forall x {:trigger Get(m', x)} :: lo <= x < hi ==> Get(m', x) == Get(m, x)
  }

  predicate Disjoint(a: int, aEnd: int, b: int, bEnd: int) {
    aEnd <= b || bEnd <= a
  }

  // ----- little-endian halfwords and words -----

  function LeBytes(hs: seq<u16>): (r: seq<u8>)
    ensures |r| == 2 * |hs|
  {
    seq<u8>(2 * |hs|, j requires 0 <= j < 2 * |hs| =>
      if j % 2 == 0 then hs[j / 2] % 0x100 else hs[j / 2] / 0x100)
  }

  lemma LeBytesAppend(x: seq<u16>, y: seq<u16>)
    ensures LeBytes(x + y) == LeBytes(x) + LeBytes(y)
  {
  }

  /** Memory with the halfwords `hs` stored little-endian from `a` upwards. */
  function PutHalves(m: Mem, a: int, hs: seq<u16>): Mem {
    Overlay(m, a, LeBytes(hs))
  }

  lemma PutHalvesAppend(m: Mem, a: int, x: seq<u16>, y: seq<u16>)
    ensures PutHalves(PutHalves(m, a, x), a + 2 * |x|, y) == PutHalves(m, a, x + y)
  {
    LeBytesAppend(x, y);
    OverlayAppend(m, a, LeBytes(x), LeBytes(y));
  }

  predicate HalvesAt(m: Mem, a: int, hs: seq<u16>) {
    forall i :: 0 <= i < |hs| ==> Get16(m, a + 2 * i) == hs[i]
  }

  lemma PutHalvesAt(m: Mem, a: int, hs: seq<u16>)
    ensures HalvesAt(PutHalves(m, a, hs), a, hs)
    ensures SameOutside(m, PutHalves(m, a, hs), a, a + 2 * |hs|)
  {
  }

  lemma HalvesAtSplit(m: Mem, a: int, x: seq<u16>, y: seq<u16>)
    requires HalvesAt(m, a, x + y)
    ensures HalvesAt(m, a, x)
    ensures HalvesAt(m, a + 2 * |x|, y)
  {
    forall i | 0 <= i < |x|
      ensures Get16(m, a + 2 * i) == x[i]
    {
      assert (x + y)[i] == x[i];
    }
    forall i | 0 <= i < |y|
      ensures Get16(m, a + 2 * |x| + 2 * i) == y[i]
    {
      assert (x + y)[|x| + i] == y[i];
    }
  }

  function Put32(m: Mem, a: int, v: u32): Mem {
    PutHalves(m, a, [v % 0x1_0000, v / 0x1_0000])
  }

  lemma Put32Reads(m: Mem, a: int, v: u32)
    ensures Get32(Put32(m, a, v), a) == v
    ensures SameOutside(m, Put32(m, a, v), a, a + 4)
    ensures forall b :: Disjoint(a, a + 4, b, b + 4) ==> Get32(Put32(m, a, v), b) == Get32(m, b)
  {
    var hs := [v % 0x1_0000, v / 0x1_0000];
    PutHalvesAt(m, a, hs);
    assert Get16(Put32(m, a, v), a + 2 * 0) == hs[0] && Get16(Put32(m, a, v), a + 2 * 1) == hs[1];
  }

  lemma Get32Same(m: Mem, m': Mem, a: int)
    requires SameOn(m, m', a, a + 4)
    ensures Get32(m', a) == Get32(m, a)
  {
  }

  // ----- big-endian words, as sent on the wire -----

  function Be32(v: u32): (r: seq<u8>)
    ensures |r| == 4
  {
    var hi := v / 0x1_0000;
    var lo := v % 0x1_0000;
    [hi / 0x100, hi % 0x100, lo / 0x100, lo % 0x100]
  }

  function FromBe32(b: seq<u8>): u32
    requires |b| == 4
  {
    0x1_0000 * (0x100 * b[0] as int + b[1] as int) + (0x100 * b[2] as int + b[3] as int)
  }

  lemma Be32RoundTrip(v: u32)
    ensures FromBe32(Be32(v)) == v
  {
  }
}
