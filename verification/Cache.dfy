/** Cache maintenance by virtual address on 64-byte lines. */
module Cache {
  import opened Bits
  import opened Bytes

  const LINE := 64

  /** Line `l` holds at least one byte of [start, start + size). */
  predicate Meets(l: int, start: int, size: int) {
    size > 0 && l * LINE < start + size && start < l * LINE + LINE
  }

  function LineRange(lo: int, hi: int): (r: seq<int>)
    ensures |r| == if lo < hi then hi - lo else 0
    ensures forall i :: 0 <= i < |r| ==> r[i] == lo + i
  {
    seq(if lo < hi then hi - lo else 0, i => lo + i)
  }

  /** The end of the range before it is rounded down; the sum may wrap around. */
  function RoundedEnd(start: u32, size: u32): u32 {
    WrappingAdd(WrappingAdd(start, size), LINE - 1)
  }

  /** The lines `flush_dcache` cleans. */
  function DcacheLines(start: u32, size: u32): seq<int> {
    LineRange(start / LINE, RoundedEnd(start, size) / LINE)
  }

  /** The lines `flush_cache` cleans: it rounds the start down before adding the size. */
  function CacheLines(start: u32, size: u32): seq<int> {
    DcacheLines(AlignDown(start, LINE), size)
  }

  /** The maintenance operations the processor has performed, as line numbers. */
  class Maintenance {
    var cleaned: seq<int>

    constructor ()
      ensures cleaned == []
    {
      cleaned := [];
    }

    method FlushDcache(start: u32, size: u32)
      modifies this
      ensures cleaned == old(cleaned) + DcacheLines(start, size)
    {
      hide And;
      AlignMasks(RoundedEnd(start, size));
      var end: u32 := And(WrappingAdd(WrappingAdd(start, size), LINE - 1), 0xFFFF_FFC0);
      assert end == RoundedEnd(start, size) / LINE * LINE;
      var addr: u32 := start;
      ghost var n := 0;
      while addr < end
        invariant addr == start + LINE * n
        invariant start / LINE + n <= end / LINE || n == 0
        invariant cleaned == old(cleaned) + LineRange(start / LINE, start / LINE + n)
        decreases end - addr
      {
        cleaned := cleaned + [addr / LINE];
        addr := addr + LINE;
        n := n + 1;
      }
    }

    method FlushCache(start: u32, size: u32)
      modifies this
      ensures cleaned == old(cleaned) + CacheLines(start, size)
    {
      hide And;
      AlignMasks(start);
      FlushDcache(And(start, 0xFFFF_FFC0), size);
    }
  }

  /** `flush_dcache` of a nonempty range cleans, once each and in ascending order, exactly the lines
      that hold one of its bytes, if and only if the rounded end does not wrap around. */
  lemma DcacheCoversExactly(start: u32, size: u32)
    requires size > 0 && start + size <= 0x1_0000_0000
    ensures (forall l :: l in DcacheLines(start, size) <==> Meets(l, start, size))
       <==> start + size + LINE - 1 <= U32_MAX
    ensures
      var lines := DcacheLines(start, size);
      forall i, j :: 0 <= i < j < |lines| ==> lines[i] < lines[j]
  {
    var lines := DcacheLines(start, size);
    if start + size + LINE - 1 <= U32_MAX {
      forall l
        ensures l in lines <==> Meets(l, start, size)
      {
        if Meets(l, start, size) {
          assert lines[l - start / LINE] == l;
        }
      }
    } else {
      assert RoundedEnd(start, size) / LINE == 0;
      assert Meets(start / LINE, start, size) && start / LINE !in lines;
    }
  }

  /** `flush_cache` cleans as many lines as the size alone needs, from the line of the start on, or none
      if the sum wraps around. */
  lemma CacheLinesFrom(start: u32, size: u32)
    ensures
      var first := start / LINE;
      if first * LINE + size + LINE - 1 <= U32_MAX then
        CacheLines(start, size) == LineRange(first, first + (size + LINE - 1) / LINE)
      else CacheLines(start, size) == []
  {
    var first := start / LINE;
    assert AlignDown(start, LINE) == first * LINE;
    if first * LINE + size + LINE - 1 <= U32_MAX {
      assert (first * LINE + size + LINE - 1) / LINE == first + (size + LINE - 1) / LINE;
    }
  }

  /** Exactly when `flush_cache` covers its request: the bytes from the start of the first line to the
      end of the request must not need more lines than the size rounded up, and nothing may wrap around. */
  lemma CacheCoversExactly(start: u32, size: u32)
    requires size > 0 && start + size <= 0x1_0000_0000
    ensures (forall l :: Meets(l, start, size) ==> l in CacheLines(start, size))
       <==> && start % LINE + size <= (size + LINE - 1) / LINE * LINE
            && start / LINE * LINE + size + LINE - 1 <= U32_MAX
  {
    CacheCoversPart(start, size, size);
  }

  /** The same for the first `part` bytes of the request. */
  lemma CacheCoversPart(start: u32, size: u32, part: u32)
    requires 0 < part <= size
    ensures (forall l :: Meets(l, start, part) ==> l in CacheLines(start, size))
       <==> && start % LINE + part <= (size + LINE - 1) / LINE * LINE
            && start / LINE * LINE + size + LINE - 1 <= U32_MAX
  {
    hide CacheLines;
    CacheLinesFrom(start, size);
    var lines := CacheLines(start, size);
    var first, n := start / LINE, (size + LINE - 1) / LINE;
    var last := (start + part - 1) / LINE;
    assert Meets(last, start, part) && Meets(first, start, part);
    if first * LINE + size + LINE - 1 <= U32_MAX {
      assert forall l :: l in lines <==> first <= l < first + n by {
        forall l | first <= l < first + n
          ensures l in lines
        {
          assert lines[l - first] == l;
        }
      }
      assert forall l :: Meets(l, start, part) ==> first <= l <= last;
    }
  }

  /** What hooking relies on: one 64-byte flush from an odd target cleans a `part`-byte patch at the
      even address below it if and only if the patch does not straddle a cache line (nor lies in the
      last line of the address space). */
  lemma PatchFlush(target: u32, part: u32)
    requires target % 2 == 0 && 0 < part <= LINE
    ensures (forall l :: Meets(l, target, part) ==> l in CacheLines(target + 1, LINE))
       <==> target % LINE + part <= LINE && target < 0xFFFF_FFC0
  {
    hide CacheLines;
    var q, r := target / LINE, target % LINE;
    Mod2(LINE / 2 * q + r / 2, r % 2);
    assert r % 2 == 0;
    assert (target + 1) / LINE == q && (target + 1) % LINE == r + 1;
    CacheLinesFrom(target, LINE);
    CacheLinesFrom(target + 1, LINE);
    CacheCoversPart(target, LINE, part);
  }

  /** The flush of the trampoline's buffer cleans the first `part` bytes, those of the trampoline, if and only
      if they do not straddle a cache line; the 48 bytes it can have do from 20 to 60 bytes into a line. */
  lemma TrampolineFlush(code: u32, part: u32)
    requires code % 4 == 0 && 0 < part <= LINE
    ensures (forall l :: Meets(l, code, part) ==> l in CacheLines(code, LINE))
       <==> code % LINE + part <= LINE && code < 0xFFFF_FFC0
    ensures part <= 48 && code % LINE < 20 && code < 0xFFFF_FFC0 ==>
              forall l :: Meets(l, code, part) ==> l in CacheLines(code, LINE)
  {
    hide CacheLines, Meets;
    assert code % LINE % 4 == 0 by {
      Mod4(LINE / 4 * (code / LINE) + code % LINE / 4, code % LINE % 4);
    }
    CacheCoversPart(code, LINE, part);
  }

  /** The flush of `revert` cleans every line of the `part` bytes it has restored if and only if they straddle
      none (nor lie in the last line of the address space). */
  lemma RevertFlush(target: u32, part: u32)
    requires 0 < part <= LINE
    ensures (forall l :: Meets(l, target, part) ==> l in CacheLines(target, part))
       <==> target % LINE + part <= LINE && target < 0xFFFF_FFC0
  {
    hide CacheLines, Meets;
    CacheCoversPart(target, part, part);
  }

  /** The conditions do fail: a request that straddles a line, a patch two bytes before one, and a trampoline
      of 48 bytes 20 bytes into one. */
  lemma FlushWitness()
    ensures !(forall l :: Meets(l, 62, 10) ==> l in CacheLines(62, 10))
    ensures !(forall l :: Meets(l, 62, 10) ==> l in CacheLines(63, LINE))
    ensures !(forall l :: Meets(l, 20, 48) ==> l in CacheLines(20, LINE))
  {
    hide CacheLines, Meets;
    CacheCoversExactly(62, 10);
    PatchFlush(62, 10);
    TrampolineFlush(20, 48);
  }
}
