/** The bump allocator, its promises over any run, and the heap the payload gives it. */
module Bump {
  import opened Bytes
  import Params
  import R = Ram
  import opened Placement

  /** A `Layout`: its alignment is a power of two, that is, a divisor of 2^31. */
  datatype Layout = Layout(size: u32, align: u32) {
    predicate Valid() {
      align > 0 && 0x8000_0000 % align == 0
    }
  }

  function WrappingSub(a: u32, b: u32): u32 {
    if a >= b then a - b else a - b + 0x1_0000_0000
  }

  lemma ModBound(x: int, m: int)
    requires m > 0 && x >= 0
    ensures 0 <= x - x % m <= x
  {
  }

  /** `(x + align - 1) & !(align - 1)` on 32-bit words. */
  function AlignUp(x: u32, align: u32): u32
    requires align > 0
  {
    var y := WrappingAdd(x, align - 1);
    ModBound(y, align);
    y - y % align
  }

  /** The allocator's two cells once initialised; the heap never reaches the end of the address space. */
  datatype Heap = Heap(ptr: u32, size: u32) {
    predicate Valid() { ptr + size <= U32_MAX }
  }

  /** `alloc`. */
  function AllocStep(h: Heap, layout: Layout): (r: (Option<u32>, Heap))
    requires layout.Valid()
  {
    var alignedPtr := AlignUp(h.ptr, layout.align);
    var padding := WrappingSub(alignedPtr, h.ptr);
    if padding + layout.size > U32_MAX then (None, h)
    else
      var total := padding + layout.size;
      if h.size >= total then
        (Some(alignedPtr), Heap(WrappingAdd(alignedPtr, layout.size), h.size - total))
      else (None, h)
  }

  /** An aligned block of the right size in the space that is left. */
  predicate FitsIn(h: Heap, layout: Layout, a: int)
    requires layout.Valid()
  {
    a % layout.align == 0 && h.ptr <= a && a + layout.size <= h.ptr + h.size
  }

  lemma MultiplesApart(a: int, b: int, m: int)
    requires m > 0 && a % m == 0 && b % m == 0 && b - m < a
    ensures b <= a
  {
    var p, q := a / m, b / m;
    assert a == m * p && b == m * q;
    var d := q - p;
    assert b - a == m * d;
    if d >= 1 {
      MulAtLeast(m, d);
    } else {
      MulAtMost(m, d);
    }
  }

  lemma SubModMultiple(y: int, m: int)
    requires m > 0
    ensures (y - y % m) % m == 0 && y - m < y - y % m <= y
  {
    var q := y / m;
    assert y - y % m == m * q;
    MultipleMod(q, m);
  }

  lemma MultipleMod(q: int, m: int)
    requires m > 0
    ensures (m * q) % m == 0
  {
    assert m * q == m * q + 0;
    ModUnique(m * q, m, q, 0);
  }

  lemma ModUnique(x: int, m: int, q: int, r: int)
    requires m > 0 && x == m * q + r && 0 <= r < m
    ensures x % m == r
  {
    var q' := x / m;
    var d := q - q';
    assert m * q - m * q' == m * d;
    if d >= 1 {
      MulAtLeast(m, d);
    } else if d <= -1 {
      assert m * d == -(m * -d);
      MulAtLeast(m, -d);
    } else {
      assert m * d == 0;
    }
  }

  lemma MulAtMost(m: int, d: int)
    requires m > 0 && d <= 0
    ensures m * d <= 0
  {
  }

  lemma MulAtLeast(m: int, d: int)
    requires m > 0 && d >= 1
    ensures m * d >= m
  {
  }

  /** The 32-bit rounding gives the next multiple, unless that lies past the address space: then it wraps to zero. */
  lemma AlignUpIs(x: u32, align: u32)
    requires align > 0 && 0x8000_0000 % align == 0
    ensures
      var r := AlignUp(x, align);
      if x + align - 1 <= U32_MAX then r % align == 0 && x <= r < x + align
      else r == 0 && forall a :: a % align == 0 && x <= a ==> a >= 0x1_0000_0000
  {
    var y := WrappingAdd(x, align - 1);
    if x + align - 1 <= U32_MAX {
      SubModMultiple(y, align);
    } else {
      assert y == x + align - 1 - 0x1_0000_0000;
      ModUnique(y, align, 0, y);
      forall a | a % align == 0 && x <= a
        ensures a >= 0x1_0000_0000
      {
        TopMultiple(align);
        MultiplesApart(a, 0x1_0000_0000, align);
      }
    }
  }

  lemma TopMultiple(align: int)
    requires align > 0 && 0x8000_0000 % align == 0
    ensures 0x1_0000_0000 % align == 0
  {
    var q := 0x8000_0000 / align;
    assert 0x8000_0000 == align * q;
    assert 0x1_0000_0000 == align * (2 * q);
    MultipleMod(2 * q, align);
  }

  /** One allocation: the lowest aligned block, or a refusal without change exactly when none fits;
      pointer plus remaining size never moves. */
  lemma AllocIs(h: Heap, layout: Layout)
    requires h.Valid() && layout.Valid()
    ensures
      var (block, h') := AllocStep(h, layout);
      && h'.Valid() && h'.ptr + h'.size == h.ptr + h.size
      && match block
         case Some(a) =>
           && FitsIn(h, layout, a) && a < h.ptr + layout.align
           && h'.ptr == a + layout.size
         case None => h' == h && forall a :: !FitsIn(h, layout, a)
  {
    hide AlignUp;
    AlignUpIs(h.ptr, layout.align);
    var alignedPtr := AlignUp(h.ptr, layout.align);
    if h.ptr + layout.align - 1 <= U32_MAX {
      forall a | FitsIn(h, layout, a)
        ensures alignedPtr <= a
      {
        MultiplesApart(a, alignedPtr, layout.align);
      }
    }
  }

  /** A null pointer does come back: eight bytes are free, but not eight aligned ones. */
  lemma AllocRefuses()
    ensures AllocStep(Heap(4, 8), Layout(8, 8)) == (None, Heap(4, 8))
  {
    assert AlignUp(4, 8) == 8;
  }

  // ----- any run -----

  datatype Live = Live(start: int, layout: Layout)

  /** The blocks handed out for `requests`, in order; a block is never given back. */
  function RunBlocks(h: Heap, requests: seq<Layout>): seq<Live>
    requires forall r <- requests :: r.Valid()
    decreases requests
  {
    if requests == [] then []
    else
      var (block, h') := AllocStep(h, requests[0]);
      var rest := RunBlocks(h', requests[1..]);
      match block
      case None => rest
      case Some(a) => [Live(a, requests[0])] + rest
  }

  /** An aligned block within [lo, hi). */
  predicate Inside(b: Live, lo: int, hi: int) {
    && b.layout.Valid() && b.start % b.layout.align == 0
    && lo <= b.start && b.start + b.layout.size <= hi
  }

  lemma AllocInside(h: Heap, layout: Layout)
    requires h.Valid() && layout.Valid()
    ensures
      var (block, h') := AllocStep(h, layout);
      && h'.Valid() && h'.ptr + h'.size == h.ptr + h.size && h.ptr <= h'.ptr
      && (block.Some? ==> Inside(Live(block.value, layout), h.ptr, h.ptr + h.size)
                          && block.value + layout.size == h'.ptr)
  {
    hide AllocStep;
    AllocIs(h, layout);
  }

  lemma InsideWider(b: Live, lo: int, hi: int, lo': int)
    requires Inside(b, lo', hi) && lo <= lo'
    ensures Inside(b, lo, hi) && lo' <= b.start
  {
  }

  /** Over any run the blocks are aligned, ascending and therefore disjoint, and inside the initial region. */
  lemma {:induction false} RunBlocksApart(h: Heap, requests: seq<Layout>, blocks: seq<Live>)
    requires h.Valid() && (forall r <- requests :: r.Valid()) && blocks == RunBlocks(h, requests)
    ensures forall i :: 0 <= i < |blocks| ==> Inside(blocks[i], h.ptr, h.ptr + h.size)
    ensures forall i, j :: 0 <= i < j < |blocks| ==> blocks[i].start + blocks[i].layout.size <= blocks[j].start
    decreases requests
  {
    hide AllocStep, Inside;
    if requests != [] {
      var (block, h') := AllocStep(h, requests[0]);
      var rest := RunBlocks(h', requests[1..]);
      AllocInside(h, requests[0]);
      RunBlocksApart(h', requests[1..], rest);
      forall i | 0 <= i < |rest|
        ensures Inside(rest[i], h.ptr, h.ptr + h.size) && h'.ptr <= rest[i].start
      {
        InsideWider(rest[i], h.ptr, h.ptr + h.size, h'.ptr);
      }
      if block.Some? {
        assert blocks == [Live(block.value, requests[0])] + rest;
      }
    }
  }

  /** With the heap of the payload, no allocated block meets the image, the stack or any range given
      to the host, now or after any messages. */
  lemma HeapBlocksApart(w: World, events: seq<Event>, heap: nat, h: Heap, requests: seq<Layout>, i: nat, j: nat)
    requires w.memory.end < U32_MAX && Safe(w) && heap < |w.blocks|
    requires h.ptr == w.blocks[heap].block.start && h.ptr + h.size == w.blocks[heap].block.end
    requires h.Valid() && forall r <- requests :: r.Valid()
    requires i < |RunBlocks(h, requests)|
    ensures
      var b := RunBlocks(h, requests)[i];
      var block := Block(b.start, b.start + b.layout.size);
      var w' := OnEvents(w, events);
      && Apart(w'.image, block)
      && (j < |w'.blocks| && j != heap ==> Apart(w'.blocks[j].block, block))
  {
    hide Guarded, Vacant, Params.Filled, OnEvents, RunBlocks;
    PlacementStaysSafe(w, events);
    RunBlocksApart(h, requests, RunBlocks(h, requests));
    var w' := OnEvents(w, events);
    assert w'.blocks[heap] == w.blocks[heap];
  }

  class BumpAllocator {
    var ptr: Option<u32>
    var size: u32

    constructor Empty()
      ensures ptr == None && size == 0
    {
      ptr, size := None, 0;
    }

    method Init(ptr: u32, size: u32)
      modifies this
      ensures this.ptr == Some(ptr) && this.size == size
    {
      this.ptr, this.size := Some(ptr), size;
    }

    /** A null pointer is `None`. */
    method Alloc(layout: Layout) returns (block: Option<u32>)
      requires layout.Valid()
      modifies this
      ensures
        match old(ptr)
        case None => block == None && ptr == None && size == old(size)
        case Some(p) =>
          var (b, h) := AllocStep(Heap(p, old(size)), layout);
          block == b && ptr == Some(h.ptr) && size == h.size
    {
      if ptr.Some? {
        var p := ptr.value;
        var alignedPtr := AlignUp(p, layout.align);
        var padding := WrappingSub(alignedPtr, p);
        if padding + layout.size <= U32_MAX {
          var total := padding + layout.size;
          if size >= total {
            ptr := Some(WrappingAdd(alignedPtr, layout.size));
            size := size - total;
            return Some(alignedPtr);
          }
        }
      }
      block := None;
    }
  }

  /** `main` of the preloader payload: reserves the heap before any message is handled. `at` is where the
      image keeps the table. */
  method ReserveHeap(params: Params.PayloadParams, ram: R.Ram, at: int, allocator: BumpAllocator) returns (ok: bool)
    requires params.memory.end < U32_MAX
    modifies allocator, params.blacklist, ram
    ensures
      var slots := old(params.blacklist[..]);
      match Params.FindUnused(slots, params.memory, HEAP_SIZE)
      case None => !ok && params.blacklist[..] == slots && ram.bytes == old(ram.bytes)
      case Some(heap) =>
        && allocator.ptr == Some(heap.start) && allocator.size == HEAP_SIZE && heap.start + HEAP_SIZE == heap.end
        && ram.bytes == Params.Recorded(old(ram.bytes), at, slots, heap, Params.ForbiddenDL)
        && match Params.Blacklisted(slots, heap, Params.ForbiddenDL)
           case None => !ok && params.blacklist[..] == slots
           case Some(slots') => ok && params.blacklist[..] == slots'
  {
    hide Params.FindUnused, Params.Blacklisted, Params.FirstFit, Params.Recorded;
    HeapIsWhole(params.blacklist[..], params.memory);
    var heap, _ := params.FindUnusedRange(HEAP_SIZE);
    if heap.None? {
      return false;
    }
    allocator.Init(heap.value.start, HEAP_SIZE);
    ok := params.Blacklist(heap.value, Params.ForbiddenDL, ram, at);
  }

  lemma HeapIsWhole(slots: Params.Slots, memory: Params.MemoryRange)
    requires memory.end < U32_MAX
    ensures
      match Params.FindUnused(slots, memory, HEAP_SIZE)
      case None => true
      case Some(heap) => heap.end == heap.start + HEAP_SIZE == heap.start + 0x10_0000
  {
    hide Params.FindUnused;
    Params.FindUnusedIsFirstFit(slots, memory, HEAP_SIZE);
    Params.RoundUp8Multiple(HEAP_SIZE / 8);
  }
}
