/** The payload's own memory: what every handled message keeps, and exactly which writes endanger it. */
module OwnMemory {
  import opened Bytes
  import opened Codec
  import opened Device
  import B = Bump
  import H = Hook
  import L = Placement
  import P = Params
  import T = Translator

  /** The blacklist in the image is the one the handler goes by, and the heap is where it was put. */
  predicate Intact(d: DeviceState) {
    && d.home.Valid() && |d.slots| == P.SLOTS && P.HasTable(d.mem, d.home.tableAt, d.slots)
    && d.heap.Valid() && d.home.heap.start <= d.heap.ptr && d.heap.ptr + d.heap.size <= d.home.heap.end
  }

  lemma IntactFrame(d: DeviceState, d': DeviceState)
    requires Intact(d) && d'.home == d.home && d'.slots == d.slots && d'.heap == d.heap
    requires SameOn(d.mem, d'.mem, d.home.tableAt, d.home.tableAt + P.TABLE_SIZE)
    ensures Intact(d')
  {
    hide P.HasTable;
    P.TableSame(d.mem, d'.mem, d.home.tableAt, d.slots);
  }

  /** The pool's growth uses up heap and no more. */
  lemma GrowthKeepsHeap(heap: B.Heap, count: nat, room: nat)
    requires heap.Valid()
    ensures match PoolGrowth(heap, count, room)
            case None => true
            case Some((heap', _)) =>
              heap'.Valid() && heap.ptr <= heap'.ptr && heap'.ptr + heap'.size == heap.ptr + heap.size
  {
    hide B.AllocStep;
    if PoolGrowth(heap, count, room).Some? && count >= room {
      var more := if room == 0 then 4 else 2 * room;
      PoolLayoutIsValid(8 * more);
      PoolLayoutIsValid(4 * more);
      B.AllocIs(heap, B.Layout(8 * more, 4));
      B.AllocIs(B.AllocStep(heap, B.Layout(8 * more, 4)).1, B.Layout(4 * more, 4));
    }
  }

  /** A trampoline lies in the heap, so a hook writes there and over its target, and nowhere else. */
  lemma HookWrites(d: DeviceState, ptr: u32)
    requires d.heap.Valid() && Hookable(d, ptr)
    ensures
      var h, d' := HookAt(d, ptr), Hooked(d, ptr);
      && H.Shape(h) && h.target == AlignDown(ptr, 2)
      && d.heap.ptr <= h.code && h.code + T.TRAMPOLINE_SIZE <= d.heap.ptr + d.heap.size
      && H.Live(d'.mem, h)
      && (forall x {:trigger Get(d'.mem, x)} ::
            !(h.code <= x < h.code + T.TRAMPOLINE_SIZE) && !(h.target <= x < h.target + 2 * |h.patch|)
            ==> Get(d'.mem, x) == Get(d.mem, x))
      && d'.heap.Valid() && d.heap.ptr <= d'.heap.ptr && d'.heap.ptr + d'.heap.size == d.heap.ptr + d.heap.size
  {
    hide H.CanHook, H.FreePlace, B.AllocStep, T.TrampolineCode, T.PatchCode, T.Items, Home.Misses, H.Live,
         PoolGrowth;
    TrampolineLayoutIsValid();
    B.AllocIs(d.heap, TRAMPOLINE_LAYOUT);
    GrowthKeepsHeap(TrampolinePlace(d).1, |d.hooks|, d.room);
    var place := TrampolinePlace(d).0.value;
    H.HookFits(d.mem, CodeOf(ptr), place);
    H.MakeHookShape(d.mem, CodeOf(ptr), place, d.home.replacement);
    var h := HookAt(d, ptr);
    H.InstallIsLive(d.mem, h);
    InstallWrites(d.mem, h);
  }

  lemma InstallWrites(m: Mem, h: H.HookInfo)
    requires 2 * |h.trampoline| <= T.TRAMPOLINE_SIZE
    ensures forall x {:trigger Get(H.Install(m, h), x)} ::
              !(h.code <= x < h.code + T.TRAMPOLINE_SIZE) && !(h.target <= x < h.target + 2 * |h.patch|)
              ==> Get(H.Install(m, h), x) == Get(m, x)
  {
    PutHalvesAt(m, h.code, h.trampoline);
    PutHalvesAt(PutHalves(m, h.code, h.trampoline), h.target, h.patch);
  }

  lemma HookKeepsIntact(d: DeviceState, ptr: u32)
    requires Intact(d) && Hookable(d, ptr)
    ensures Intact(Hooked(d, ptr))
  {
    hide P.HasTable, Hooked, HookAt, Hookable, H.Live;
    HookWrites(d, ptr);
    HookMissesTable(d, ptr);
    var d' := Hooked(d, ptr);
    P.TableSame(d.mem, d'.mem, d.home.tableAt, d.slots);
    HookedKeeps(d, ptr);
  }

  lemma HookedKeeps(d: DeviceState, ptr: u32)
    requires Hookable(d, ptr)
    ensures
      var d' := Hooked(d, ptr);
      && d'.home == d.home && d'.slots == d.slots && d'.memory == d.memory && d'.lk == d.lk
      && d'.preloader == d.preloader && d'.hooks == d.hooks + [HookAt(d, ptr)]
  {
    hide Hookable, HookAt;
  }

  lemma HookMissesTable(d: DeviceState, ptr: u32)
    requires Intact(d) && Hookable(d, ptr)
    ensures
      var h := HookAt(d, ptr);
      var at := d.home.tableAt;
      H.Shape(h) ==>
        && Disjoint(h.target, h.target + 2 * |h.patch|, at, at + P.TABLE_SIZE)
        && (d.heap.ptr <= h.code && h.code + T.TRAMPOLINE_SIZE <= d.heap.ptr + d.heap.size
            ==> Disjoint(h.code, h.code + T.TRAMPOLINE_SIZE, at, at + P.TABLE_SIZE))
  {
    hide H.CanHook, H.FreePlace, B.AllocStep, T.TrampolineCode, T.PatchCode, T.Items, P.HasTable, PoolGrowth;
  }

  /** Every message that is answered leaves table and heap in order. */
  lemma ReplyKeepsIntact(pl: bool, d: DeviceState, m: Message)
    requires Intact(d) && React(pl, d, m).Reply?
    ensures
      var d' := React(pl, d, m).d;
      Intact(d') && d'.home == d.home && d'.memory == d.memory
  {
    hide Hookable, Hooked, P.FindUnused, P.Blacklisted, P.Recorded, P.HasTable;
    match m
    case Hook(MtPartGenericRead) =>
      if pl && d.lk.Some? {
        HookKeepsIntact(d, d.lk.value.ptrMtPartGenericRead);
        HookedKeeps(d, d.lk.value.ptrMtPartGenericRead);
      }
    case BlacklistRange(range) =>
      P.RecordedIs(d.mem, d.home.tableAt, d.slots, range, P.ForbiddenDL);
      P.BlacklistLength(d.slots, range, P.ForbiddenDL);
    case _ =>
  }

  /** So does a write that misses the payload's own memory. */
  lemma WriteKeepsIntact(d: DeviceState, addr: u32, data: seq<u8>)
    requires Intact(d) && d.home.Misses(addr, |data|)
    ensures Intact(Received(d, addr, data))
  {
    hide P.HasTable;
    IntactFrame(d, Received(d, addr, data));
  }

  /** The payload never moves. */
  lemma ReplyKeepsHome(pl: bool, d: DeviceState, m: Message)
    requires React(pl, d, m).Reply?
    ensures React(pl, d, m).d.home == d.home && React(pl, d, m).d.memory == d.memory
  {
    hide Hookable, P.FindUnused, P.Blacklisted, P.Recorded, H.Install, H.MakeHook;
  }

  // ----- the loader's memory -----

  ghost predicate LoaderSame(home: Home, m: Mem, m': Mem) {
    forall i {:trigger home.loader[i]} :: 0 <= i < |home.loader| ==>
      SameOn(m, m', home.loader[i].start, home.loader[i].end)
  }

  lemma HookMissesLoader(d: DeviceState, ptr: u32)
    requires Intact(d) && Hookable(d, ptr)
    ensures LoaderSame(d.home, d.mem, Hooked(d, ptr).mem)
  {
    hide P.HasTable, Hooked, HookAt, H.Live;
    HookWrites(d, ptr);
    MissesIs(d, ptr);
    var h, m' := HookAt(d, ptr), Hooked(d, ptr).mem;
    forall i | 0 <= i < |d.home.loader|
      ensures SameOn(d.mem, m', d.home.loader[i].start, d.home.loader[i].end)
    {
      assert L.Apart(d.home.heap, d.home.loader[i]);
      forall x | d.home.loader[i].start <= x < d.home.loader[i].end
        ensures Get(m', x) == Get(d.mem, x)
      {
        assert ClearOf(h.target, T.PATCH_SIZE + 2, d.home.loader[i]);
      }
    }
  }

  lemma MissesIs(d: DeviceState, ptr: u32)
    requires Hookable(d, ptr)
    ensures d.home.Misses(AlignDown(ptr, 2), T.PATCH_SIZE + 2)
  {
    hide H.CanHook, H.FreePlace, H.MakeHook, HookGrowth;
  }

  /** No message the device answers changes a byte of what the loader needs. */
  lemma ReplyKeepsLoader(pl: bool, d: DeviceState, m: Message)
    requires Intact(d) && React(pl, d, m).Reply?
    ensures LoaderSame(d.home, d.mem, React(pl, d, m).d.mem)
  {
    hide Hookable, Hooked, P.FindUnused, P.Blacklisted, P.Recorded, P.HasTable;
    match m
    case Hook(MtPartGenericRead) =>
      if pl && d.lk.Some? {
        HookMissesLoader(d, d.lk.value.ptrMtPartGenericRead);
      }
    case BlacklistRange(range) =>
      P.RecordedIs(d.mem, d.home.tableAt, d.slots, range, P.ForbiddenDL);
      TableMissesLoader(d.home, d.mem, React(pl, d, m).d.mem);
    case _ =>
  }

  lemma TableMissesLoader(home: Home, m: Mem, m': Mem)
    requires home.Valid() && SameOutside(m, m', home.tableAt, home.tableAt + P.TABLE_SIZE)
    ensures LoaderSame(home, m, m')
  {
    forall i | 0 <= i < |home.loader|
      ensures SameOn(m, m', home.loader[i].start, home.loader[i].end)
    {
      assert L.Apart(home.image, home.loader[i]);
    }
  }

  // ----- exactly which writes are safe -----

  ghost predicate OwnBytesSame(home: Home, m: Mem, m': Mem) {
    && SameOn(m, m', home.image.start, home.image.end)
    && SameOn(m, m', home.stack.start, home.stack.end)
    && SameOn(m, m', home.heap.start, home.heap.end)
    && LoaderSame(home, m, m')
  }

  /** Image, stack, heap and the loader's memory survive a write, whatever the data, if and only if its range
      misses them. */
  lemma OwnSurvivesExactly(home: Home, m: Mem, addr: u32, size: u32)
    ensures (forall data: seq<u8> | |data| == size :: OwnBytesSame(home, m, Overlay(m, addr, data)))
       <==> home.Misses(addr, size)
  {
    hide Overlay;
    if home.Misses(addr, size) {
      forall data: seq<u8> | |data| == size
        ensures OwnBytesSame(home, m, Overlay(m, addr, data))
      {
        MissedWriteKeeps(home, m, addr, data);
      }
    } else {
      var data := seq<u8>(size, i => if Get(m, addr + i) == 0 then 1 else 0);
      var b := MetBlock(home, addr, size);
      var x: int := if addr >= b.start then addr else b.start;
      OverlayAt(m, addr, data, x);
      assert Get(Overlay(m, addr, data), x) != Get(m, x);
      assert !SameOn(m, Overlay(m, addr, data), b.start, b.end);
      assert !OwnBytesSame(home, m, Overlay(m, addr, data));
    }
  }

  lemma MissedWriteKeeps(home: Home, m: Mem, addr: u32, data: seq<u8>)
    requires home.Misses(addr, |data|)
    ensures OwnBytesSame(home, m, Overlay(m, addr, data))
  {
    hide Overlay;
    OverlayOutside(m, addr, data);
    forall i | 0 <= i < |home.loader|
      ensures SameOn(m, Overlay(m, addr, data), home.loader[i].start, home.loader[i].end)
    {
      assert data != [] ==> ClearOf(addr, |data|, home.loader[i]);
    }
  }

  /** A block of that memory that the range meets. */
  lemma MetBlock(home: Home, addr: u32, size: u32) returns (b: L.Block)
    requires !home.Misses(addr, size)
    ensures b.start < b.end && addr < b.end && b.start < addr + size
    ensures b == home.image || b == home.stack || b == home.heap || b in home.loader
  {
    if !ClearOf(addr, size, home.image) {
      b := home.image;
    } else if !ClearOf(addr, size, home.stack) {
      b := home.stack;
    } else if !ClearOf(addr, size, home.heap) {
      b := home.heap;
    } else {
      var i :| 0 <= i < |home.loader| && !ClearOf(addr, size, home.loader[i]);
      b := home.loader[i];
    }
  }

  lemma OverlayOutside(m: Mem, a: int, data: seq<u8>)
    ensures SameOutside(m, Overlay(m, a, data), a, a + |data|)
  {
  }

  lemma OverlayAt(m: Mem, a: int, data: seq<u8>, x: int)
    requires a <= x < a + |data|
    ensures Get(Overlay(m, a, data), x) == data[x - a]
  {
  }

  /** The blacklist survives a write, whatever the data, if and only if the range misses the table. */
  lemma TableSurvivesExactly(m: Mem, at: int, slots: P.Slots, addr: u32, size: u32)
    requires P.HasTable(m, at, slots) && |slots| == P.SLOTS && size > 0
    ensures (forall data: seq<u8> | |data| == size :: P.HasTable(Overlay(m, addr, data), at, slots))
       <==> Disjoint(addr, addr + size, at, at + P.TABLE_SIZE)
  {
    hide Overlay, P.HasTable;
    if Disjoint(addr, addr + size, at, at + P.TABLE_SIZE) {
      forall data: seq<u8> | |data| == size
        ensures P.HasTable(Overlay(m, addr, data), at, slots)
      {
        OverlayOutside(m, addr, data);
        P.TableSame(m, Overlay(m, addr, data), at, slots);
      }
    } else {
      var data := seq<u8>(size, i => if Get(m, addr + i) == 0 then 1 else 0);
      var x: int := if addr >= at then addr else at;
      OverlayAt(m, addr, data, x);
      if P.HasTable(Overlay(m, addr, data), at, slots) {
        TableFixesBytes(m, Overlay(m, addr, data), at, slots, x);
      }
    }
  }

  /** Every byte of the table counts. */
  lemma TableFixesBytes(m: Mem, m': Mem, at: int, slots: P.Slots, x: int)
    requires P.HasTable(m, at, slots) && P.HasTable(m', at, slots)
    requires at <= x < at + P.SLOT_SIZE * |slots|
    ensures Get(m', x) == Get(m, x)
  {
    hide Get32;
    var i, o := (x - at) / P.SLOT_SIZE, (x - at) % P.SLOT_SIZE;
    var a := at + P.SLOT_SIZE * i;
    assert P.HasSlot(m, a, slots[i]) && P.HasSlot(m', a, slots[i]);
    WordFixesBytes(m, m', a + o / 4 * 4, o % 4);
  }

  lemma HalvesOfWord(x0: u16, x1: u16, y0: u16, y1: u16)
    requires x0 + 0x1_0000 * x1 == y0 + 0x1_0000 * y1
    ensures x0 == y0 && x1 == y1
  {
  }

  lemma BytesOfHalf(x0: u8, x1: u8, y0: u8, y1: u8)
    requires x0 + 0x100 * x1 == y0 + 0x100 * y1
    ensures x0 == y0 && x1 == y1
  {
  }

  lemma WordFixesBytes(m: Mem, m': Mem, a: int, k: nat)
    requires Get32(m, a) == Get32(m', a) && k < 4
    ensures Get(m', a + k) == Get(m, a + k)
  {
    hide Get;
    HalvesOfWord(Get16(m, a), Get16(m, a + 2), Get16(m', a), Get16(m', a + 2));
    BytesOfHalf(Get(m, a), Get(m, a + 1), Get(m', a), Get(m', a + 1));
    BytesOfHalf(Get(m, a + 2), Get(m, a + 3), Get(m', a + 2), Get(m', a + 3));
  }

  // ----- the input -----

  function EmptyTable(): P.Slots {
    seq(P.SLOTS, _ => P.BlacklistRange(P.MemoryRange(0, 0), P.Unused))
  }

  function Zeros(n: nat): seq<u8> {
    seq<u8>(n, _ => 0)
  }

  /** `Write{addr: table, size: 144}` with zeros: the code answers it, and every range it guarded is free
      for the next request. It is such a write that `Breaks` stands for. */
  lemma ZeroesEmptyTheTable(pl: bool, d: DeviceState)
    requires Intact(d) && 0 <= d.home.tableAt <= U32_MAX
    ensures Breaks(pl, d, Write(d.home.tableAt, 144))
    ensures
      var m := Overlay(d.mem, d.home.tableAt, Zeros(144));
      && P.HasTable(m, d.home.tableAt, EmptyTable())
      && ((exists i :: 0 <= i < |d.slots| && d.slots[i].Active()) ==> !P.HasTable(m, d.home.tableAt, d.slots))
  {
    hide P.HasTable;
    var at := d.home.tableAt;
    var m := Overlay(d.mem, at, Zeros(P.TABLE_SIZE));
    ZeroesAreEmpty(d.mem, at);
    if P.HasTable(m, at, d.slots) {
      P.TableIsUnique(m, at, d.slots, EmptyTable());
    }
  }

  lemma ZeroesAreEmpty(m: Mem, at: int)
    ensures P.HasTable(Overlay(m, at, Zeros(P.TABLE_SIZE)), at, EmptyTable())
  {
    hide Overlay;
    var m' := Overlay(m, at, Zeros(P.TABLE_SIZE));
    forall x | at <= x < at + P.TABLE_SIZE
      ensures Get(m', x) == 0
    {
      OverlayAt(m, at, Zeros(P.TABLE_SIZE), x);
    }
    forall i | 0 <= i < P.SLOTS
      ensures P.HasSlot(m', at + P.SLOT_SIZE * i, EmptyTable()[i])
    {
      var a := at + P.SLOT_SIZE * i;
      ZeroWord(m', a);
      ZeroWord(m', a + 4);
      ZeroWord(m', a + 8);
    }
  }

  lemma ZeroWord(m: Mem, a: int)
    requires Get(m, a) == 0 && Get(m, a + 1) == 0 && Get(m, a + 2) == 0 && Get(m, a + 3) == 0
    ensures Get32(m, a) == 0
  {
  }
}
