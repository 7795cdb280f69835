/** Fixing the image's relative relocations in place, and copying and starting the payload. */
module Relocation {
  import Bits
  import opened Bytes
  import opened Params
  import R = Ram

  const R_ARM_RELATIVE := 23
  const STACK_SIZE: u32 := 4 * 1024

  /** Link-time offsets of the image, which is linked at address zero; `table` is that of the blacklist
      in the parameters the image carries. */
  datatype Layout = Layout(size: u32, table: u32, relStart: u32, relEnd: u32, bssStart: u32, bssEnd: u32) {
    predicate Valid() {
      && 0 < size && table + TABLE_SIZE <= size
      && relStart <= relEnd <= size && (relEnd - relStart) % 8 == 0
      && bssStart <= bssEnd <= size
      && Disjoint(table, table + TABLE_SIZE, bssStart, bssEnd)
      && Disjoint(table, table + TABLE_SIZE, relStart, relEnd)
    }
    function Count(): nat
      requires Valid()
    {
      (relEnd - relStart) / 8
    }
  }

  // ----- relocation entries -----

  /** Address of entry `k` of the table of an image at `base`. */
  function EntryAt(base: int, layout: Layout, k: nat): int {
    base + layout.relStart + 8 * k
  }

  function Offset(m: Mem, entry: int): u32 {
    Get32(m, entry)
  }

  predicate IsRelative(m: Mem, entry: int) {
    Get32(m, entry + 4) % 0x100 == R_ARM_RELATIVE
  }

  function FixEntry(m: Mem, base: u32, entry: int): Mem {
    if IsRelative(m, entry) then
      var target := base + Offset(m, entry);
      Put32(m, target, WrappingAdd(Get32(m, target), base))
    else m
  }

  /** Memory after the first `k` entries have been processed. */
  function FixPrefix(m: Mem, base: u32, layout: Layout, k: nat): Mem {
    if k == 0 then m else FixEntry(FixPrefix(m, base, layout, k - 1), base, EntryAt(base, layout, k - 1))
  }

  lemma FixPrefixZero(m: Mem, base: u32, layout: Layout)
    ensures FixPrefix(m, base, layout, 0) == m
  {
  }

  lemma FixPrefixStep(m: Mem, base: u32, layout: Layout, k: nat)
    ensures
      var m', entry := FixPrefix(m, base, layout, k), EntryAt(base, layout, k);
      FixPrefix(m, base, layout, k + 1) ==
      if Get32(m', entry + 4) % 0x100 == R_ARM_RELATIVE then
        var target := base + Get32(m', entry);
        Put32(m', target, WrappingAdd(Get32(m', target), base))
      else m'
  {
    hide Get32, Put32;
  }

  lemma CountEntries(layout: Layout)
    requires layout.Valid()
    ensures 8 * layout.Count() == layout.relEnd - layout.relStart
  {
  }

  function FixGotResult(m: Mem, base: u32, layout: Layout): Mem
    requires layout.Valid()
  {
    FixPrefix(m, base, layout, layout.Count())
  }

  // ----- what re-linking means -----

  /** The word of a relative entry lies in the image, outside the relocations. */
  predicate GoodEntry(m: Mem, base: u32, layout: Layout, k: nat) {
    IsRelative(m, EntryAt(base, layout, k)) ==>
      var o := Offset(m, EntryAt(base, layout, k));
      o + 4 <= layout.size && Disjoint(o, o + 4, layout.relStart, layout.relEnd)
  }

  /** No relative word lies in the blacklist, which holds no addresses of the image. */
  predicate SparesBlacklist(m: Mem, base: u32, layout: Layout)
    requires layout.Valid()
  {
    forall k :: 0 <= k < layout.Count() && IsRelative(m, EntryAt(base, layout, k)) ==>
      var o: int := Offset(m, EntryAt(base, layout, k));
      Disjoint(o, o + 4, layout.table, layout.table + TABLE_SIZE)
  }

  predicate ApartEntries(m: Mem, base: u32, layout: Layout, j: nat, k: nat) {
    IsRelative(m, EntryAt(base, layout, j)) && IsRelative(m, EntryAt(base, layout, k)) ==>
      var o, p := Offset(m, EntryAt(base, layout, j)), Offset(m, EntryAt(base, layout, k));
      Disjoint(o, o + 4, p, p + 4)
  }

  /** A table a linker produces: distinct words of the image, none of them in the table itself. */
  predicate GoodTable(m: Mem, base: u32, layout: Layout)
    requires layout.Valid()
  {
    && (forall k :: 0 <= k < layout.Count() ==> GoodEntry(m, base, layout, k))
    && (forall j, k :: 0 <= j < k < layout.Count() ==> ApartEntries(m, base, layout, j, k))
  }

  /** And none of them in the blacklist. */
  predicate LinkedTable(m: Mem, base: u32, layout: Layout)
    requires layout.Valid()
  {
    GoodTable(m, base, layout) && SparesBlacklist(m, base, layout)
  }

  /** Byte `x` belongs to the word of one of the first `k` relative entries. */
  predicate Patched(m: Mem, base: u32, layout: Layout, k: nat, x: int) {
    exists j :: 0 <= j < k && PatchedBy(m, base, layout, j, x)
  }

  predicate PatchedBy(m: Mem, base: u32, layout: Layout, j: nat, x: int) {
    var entry := EntryAt(base, layout, j);
    IsRelative(m, entry) && base + Offset(m, entry) <= x < base + Offset(m, entry) + 4
  }

  /** The word of entry `j` moved by `base`. */
  predicate Moved(m: Mem, m': Mem, base: u32, layout: Layout, j: nat) {
    var entry := EntryAt(base, layout, j);
    IsRelative(m, entry) ==>
      Get32(m', base + Offset(m, entry)) == WrappingAdd(Get32(m, base + Offset(m, entry)), base)
  }

  /** The first `k` relative words moved by the base modulo 2^32, and nothing else changed. */
  ghost predicate Relinked(m: Mem, m': Mem, base: u32, layout: Layout, k: nat) {
    && (forall j :: 0 <= j < k ==> Moved(m, m', base, layout, j))
    && (forall x {:trigger Get(m', x)} :: !Patched(m, base, layout, k, x) ==> Get(m', x) == Get(m, x))
  }

  lemma PatchedMore(m: Mem, base: u32, layout: Layout, k: nat, x: int)
    requires k > 0
    ensures Patched(m, base, layout, k, x) <==>
              Patched(m, base, layout, k - 1, x) || PatchedBy(m, base, layout, k - 1, x)
  {
  }

  /** No relocation touches the table, so every entry reads the same at its turn. */
  lemma TableUntouched(m: Mem, m': Mem, base: u32, layout: Layout, k: nat, j: nat)
    requires layout.Valid() && GoodTable(m, base, layout)
    requires k <= layout.Count() && j < layout.Count()
    requires Relinked(m, m', base, layout, k)
    ensures Offset(m', EntryAt(base, layout, j)) == Offset(m, EntryAt(base, layout, j))
    ensures IsRelative(m', EntryAt(base, layout, j)) == IsRelative(m, EntryAt(base, layout, j))
  {
    hide IsRelative, Offset;
    var entry := EntryAt(base, layout, j);
    assert 8 * layout.Count() == layout.relEnd - layout.relStart;
    forall x | entry <= x < entry + 8
      ensures Get(m', x) == Get(m, x)
    {
      forall i | 0 <= i < k
        ensures !PatchedBy(m, base, layout, i, x)
      {
        assert GoodEntry(m, base, layout, i);
      }
    }
    Get32Same(m, m', entry);
    Get32Same(m, m', entry + 4);
    EntrySame(m, m', entry);
  }

  lemma EntrySame(m: Mem, m': Mem, entry: int)
    requires Get32(m', entry) == Get32(m, entry) && Get32(m', entry + 4) == Get32(m, entry + 4)
    ensures Offset(m', entry) == Offset(m, entry) && IsRelative(m', entry) == IsRelative(m, entry)
  {
  }

  /** `fix_got` equals re-linking: it moves exactly the relative words by the base and nothing else. */
  lemma {:induction false} FixPrefixRelinks(m: Mem, base: u32, layout: Layout, k: nat)
    requires layout.Valid() && GoodTable(m, base, layout)
    requires k <= layout.Count()
    ensures Relinked(m, FixPrefix(m, base, layout, k), base, layout, k)
  {
    hide Relinked, GoodTable, FixEntry, EntryAt;
    if k > 0 {
      FixPrefixRelinks(m, base, layout, k - 1);
      FixOneMore(m, FixPrefix(m, base, layout, k - 1), base, layout, k);
    } else {
      NothingFixed(m, base, layout);
    }
  }

  lemma NothingFixed(m: Mem, base: u32, layout: Layout)
    ensures Relinked(m, m, base, layout, 0)
  {
    hide Get, IsRelative, Offset;
  }

  lemma FixOneMore(m: Mem, m': Mem, base: u32, layout: Layout, k: nat)
    requires layout.Valid() && GoodTable(m, base, layout)
    requires 0 < k <= layout.Count()
    requires Relinked(m, m', base, layout, k - 1)
    ensures Relinked(m, FixEntry(m', base, EntryAt(base, layout, k - 1)), base, layout, k)
  {
    hide IsRelative, Offset, Put32, Get32, EntryAt;
    var entry := EntryAt(base, layout, k - 1);
    var m'' := FixEntry(m', base, entry);
    TableUntouched(m, m', base, layout, k - 1, k - 1);
    assert GoodEntry(m, base, layout, k - 1);
    var target := base + Offset(m, entry);
    if IsRelative(m, entry) {
      Put32Reads(m', target, WrappingAdd(Get32(m', target), base));
      forall x | target <= x < target + 4
        ensures Get(m', x) == Get(m, x)
      {
        forall i | 0 <= i < k - 1
          ensures !PatchedBy(m, base, layout, i, x)
        {
          assert ApartEntries(m, base, layout, i, k - 1);
        }
      }
      Get32Same(m, m', target);
    }
    forall j | 0 <= j < k
      ensures Moved(m, m'', base, layout, j)
    {
      if j < k - 1 {
        assert Moved(m, m', base, layout, j);
        assert ApartEntries(m, base, layout, j, k - 1);
      }
    }
    forall x | !Patched(m, base, layout, k, x)
      ensures Get(m'', x) == Get(m, x)
    {
      PatchedMore(m, base, layout, k, x);
      assert !PatchedBy(m, base, layout, k - 1, x);
    }
  }

  // ----- the startup decision -----

  datatype Outcome = Relocated(addr: u32) | Running(stackPointer: int) | Died

  datatype Decision = Decision(outcome: Outcome, fixed: bool, slots: Slots)

  predicate Overlaps(a: int, b: int, size: int) {
    a < b + size && b < a + size
  }

  /** What `app` does from load address `base`, memory contents aside; `fixed` tells whether it got
      past the relocation and ran `fix_got`. */
  function AppDecision(slots: Slots, memory: MemoryRange, size: u32, base: u32): Decision
    requires base + size <= U32_MAX
  {
    match FindUnused(slots, memory, size)
    case None => Decision(Died, false, slots)
    case Some(range) =>
      var addr := range.start;
      if addr != base && !Overlaps(addr, base, size) then Decision(Relocated(addr), false, slots)
      else
        // staying means overlapping, so the image is reserved where it runs
        match Blacklisted(slots, MemoryRange(base, base + size), ForbiddenDL)
        case None => Decision(Died, true, slots)
        case Some(slots1) =>
          match FindUnused(slots1, memory, STACK_SIZE)
          case None => Decision(Died, true, slots1)
          case Some(stack) =>
            match Blacklisted(slots1, stack, ForbiddenDL)
            case None => Decision(Died, true, slots1)
            case Some(slots2) => Decision(Running(AlignDown(stack.end, 8)), true, slots2)
  }

  function Zeros(n: nat): (r: seq<u8>)
    ensures |r| == n
  {
    seq<u8>(n, _ => 0)
  }

  /** The image fixed up and its bss cleared. */
  function Started(m: Mem, base: u32, layout: Layout): Mem
    requires layout.Valid()
  {
    Overlay(FixGotResult(m, base, layout), base + layout.bssStart, Zeros(layout.bssEnd - layout.bssStart))
  }

  /** Memory after `app` at `base` has fixed itself up: each reservation it gets as far as writes one slot
      of the table in the image. */
  function AppMemory(m: Mem, slots: Slots, memory: MemoryRange, layout: Layout, base: u32): Mem
    requires layout.Valid() && base + layout.size <= U32_MAX
  {
    var at, image := base + layout.table, MemoryRange(base, base + layout.size);
    var m0 := Started(m, base, layout);
    var m1 := Recorded(m0, at, slots, image, ForbiddenDL);
    match Blacklisted(slots, image, ForbiddenDL)
    case None => m1
    case Some(slots1) =>
      match FindUnused(slots1, memory, STACK_SIZE)
      case None => m1
      case Some(stack) => Recorded(m1, at, slots1, stack, ForbiddenDL)
  }

  /** Fix-up leaves the blacklist alone. */
  lemma StartedKeepsTable(m: Mem, base: u32, layout: Layout)
    requires layout.Valid() && LinkedTable(m, base, layout)
    ensures SameOn(m, Started(m, base, layout), base + layout.table, base + layout.table + TABLE_SIZE)
  {
    hide FixPrefix, Patched, Layout.Count, Zeros;
    var n := layout.Count();
    FixPrefixRelinks(m, base, layout, n);
    forall x | base + layout.table <= x < base + layout.table + TABLE_SIZE
      ensures !Patched(m, base, layout, n, x)
    {
      TableIsNotPatched(m, base, layout, n, x);
    }
  }

  lemma TableIsNotPatched(m: Mem, base: u32, layout: Layout, k: nat, x: int)
    requires layout.Valid() && LinkedTable(m, base, layout) && k <= layout.Count()
    requires base + layout.table <= x < base + layout.table + TABLE_SIZE
    ensures !Patched(m, base, layout, k, x)
  {
    hide IsRelative, Offset, EntryAt, GoodTable;
    forall j | 0 <= j < k
      ensures !PatchedBy(m, base, layout, j, x)
    {
      var o: int := Offset(m, EntryAt(base, layout, j));
      assert IsRelative(m, EntryAt(base, layout, j)) ==> Disjoint(o, o + 4, layout.table, layout.table + TABLE_SIZE);
    }
  }

  /** Beyond the fix-up `app` writes nothing but the table, and that stays in step with its decisions. */
  lemma AppMemoryIs(m: Mem, slots: Slots, memory: MemoryRange, layout: Layout, base: u32)
    requires layout.Valid() && base + layout.size <= U32_MAX && |slots| == SLOTS
    ensures
      var m' := AppMemory(m, slots, memory, layout, base);
      SameOutside(Started(m, base, layout), m', base + layout.table, base + layout.table + TABLE_SIZE)
    ensures
      var d := AppDecision(slots, memory, layout.size, base);
      var m' := AppMemory(m, slots, memory, layout, base);
      d.fixed && HasTable(m, base + layout.table, slots) && LinkedTable(m, base, layout)
      ==> HasTable(m', base + layout.table, d.slots)
  {
    hide Started, FindUnused, Recorded, HasTable, LinkedTable, Layout.Valid, FirstUnused, Get;
    var at, image := base + layout.table, MemoryRange(base, base + layout.size);
    var m0 := Started(m, base, layout);
    var m1 := Recorded(m0, at, slots, image, ForbiddenDL);
    if HasTable(m, at, slots) && LinkedTable(m, base, layout) {
      StartedKeepsTable(m, base, layout);
      TableSame(m, m0, at, slots);
    }
    RecordedIs(m0, at, slots, image, ForbiddenDL);
    var slots1 := Blacklisted(slots, image, ForbiddenDL);
    if slots1.Some? {
      BlacklistLength(slots, image, ForbiddenDL);
      var stack := FindUnused(slots1.value, memory, STACK_SIZE);
      if stack.Some? {
        RecordedIs(m1, at, slots1.value, stack.value, ForbiddenDL);
      }
    }
  }

  /** A payload that has started has all of its bss zero. */
  lemma BssIsZero(m: Mem, slots: Slots, memory: MemoryRange, layout: Layout, base: u32, x: int)
    requires layout.Valid() && base + layout.size <= U32_MAX && |slots| == SLOTS
    requires base + layout.bssStart <= x < base + layout.bssEnd
    ensures Get(AppMemory(m, slots, memory, layout, base), x) == 0
  {
    hide AppMemory, FixGotResult;
    AppMemoryIs(m, slots, memory, layout, base);
  }

  /** What the table's types mean, byte by byte: an entry whose type byte is 0x17 moves the word it names, and
      any other leaves memory as it is. */
  lemma OnlyRelativeMoves(m: Mem, base: u32, entry: int)
    ensures Get(m, entry + 4) == 0x17 ==>
              FixEntry(m, base, entry)
              == Put32(m, base + Get32(m, entry), WrappingAdd(Get32(m, base + Get32(m, entry)), base))
    ensures Get(m, entry + 4) != 0x17 ==> FixEntry(m, base, entry) == m
  {
    hide Put32;
    LowByte(m, entry + 4);
  }

  lemma LowByte(m: Mem, a: int)
    ensures Get32(m, a) % 0x100 == Get(m, a)
  {
    hide Get;
    Mod256(Get(m, a + 1) + 0x100 * Get(m, a + 2) + 0x1_0000 * Get(m, a + 3), Get(m, a));
  }

  lemma Mod256(q: int, r: u8)
    ensures (0x100 * q + r) % 0x100 == r
  {
  }

  class Payload {
    const ram: R.Ram
    const params: PayloadParams
    const layout: Layout

    constructor (ram: R.Ram, params: PayloadParams, layout: Layout)
      ensures this.ram == ram && this.params == params && this.layout == layout
    {
      this.ram := ram;
      this.params := params;
      this.layout := layout;
    }

    method FixGot(base: u32)
      requires layout.Valid()
      modifies ram
      ensures ram.bytes == FixGotResult(old(ram.bytes), base, layout)
    {
      hide Get32, Put32, IsRelative, Layout.Count, FixPrefix, Bits.And;
      CountEntries(layout);
      FixPrefixZero(ram.bytes, base, layout);
      var rel := base + layout.relStart;
      var relEnd := base + layout.relEnd;
      ghost var k := 0;
      while rel < relEnd
        invariant rel == EntryAt(base, layout, k) && k <= layout.Count()
        invariant ram.bytes == FixPrefix(old(ram.bytes), base, layout, k)
        decreases relEnd - rel
      {
        FixPrefixStep(old(ram.bytes), base, layout, k);
        Bits.LowMasks(Get32(ram.bytes, rel + 4));
        var relType := Bits.And(Get32(ram.bytes, rel + 4), 0xFF);
        if relType == R_ARM_RELATIVE {
          var target := base + Get32(ram.bytes, rel);
          ram.bytes := Put32(ram.bytes, target, WrappingAdd(Get32(ram.bytes, target), base));
        }
        rel := rel + 8;
        k := k + 1;
      }
    }

    /** One entry of the payload at `base`: it either copies itself elsewhere and starts there, or
        fixes itself up and reserves its own memory. */
    method App(base: u32) returns (outcome: Outcome)
      requires layout.Valid() && base + layout.size <= U32_MAX
      requires params.memory.end < U32_MAX
      modifies ram, params.blacklist
      ensures
        var d := AppDecision(old(params.blacklist[..]), params.memory, layout.size, base);
        && outcome == d.outcome
        && params.blacklist[..] == d.slots
        && ram.bytes == (if d.fixed then
                           AppMemory(old(ram.bytes), old(params.blacklist[..]), params.memory, layout, base)
                         else if d.outcome.Relocated? then
                           Overlay(old(ram.bytes), d.outcome.addr, Slice(old(ram.bytes), base, layout.size))
                         else old(ram.bytes))
    {
      hide FindUnused, Blacklisted, FixGotResult, FirstFit, Overlay, Slice, Zeros, Recorded, Bits.And;
      var size, at := layout.size, base + layout.table;
      var relocRange, _ := params.FindUnusedRange(size);
      if relocRange.None? {
        return Died;
      }
      var addr := relocRange.value.start;
      var overlaps := addr < base + size && base < addr + size;
      if addr != base && !overlaps {
        ram.bytes := Overlay(ram.bytes, addr, Slice(ram.bytes, base, size));
        return Relocated(addr);
      }
      FixGot(base);
      ram.bytes := Overlay(ram.bytes, base + layout.bssStart, Zeros(layout.bssEnd - layout.bssStart));
      var ok: bool;
      if overlaps {
        ok := params.Blacklist(MemoryRange(base, base + size), ForbiddenDL, ram, at);
      } else {
        // an image that stays at the chosen address overlaps it, so the source's other branch never runs
        assert false;
      }
      if !ok {
        return Died;
      }
      var stackRange, _ := params.FindUnusedRange(STACK_SIZE);
      if stackRange.None? {
        return Died;
      }
      Bits.AlignMasks(stackRange.value.end);
      var sp := Bits.And(stackRange.value.end, 0xFFFF_FFF8);
      ok := params.Blacklist(stackRange.value, ForbiddenDL, ram, at);
      if !ok {
        return Died;
      }
      outcome := Running(sp);
    }
  }
}
