/** Payload parameters: the blacklist table and the first-fit search over it. */
module Params {
  import Bits
  import opened Bytes
  import R = Ram

  const SLOTS := 12

  datatype MemoryRange = MemoryRange(start: u32, end: u32)

  datatype BlacklistMode = Unused | ForbiddenReloc | ForbiddenDL

  datatype BlacklistRange = BlacklistRange(range: MemoryRange, mode: BlacklistMode) {
    predicate Active() { mode != Unused }
  }

  type Slots = seq<BlacklistRange>

  // ----- machine arithmetic -----

  function SaturatingAdd(a: u32, b: u32): u32 {
    if a + b > U32_MAX then U32_MAX else a + b
  }

  /** The least multiple of eight not below `x`. */
  function RoundUp8(x: int): int {
    AlignDown(x + 7, 8)
  }

  lemma RoundUp8Is(x: int)
    ensures RoundUp8(x) % 8 == 0 && x <= RoundUp8(x) < x + 8
  {
  }

  lemma MultipleBelow(x: int, b: int)
    requires b % 8 == 0 && b < RoundUp8(x)
    ensures b < x
  {
  }

  /** `checked_add(7)? & !7`: the next multiple of eight, if it can be computed. */
  function CheckedAlign8(x: u32): (r: Option<u32>)
    ensures r.Some? <==> x + 7 <= U32_MAX
    ensures r.Some? ==> r.value == RoundUp8(x)
  {
    if x + 7 > U32_MAX then None else
    Bits.AlignMasks(x + 7);
    Some(Bits.And(x + 7, 0xFFFF_FFF8))
  }

  // ----- the search, as a function -----

  /** The overlap test of the search, with the addition as the machine performs it. */
  predicate Blocks(block: BlacklistRange, addr: u32, n: u32) {
    block.Active() && addr < block.range.end && WrappingAdd(addr, n) > block.range.start
  }

  /** The first slot from `i` on that blocks `addr`. */
  function FirstBlocking(slots: Slots, addr: u32, n: u32, i: nat): (r: Option<nat>)
    requires i <= |slots|
    ensures match r
            case None => forall j :: i <= j < |slots| ==> !Blocks(slots[j], addr, n)
            case Some(k) => i <= k < |slots| && Blocks(slots[k], addr, n)
    decreases |slots| - i
  {
    if i == |slots| then None
    else if Blocks(slots[i], addr, n) then Some(i)
    else FirstBlocking(slots, addr, n, i + 1)
  }

  function Search(slots: Slots, memory: MemoryRange, n: u32, addr: u32): Option<u32>
    decreases U32_MAX - addr
  {
    if SaturatingAdd(addr, n) > memory.end then None
    else
      match FirstBlocking(slots, addr, n, 0)
      case None => Some(addr)
      case Some(k) =>
        match CheckedAlign8(slots[k].range.end)
        case None => None
        case Some(next) => Search(slots, memory, n, next)
  }

  /** `find_unused_range`. */
  function FindUnused(slots: Slots, memory: MemoryRange, size: u32): Option<MemoryRange> {
    match CheckedAlign8(size)
    case None => None
    case Some(n) =>
      match Search(slots, memory, n, memory.start)
      case None => None
      case Some(addr) => Some(MemoryRange(addr, WrappingAdd(addr, n)))
  }

  // ----- what the search promises -----

  /** [a, a + n) and an active range overlap, in unbounded arithmetic. */
  predicate Conflict(block: BlacklistRange, a: int, n: int) {
    block.Active() && a < block.range.end && a + n > block.range.start
  }

  /** [a, a + n) lies in memory and meets no active range. */
  predicate Fits(slots: Slots, memory: MemoryRange, n: int, a: int) {
    && memory.start <= a && a + n <= memory.end
    && forall i :: 0 <= i < |slots| ==> !Conflict(slots[i], a, n)
  }

  predicate Candidate(memory: MemoryRange, a: int) {
    a == memory.start || a % 8 == 0
  }

  ghost predicate NoneFitsBelow(slots: Slots, memory: MemoryRange, n: int, limit: int) {
    forall b :: memory.start <= b < limit && Candidate(memory, b) ==> !Fits(slots, memory, n, b)
  }

  /** The result is the least candidate that fits, or there is none. */
  ghost predicate FirstFit(slots: Slots, memory: MemoryRange, size: u32, r: Option<MemoryRange>) {
    var n := RoundUp8(size);
    match r
    case Some(found) =>
      && found.end == found.start + n
      && Candidate(memory, found.start)
      && Fits(slots, memory, n, found.start)
      && NoneFitsBelow(slots, memory, n, found.start)
    case None => forall b :: Candidate(memory, b) ==> !Fits(slots, memory, n, b)
  }

  lemma {:induction false} SearchIsFirstFit(slots: Slots, memory: MemoryRange, n: u32, addr: u32)
    requires memory.end < U32_MAX && n % 8 == 0
    requires memory.start <= addr && Candidate(memory, addr)
    requires NoneFitsBelow(slots, memory, n, addr)
    ensures
      match Search(slots, memory, n, addr)
      case Some(a) =>
        a + n <= memory.end && Candidate(memory, a) && Fits(slots, memory, n, a) && NoneFitsBelow(slots, memory, n, a)
      case None => forall b :: Candidate(memory, b) ==> !Fits(slots, memory, n, b)
    decreases U32_MAX - addr
  {
    hide RoundUp8;
    if addr + n <= memory.end {
      match FirstBlocking(slots, addr, n, 0)
      case None =>
        assert forall i :: 0 <= i < |slots| ==> (Conflict(slots[i], addr, n) <==> Blocks(slots[i], addr, n));
      case Some(k) =>
        SkipBlocked(slots, memory, n, addr, k);
        RoundUp8Is(slots[k].range.end);
        match CheckedAlign8(slots[k].range.end)
        case None =>
        case Some(next) => SearchIsFirstFit(slots, memory, n, next);
    }
  }

  /** Nothing is lost by jumping from a blocked address to the next multiple of eight past the block. */
  lemma SkipBlocked(slots: Slots, memory: MemoryRange, n: u32, addr: u32, k: nat)
    requires memory.end < U32_MAX && addr + n <= memory.end
    requires memory.start <= addr
    requires NoneFitsBelow(slots, memory, n, addr)
    requires k < |slots| && Blocks(slots[k], addr, n)
    ensures NoneFitsBelow(slots, memory, n, RoundUp8(slots[k].range.end))
    ensures CheckedAlign8(slots[k].range.end).None? ==>
              forall b :: Candidate(memory, b) ==> !Fits(slots, memory, n, b)
  {
    hide RoundUp8;
    var e := slots[k].range.end;
    RoundUp8Is(e);
    forall b | memory.start <= b < RoundUp8(e) && Candidate(memory, b)
      ensures !Fits(slots, memory, n, b)
    {
      if addr <= b {
        assert b < e by {
          if b % 8 == 0 { MultipleBelow(e, b); }
        }
        assert Conflict(slots[k], b, n);
      }
    }
    if e + 7 > U32_MAX {
      forall b | Candidate(memory, b)
        ensures !Fits(slots, memory, n, b)
      {
        RoundUp8TooBig(e);
      }
    }
  }

  /** First fit is sound and complete whenever memory ends below the last address. */
  lemma FindUnusedIsFirstFit(slots: Slots, memory: MemoryRange, size: u32)
    requires memory.end < U32_MAX
    ensures FirstFit(slots, memory, size, FindUnused(slots, memory, size))
  {
    hide RoundUp8;
    RoundUp8Is(size);
    match CheckedAlign8(size)
    case None =>
      RoundUp8TooBig(size);
    case Some(n) =>
      SearchIsFirstFit(slots, memory, n, memory.start);
  }

  lemma RoundUp8TooBig(x: u32)
    requires x + 7 > U32_MAX
    ensures RoundUp8(x) > U32_MAX
  {
  }

  /** A table whose only active range is the first eight bytes of the address space. */
  function LowTable(): Slots {
    [BlacklistRange(MemoryRange(0, 8), ForbiddenDL)]
    + seq(SLOTS - 1, _ => BlacklistRange(MemoryRange(0, 0), Unused))
  }

  const HUGE: u32 := 0xFFFF_FFF8

  lemma HugeAligned()
    ensures RoundUp8(HUGE) == HUGE && RoundUp8(8) == 8
    ensures CheckedAlign8(HUGE) == Some(HUGE) && CheckedAlign8(8) == Some(8)
  {
    hide RoundUp8;
    RoundUp8Multiple(1);
    RoundUp8Multiple(0x1FFF_FFFF);
  }

  lemma RoundUp8Multiple(q: int)
    ensures RoundUp8(8 * q) == 8 * q
  {
  }

  lemma LowTableBlocks(addr: u32, i: nat)
    requires i < SLOTS
    ensures Blocks(LowTable()[i], addr, HUGE) <==> i == 0 && addr < 8 && WrappingAdd(addr, HUGE) > 0
  {
  }

  lemma SearchHuge(memory: MemoryRange, addr: u32)
    requires memory.end == U32_MAX && addr >= 8
    ensures Search(LowTable(), memory, HUGE, addr) == Some(addr)
  {
    forall i | 0 <= i < SLOTS
      ensures !Blocks(LowTable()[i], addr, HUGE)
    {
      LowTableBlocks(addr, i);
    }
    hide LowTable, Blocks;
    assert |LowTable()| == SLOTS by { LowTableSize(); }
  }

  lemma LowTableSize()
    ensures |LowTable()| == SLOTS && LowTable()[0] == BlacklistRange(MemoryRange(0, 8), ForbiddenDL)
  {
  }

  lemma SearchHugeLow(memory: MemoryRange, addr: u32)
    requires memory.end == U32_MAX && addr < 8
    ensures Search(LowTable(), memory, HUGE, addr) == Search(LowTable(), memory, HUGE, 8)
  {
    hide LowTable, RoundUp8, Blocks;
    LowTableSize();
    LowTableBlocks(addr, 0);
    HugeAligned();
    assert FirstBlocking(LowTable(), addr, HUGE, 0) == Some(0);
  }

  /** With memory ending at the last address the saturating bound hides an overflow, and the range
      returned for a large request wraps around. */
  lemma SaturationBreaks(memory: MemoryRange)
    requires memory.end == U32_MAX
    ensures |LowTable()| == SLOTS
    ensures !FirstFit(LowTable(), memory, HUGE, FindUnused(LowTable(), memory, HUGE))
  {
    hide LowTable, RoundUp8, Search, Fits, NoneFitsBelow, Candidate;
    LowTableSize();
    HugeAligned();
    var addr: u32 := if memory.start < 8 then 8 else memory.start;
    if memory.start < 8 {
      SearchHugeLow(memory, memory.start);
    }
    SearchHuge(memory, addr);
  }

  /** Exactly when: the search is right for every table and every size if and only if memory ends
      below the last address. */
  lemma FirstFitExact(memory: MemoryRange)
    ensures (forall slots: Slots, size: u32 | |slots| == SLOTS ::
               FirstFit(slots, memory, size, FindUnused(slots, memory, size)))
       <==> memory.end < U32_MAX
  {
    hide FirstFit, FindUnused, LowTable;
    if memory.end < U32_MAX {
      forall slots: Slots, size: u32 | |slots| == SLOTS
        ensures FirstFit(slots, memory, size, FindUnused(slots, memory, size))
      {
        FindUnusedIsFirstFit(slots, memory, size);
      }
    } else {
      SaturationBreaks(memory);
      assert !FirstFit(LowTable(), memory, HUGE, FindUnused(LowTable(), memory, HUGE));
    }
  }

  // ----- the blacklist table -----

  function FirstUnused(slots: Slots, i: nat): (r: Option<nat>)
    requires i <= |slots|
    ensures match r
            case None => forall j :: i <= j < |slots| ==> slots[j].Active()
            case Some(k) => i <= k < |slots| && !slots[k].Active() && forall j :: i <= j < k ==> slots[j].Active()
    decreases |slots| - i
  {
    if i == |slots| then None
    else if !slots[i].Active() then Some(i)
    else FirstUnused(slots, i + 1)
  }

  /** `blacklist_dl` and `blacklist_reloc`: the table with `range` in its first unused slot. */
  function Blacklisted(slots: Slots, range: MemoryRange, mode: BlacklistMode): Option<Slots> {
    match FirstUnused(slots, 0)
    case None => None
    case Some(k) => Some(slots[k := BlacklistRange(range, mode)])
  }

  lemma BlacklistLength(slots: Slots, range: MemoryRange, mode: BlacklistMode)
    ensures Blacklisted(slots, range, mode).Some? ==> |Blacklisted(slots, range, mode).value| == |slots|
  {
  }

  // ----- the table in memory -----

  const SLOT_SIZE := 12
  const TABLE_SIZE := SLOT_SIZE * SLOTS

  function ModeWord(mode: BlacklistMode): u32 {
    match mode
    case Unused => 0
    case ForbiddenReloc => 1
    case ForbiddenDL => 2
  }

  /** A slot as it lies in memory: start, end, mode. */
  predicate HasSlot(m: Mem, a: int, slot: BlacklistRange) {
    && Get32(m, a) == slot.range.start && Get32(m, a + 4) == slot.range.end
    && Get32(m, a + 8) == ModeWord(slot.mode)
  }

  predicate HasTable(m: Mem, at: int, slots: Slots) {
    forall i :: 0 <= i < |slots| ==> HasSlot(m, at + SLOT_SIZE * i, slots[i])
  }

  function PutSlot(m: Mem, a: int, slot: BlacklistRange): Mem {
    Put32(Put32(Put32(m, a, slot.range.start), a + 4, slot.range.end), a + 8, ModeWord(slot.mode))
  }

  /** What a blacklist call writes: the first unused slot of the table, or nothing if it is full. */
  function Recorded(m: Mem, at: int, slots: Slots, range: MemoryRange, mode: BlacklistMode): Mem {
    match FirstUnused(slots, 0)
    case None => m
    case Some(k) => PutSlot(m, at + SLOT_SIZE * k, BlacklistRange(range, mode))
  }

  lemma PutSlotIs(m: Mem, a: int, slot: BlacklistRange)
    ensures HasSlot(PutSlot(m, a, slot), a, slot)
    ensures SameOutside(m, PutSlot(m, a, slot), a, a + SLOT_SIZE)
  {
    hide Put32, Get32, Get;
    var m1 := Put32(m, a, slot.range.start);
    var m2 := Put32(m1, a + 4, slot.range.end);
    Put32Reads(m, a, slot.range.start);
    Put32Reads(m1, a + 4, slot.range.end);
    Put32Reads(m2, a + 8, ModeWord(slot.mode));
  }

  lemma SlotSame(m: Mem, m': Mem, a: int, slot: BlacklistRange)
    requires HasSlot(m, a, slot) && SameOn(m, m', a, a + SLOT_SIZE)
    ensures HasSlot(m', a, slot)
  {
    hide Get32;
    Get32Same(m, m', a);
    Get32Same(m, m', a + 4);
    Get32Same(m, m', a + 8);
  }

  lemma TableSame(m: Mem, m': Mem, at: int, slots: Slots)
    requires HasTable(m, at, slots) && SameOn(m, m', at, at + SLOT_SIZE * |slots|)
    ensures HasTable(m', at, slots)
  {
    hide HasSlot;
    forall i | 0 <= i < |slots|
      ensures HasSlot(m', at + SLOT_SIZE * i, slots[i])
    {
      SlotSame(m, m', at + SLOT_SIZE * i, slots[i]);
    }
  }

  /** Memory holds one table at most: two readings of the same place agree. */
  lemma TableIsUnique(m: Mem, at: int, s: Slots, t: Slots)
    requires HasTable(m, at, s) && HasTable(m, at, t) && |s| == |t|
    ensures s == t
  {
    hide Get32;
    forall i | 0 <= i < |s|
      ensures s[i] == t[i]
    {
      assert HasSlot(m, at + SLOT_SIZE * i, s[i]) && HasSlot(m, at + SLOT_SIZE * i, t[i]);
    }
  }

  /** Memory and table stay in step, and nothing but the table is written. */
  lemma RecordedIs(m: Mem, at: int, slots: Slots, range: MemoryRange, mode: BlacklistMode)
    ensures SameOutside(m, Recorded(m, at, slots, range, mode), at, at + SLOT_SIZE * |slots|)
    ensures HasTable(m, at, slots) ==>
      match Blacklisted(slots, range, mode)
      case None => HasTable(Recorded(m, at, slots, range, mode), at, slots)
      case Some(slots') => HasTable(Recorded(m, at, slots, range, mode), at, slots')
  {
    hide HasSlot, PutSlot;
    match FirstUnused(slots, 0)
    case None =>
    case Some(k) =>
      var slot := BlacklistRange(range, mode);
      var m' := Recorded(m, at, slots, range, mode);
      PutSlotIs(m, at + SLOT_SIZE * k, slot);
      if HasTable(m, at, slots) {
        forall i | 0 <= i < |slots|
          ensures HasSlot(m', at + SLOT_SIZE * i, slots[k := slot][i])
        {
          if i != k {
            SlotSame(m, m', at + SLOT_SIZE * i, slots[i]);
          }
        }
      }
  }

  /** How the table lies in memory: twelve bytes a slot, the range's start, its end, and the mode by number. */
  lemma SlotsInMemory(m: Mem, at: int, slots: Slots, i: nat)
    requires HasTable(m, at, slots) && i < |slots|
    ensures Get32(m, at + 12 * i) == slots[i].range.start && Get32(m, at + 12 * i + 4) == slots[i].range.end
    ensures
      var mode := Get32(m, at + 12 * i + 8);
      && (slots[i].mode == Unused <==> mode == 0) && (slots[i].mode == ForbiddenReloc <==> mode == 1)
      && (slots[i].mode == ForbiddenDL <==> mode == 2)
  {
    hide Get32;
    assert HasSlot(m, at + SLOT_SIZE * i, slots[i]);
  }

  /** The first `k` slots, and no others, are in use. */
  predicate Filled(slots: Slots, k: nat) {
    && k <= |slots|
    && (forall i :: 0 <= i < k ==> slots[i].Active())
    && (forall i :: k <= i < |slots| ==> !slots[i].Active())
  }

  /** Slots fill as a prefix, none is lost or changed, and a full table refuses without change. */
  lemma BlacklistFillsPrefix(slots: Slots, k: nat, range: MemoryRange, mode: BlacklistMode)
    requires Filled(slots, k) && mode != Unused
    ensures
      match Blacklisted(slots, range, mode)
      case None => k == |slots|
      case Some(slots') =>
        && k < |slots| && |slots'| == |slots| && Filled(slots', k + 1)
        && slots'[..k] == slots[..k] && slots'[k] == BlacklistRange(range, mode)
  {
    if k < |slots| {
      assert !slots[k].Active();
    }
  }

  function ActiveSlots(slots: Slots): set<int> {
    set i | 0 <= i < |slots| && slots[i].Active()
  }

  class PayloadParams {
    var memory: MemoryRange
    const blacklist: array<BlacklistRange>

    constructor (memory: MemoryRange)
      ensures this.memory == memory && fresh(blacklist) && blacklist.Length == SLOTS
      ensures Filled(blacklist[..], 0)
    {
      this.memory := memory;
      this.blacklist := new BlacklistRange[SLOTS](_ => BlacklistRange(MemoryRange(0, 0), Unused));
    }

    method FindFreeRange() returns (slot: Option<nat>)
      ensures slot == FirstUnused(blacklist[..], 0)
    {
      var i := 0;
      while i < blacklist.Length
        invariant 0 <= i <= blacklist.Length
        invariant FirstUnused(blacklist[..], 0) == FirstUnused(blacklist[..], i)
      {
        if !blacklist[i].Active() {
          return Some(i);
        }
        i := i + 1;
      }
      slot := None;
    }

    /** `blacklist_dl` and `blacklist_reloc` differ only in the mode. The table is a static of the image, so
        the slot is also written at its place in memory, `at`. */
    method Blacklist(range: MemoryRange, mode: BlacklistMode, ram: R.Ram, at: int) returns (ok: bool)
      requires mode != Unused
      modifies blacklist, ram
      ensures match Blacklisted(old(blacklist[..]), range, mode)
              case None => !ok && blacklist[..] == old(blacklist[..])
              case Some(slots) => ok && blacklist[..] == slots
      ensures ram.bytes == Recorded(old(ram.bytes), at, old(blacklist[..]), range, mode)
    {
      var slot := FindFreeRange();
      match slot
      case None =>
        ok := false;
      case Some(k) =>
        blacklist[k] := BlacklistRange(range, mode);
        ram.bytes := PutSlot(ram.bytes, at + SLOT_SIZE * k, BlacklistRange(range, mode));
        ok := true;
    }

    /** First fit, with one scan of the table per pass and at most one pass more than there are active ranges. */
    method FindUnusedRange(size: u32) returns (r: Option<MemoryRange>, ghost passes: nat)
      ensures r == FindUnused(blacklist[..], memory, size)
      ensures memory.end < U32_MAX ==> FirstFit(blacklist[..], memory, size, r)
      ensures passes <= |ActiveSlots(blacklist[..])| + 1
    {
      hide RoundUp8, FirstFit;
      passes := 0;
      ghost var slots := blacklist[..];
      ghost var active := ActiveSlots(slots);
      ghost var passed: set<int> := {};
      if memory.end < U32_MAX {
        FindUnusedIsFirstFit(slots, memory, size);
      }
      var aligned := CheckedAlign8(size);
      if aligned.None? {
        return None, passes;
      }
      RoundUp8Is(size);
      var alignedSize := aligned.value;
      var addr: u32 := memory.start;
      while SaturatingAdd(addr, alignedSize) <= memory.end
        invariant Search(slots, memory, alignedSize, memory.start) == Search(slots, memory, alignedSize, addr)
        invariant passes == |passed| && passed <= active
        invariant forall i :: i in passed ==> slots[i].range.end <= addr
        decreases U32_MAX - addr
      {
        passes := passes + 1;
        SubsetSize(passed, active);
        var i := 0;
        var bad := false;
        while i < blacklist.Length && !bad
          invariant 0 <= i <= blacklist.Length
          invariant !bad ==> FirstBlocking(slots, addr, alignedSize, 0) == FirstBlocking(slots, addr, alignedSize, i)
          invariant bad ==> i < blacklist.Length && FirstBlocking(slots, addr, alignedSize, 0) == Some(i)
          decreases blacklist.Length - i, !bad
        {
          if Blocks(blacklist[i], addr, alignedSize) {
            bad := true;
          } else {
            i := i + 1;
          }
        }
        if !bad {
          return Some(MemoryRange(addr, WrappingAdd(addr, alignedSize))), passes;
        }
        var next := CheckedAlign8(blacklist[i].range.end);
        if next.None? {
          return None, passes;
        }
        assert i in active && i !in passed;
        passed := passed + {i};
        RoundUp8Is(blacklist[i].range.end);
        addr := next.value;
      }
      SubsetSize(passed, active);
      r := None;
    }
  }

  lemma SubsetSize<T>(a: set<T>, b: set<T>)
    requires a <= b
    ensures |a| <= |b|
  {
    if x :| x in a {
      SubsetSize(a - {x}, b - {x});
    }
  }
}
