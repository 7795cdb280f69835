/** Where everything ends up: the payload's image, stack and heap, and every range handed to the host,
    over the whole boot and any later messages. */
module Placement {
  import opened Bytes
  import opened Params
  import opened Relocation

  const HEAP_SIZE: u32 := 1024 * 1024

  // ----- self-relocation -----

  predicate SameImage(m: Mem, a: int, m0: Mem, b: int, size: nat) {
    forall x {:trigger Get(m, x)} :: a <= x < a + size ==> Get(m, x) == Get(m0, x - a + b)
  }

  /** Self-relocation converges: a payload that copies itself elsewhere goes to memory it does not
      overlap, finds the same place when it starts there, and stays. */
  lemma RelocationConverges(slots: Slots, memory: MemoryRange, size: u32, base: u32)
    requires memory.end < U32_MAX && 0 < size && base + size <= U32_MAX
    ensures
      var first := AppDecision(slots, memory, size, base);
      match first.outcome
      case Relocated(addr) =>
        && !first.fixed && first.slots == slots
        && addr + size <= memory.end
        && Disjoint(addr, addr + size, base, base + size)
        && var d := AppDecision(slots, memory, size, addr);
           d.fixed && !d.outcome.Relocated?
      case _ => true
  {
    hide Search, Blacklisted;
    FindUnusedIsFirstFit(slots, memory, size);
    RoundUp8Is(size);
  }

  lemma FirstFitIsUnique(slots: Slots, memory: MemoryRange, size: u32, r: Option<MemoryRange>, s: Option<MemoryRange>)
    requires FirstFit(slots, memory, size, r) && FirstFit(slots, memory, size, s)
    ensures r == s
  {
    hide RoundUp8, Fits, Candidate;
    if r.Some? && s.Some? {
      LeastIs(slots, memory, size, r.value, s.value);
      LeastIs(slots, memory, size, s.value, r.value);
    }
  }

  lemma LeastIs(slots: Slots, memory: MemoryRange, size: u32, r: MemoryRange, s: MemoryRange)
    requires FirstFit(slots, memory, size, Some(r)) && FirstFit(slots, memory, size, Some(s))
    ensures r.start <= s.start
  {
    hide RoundUp8;
  }

  /** Exactly when the payload moves, in terms of the first place its image fits: if there is one and it does not
      overlap the load address, the payload copies itself there; if there is one and it does, the payload stays
      and fixes itself up; if there is none, it dies before the fix-up. */
  lemma RelocatesExactly(slots: Slots, memory: MemoryRange, size: u32, base: u32, r: Option<MemoryRange>)
    requires memory.end < U32_MAX && 0 < size && base + size <= U32_MAX
    requires FirstFit(slots, memory, size, r)
    ensures
      var d := AppDecision(slots, memory, size, base);
      match r
      case None => d.outcome.Died? && !d.fixed && d.slots == slots
      case Some(found) =>
        if Disjoint(found.start, found.start + size, base, base + size)
        then d.outcome == Relocated(found.start) && !d.fixed && d.slots == slots
        else d.fixed && !d.outcome.Relocated?
  {
    hide FindUnused, Blacklisted, FirstFit;
    FindUnusedIsFirstFit(slots, memory, size);
    FirstFitIsUnique(slots, memory, size, r, FindUnused(slots, memory, size));
  }

  function GuardSlot(start: u32, end: u32): Params.BlacklistRange {
    Params.BlacklistRange(MemoryRange(start, end), ForbiddenDL)
  }

  /** Exactly when it gets to `main`: two slots are left, and 4 KiB for the stack fit beside the image. The stack
      pointer is then the top of the stack, rounded down to eight bytes. */
  lemma RunsExactly(slots: Slots, used: nat, memory: MemoryRange, size: u32, base: u32, stack: Option<MemoryRange>)
    requires memory.end < U32_MAX && 0 < size && base + size <= U32_MAX && Filled(slots, used)
    requires AppDecision(slots, memory, size, base).fixed
    requires used < |slots| ==>
      FirstFit(slots[used := GuardSlot(base, base + size)], memory, 0x1000, stack)
    ensures
      var d := AppDecision(slots, memory, size, base);
      && (d.outcome.Running? <==> used + 2 <= |slots| && stack.Some?)
      && (d.outcome.Running? ==>
            var sp := d.outcome.stackPointer;
            && sp % 8 == 0 && sp <= stack.value.end < sp + 8
            && d.slots == slots[used := GuardSlot(base, base + size)]
                               [used + 1 := GuardSlot(stack.value.start, stack.value.end)])
  {
    hide FindUnused, FirstFit, FirstUnused;
    FirstUnusedIs(slots, used);
    if used < |slots| {
      var slots1 := slots[used := GuardSlot(base, base + size)];
      FirstUnusedIs(slots1, used + 1);
      FindUnusedIsFirstFit(slots1, memory, 0x1000);
      FirstFitIsUnique(slots1, memory, 0x1000, stack, FindUnused(slots1, memory, 0x1000));
    }
  }

  lemma FirstUnusedIs(slots: Slots, used: nat)
    requires Filled(slots, used)
    ensures FirstUnused(slots, 0) == if used < |slots| then Some(used) else None
  {
    if used < |slots| {
      assert !slots[used].Active();
    }
  }

  /** Both entries of the payload as one run: the base it ends up at, and whether `fix_got` ran. */
  datatype BootResult = BootResult(base: u32, decision: Decision)

  function BootDecision(slots: Slots, memory: MemoryRange, size: u32, base: u32): BootResult
    requires memory.end < U32_MAX && 0 < size && base + size <= U32_MAX
  {
    var d := AppDecision(slots, memory, size, base);
    if d.outcome.Relocated? then
      RelocationConverges(slots, memory, size, base);
      BootResult(d.outcome.addr, AppDecision(slots, memory, size, d.outcome.addr))
    else BootResult(base, d)
  }

  /** Runs the payload from its load address until it no longer restarts itself. */
  method Boot(payload: Payload, base: u32) returns (at: u32, outcome: Outcome)
    requires payload.layout.Valid() && base + payload.layout.size <= U32_MAX
    requires payload.params.memory.end < U32_MAX
    modifies payload.ram, payload.params.blacklist
    ensures
      var r := BootDecision(old(payload.params.blacklist[..]), payload.params.memory, payload.layout.size, base);
      && at == r.base && outcome == r.decision.outcome && !outcome.Relocated?
      && payload.params.blacklist[..] == r.decision.slots
      && (r.decision.fixed ==>
            at + payload.layout.size <= U32_MAX && exists pristine: Mem ::
              && SameImage(pristine, at, old(payload.ram.bytes), base, payload.layout.size)
              && (forall x {:trigger Get(pristine, x)} ::
                    !(at <= x < at + payload.layout.size) ==> Get(pristine, x) == Get(old(payload.ram.bytes), x))
              && payload.ram.bytes == AppMemory(pristine, old(payload.params.blacklist[..]), payload.params.memory,
                                               payload.layout, at))
    ensures forall r :: FirstFit(old(payload.params.blacklist[..]), payload.params.memory, payload.layout.size, r) ==>
      match r
      case None => at == base && outcome.Died? && payload.ram.bytes == old(payload.ram.bytes)
      case Some(found) =>
        at == if Disjoint(found.start, found.start + payload.layout.size, base, base + payload.layout.size)
              then found.start else base
  {
    hide AppDecision, AppMemory, FirstFit;
    ghost var slots, size := payload.params.blacklist[..], payload.layout.size;
    forall r | FirstFit(slots, payload.params.memory, size, r)
      ensures
        var d := AppDecision(slots, payload.params.memory, size, base);
        match r
        case None => d.outcome.Died? && !d.fixed && d.slots == slots
        case Some(found) =>
          if Disjoint(found.start, found.start + size, base, base + size)
          then d.outcome == Relocated(found.start) && !d.fixed && d.slots == slots
          else d.fixed && !d.outcome.Relocated?
    {
      RelocatesExactly(slots, payload.params.memory, size, base, r);
    }
    RelocationConverges(payload.params.blacklist[..], payload.params.memory, payload.layout.size, base);
    at := base;
    ghost var pristine := payload.ram.bytes;
    outcome := payload.App(at);
    if outcome.Relocated? {
      at := outcome.addr;
      pristine := payload.ram.bytes;
      outcome := payload.App(at);
    }
    assert SameImage(pristine, at, old(payload.ram.bytes), base, payload.layout.size);
  }

  /** What re-linking is for: a word the table names holds its link-time value moved by the final
      base, wherever the payload was first loaded, and whatever was reserved since. */
  lemma BootRelinks(m: Mem, base: u32, pristine: Mem, slots: Slots, memory: MemoryRange, at: u32, layout: Layout,
                    j: nat)
    requires layout.Valid() && at + layout.size <= U32_MAX && |slots| == SLOTS
    requires LinkedTable(pristine, at, layout) && j < layout.Count()
    requires SameImage(pristine, at, m, base, layout.size)
    requires IsRelative(pristine, EntryAt(at, layout, j))
    requires
      var o := Offset(pristine, EntryAt(at, layout, j));
      Disjoint(o, o + 4, layout.bssStart, layout.bssEnd)
    ensures
      var o := Offset(pristine, EntryAt(at, layout, j));
      Get32(AppMemory(pristine, slots, memory, layout, at), at + o) == WrappingAdd(Get32(m, base + o), at)
  {
    hide IsRelative, Offset, Get32, FixPrefix, Patched, EntryAt, ApartEntries, SameImage, Layout.Count, Zeros,
         AppMemory;
    var n := layout.Count();
    var fixed, started := FixGotResult(pristine, at, layout), Started(pristine, at, layout);
    var o := Offset(pristine, EntryAt(at, layout, j));
    FixPrefixRelinks(pristine, at, layout, n);
    assert Moved(pristine, fixed, at, layout, j);
    assert GoodEntry(pristine, at, layout, j);
    Get32Same(fixed, started, at + o);
    AppMemoryIs(pristine, slots, memory, layout, at);
    Get32Same(started, AppMemory(pristine, slots, memory, layout, at), at + o);
    Get32Moved(pristine, at, m, base, layout.size, o);
  }

  /** The table travels with the image, and what the running payload reserves is in the table of the image
      that runs. */
  lemma BootKeepsTable(m: Mem, base: u32, pristine: Mem, slots: Slots, memory: MemoryRange, at: u32, layout: Layout)
    requires layout.Valid() && at + layout.size <= U32_MAX && |slots| == SLOTS
    requires LinkedTable(pristine, at, layout) && SameImage(pristine, at, m, base, layout.size)
    requires HasTable(m, base + layout.table, slots)
    requires AppDecision(slots, memory, layout.size, at).fixed
    ensures HasTable(AppMemory(pristine, slots, memory, layout, at), at + layout.table,
                     AppDecision(slots, memory, layout.size, at).slots)
  {
    hide AppMemory, AppDecision, LinkedTable, HasSlot;
    forall i | 0 <= i < |slots|
      ensures HasSlot(pristine, at + layout.table + SLOT_SIZE * i, slots[i])
    {
      assert HasSlot(m, base + layout.table + SLOT_SIZE * i, slots[i]);
      SlotMoved(pristine, at, m, base, layout.size, layout.table + SLOT_SIZE * i, slots[i]);
    }
    AppMemoryIs(pristine, slots, memory, layout, at);
  }

  lemma SlotMoved(m: Mem, a: int, m0: Mem, b: int, size: nat, o: nat, slot: Params.BlacklistRange)
    requires SameImage(m, a, m0, b, size) && o + SLOT_SIZE <= size && HasSlot(m0, b + o, slot)
    ensures HasSlot(m, a + o, slot)
  {
    hide Get32, SameImage;
    Get32Moved(m, a, m0, b, size, o);
    Get32Moved(m, a, m0, b, size, o + 4);
    Get32Moved(m, a, m0, b, size, o + 8);
  }

  lemma Get32Moved(m: Mem, a: int, m0: Mem, b: int, size: nat, o: nat)
    requires SameImage(m, a, m0, b, size) && o + 4 <= size
    ensures Get32(m, a + o) == Get32(m0, b + o)
  {
  }

  // ----- placement invariant -----

  datatype Block = Block(start: int, end: int)

  predicate InMemory(memory: MemoryRange, b: Block) {
    memory.start <= b.start && b.end <= memory.end
  }

  predicate Apart(a: Block, b: Block) {
    Disjoint(a.start, a.end, b.start, b.end)
  }

  predicate GuardedBy(slot: BlacklistRange, b: Block) {
    slot.Active() && slot.range.start <= b.start && b.end <= slot.range.end && b.start < b.end
  }

  predicate Guarded(slots: Slots, b: Block) {
    exists i :: 0 <= i < |slots| && GuardedBy(slots[i], b)
  }

  /** `b` lies in memory and meets no active range. */
  predicate Vacant(slots: Slots, memory: MemoryRange, b: Block) {
    && InMemory(memory, b) && b.start < b.end
    && forall i :: 0 <= i < |slots| && slots[i].Active() ==> !Conflict(slots[i], b.start, b.end - b.start)
  }

  /** `b` meets none of the first `n` ranges. */
  predicate Avoids(slots: Slots, n: nat, b: Block) {
    forall i :: 0 <= i < n && i < |slots| && slots[i].Active() ==> !Conflict(slots[i], b.start, b.end - b.start)
  }

  /** A block and the slot that guards it. */
  datatype Reserved = Reserved(block: Block, slot: nat)

  /** `image` is where the payload runs; `blocks` are the stack, the heap and the ranges given to the host;
      `pending` are the ranges the host was told and has not reserved. */
  datatype World = World(slots: Slots, memory: MemoryRange, used: nat, image: Block, blocks: seq<Reserved>,
                         pending: seq<Block>)

  /** A reserved block lies in memory, is guarded by its slot, and avoids every range that was active when
      it was chosen, which are those of the slots before its own. */
  predicate Placed(w: World, r: Reserved) {
    && r.slot < w.used <= |w.slots| && GuardedBy(w.slots[r.slot], r.block)
    && Avoids(w.slots, r.slot, r.block)
    && InMemory(w.memory, r.block) && Apart(w.image, r.block)
  }

  predicate PairwiseApart(blocks: seq<Reserved>) {
    forall i, j :: 0 <= i < j < |blocks| ==> Apart(blocks[i].block, blocks[j].block)
  }

  predicate AllVacant(slots: Slots, memory: MemoryRange, pending: seq<Block>) {
    forall i :: 0 <= i < |pending| ==> Vacant(slots, memory, pending[i])
  }

  ghost predicate Safe(w: World) {
    && Filled(w.slots, w.used)
    && Guarded(w.slots, w.image)
    && (forall i :: 0 <= i < |w.blocks| ==> Placed(w, w.blocks[i]))
    && PairwiseApart(w.blocks)
    && AllVacant(w.slots, w.memory, w.pending)
  }

  datatype Event =
    | GetFreeRange(size: u32)
    | BlacklistRange(range: MemoryRange)
    | AnyOtherMessage

  /** The outstanding ranges that `range` covers; of ranges told twice, one. */
  function Claimed(pending: seq<Block>, range: MemoryRange): seq<Block> {
    if pending == [] then []
    else
      var b, rest := pending[0], Claimed(pending[1..], range);
      if range.start <= b.start && b.end <= range.end && ApartFrom(b, rest) then [b] + rest else rest
  }

  predicate ApartFrom(b: Block, blocks: seq<Block>) {
    forall i :: 0 <= i < |blocks| ==> Apart(b, blocks[i])
  }

  /** The outstanding ranges that `range` does not meet. */
  function Remaining(pending: seq<Block>, slot: Params.BlacklistRange): seq<Block> {
    if pending == [] then []
    else
      var b, rest := pending[0], Remaining(pending[1..], slot);
      if Conflict(slot, b.start, b.end - b.start) then rest else [b] + rest
  }

  function Guards(blocks: seq<Block>, slot: nat): (r: seq<Reserved>)
    ensures |r| == |blocks| && forall i :: 0 <= i < |r| ==> r[i] == Reserved(blocks[i], slot)
  {
    seq(|blocks|, i requires 0 <= i < |blocks| => Reserved(blocks[i], slot))
  }

  /** Memory of the world after an accepted blacklist call: what it covers of the outstanding ranges
      becomes reserved, and only the ranges it meets stop being outstanding. */
  function Reserve(w: World, range: MemoryRange): World
    requires Blacklisted(w.slots, range, ForbiddenDL).Some?
  {
    w.(slots := Blacklisted(w.slots, range, ForbiddenDL).value, used := w.used + 1,
       pending := Remaining(w.pending, Params.BlacklistRange(range, ForbiddenDL)),
       blocks := w.blocks + Guards(Claimed(w.pending, range), w.used))
  }

  /** The device's answer to one message, as far as placement goes. */
  function OnEvent(w: World, e: Event): World {
    match e
    case GetFreeRange(size) =>
      (match FindUnused(w.slots, w.memory, size)
       case None => w
       case Some(r) => if size > 0 then w.(pending := w.pending + [Block(r.start, r.start + size)]) else w)
    case BlacklistRange(range) =>
      if Blacklisted(w.slots, range, ForbiddenDL).Some? then Reserve(w, range) else w
    case AnyOtherMessage => w
  }

  function OnEvents(w: World, events: seq<Event>): World
    decreases events
  {
    if events == [] then w else OnEvents(OnEvent(w, events[0]), events[1..])
  }

  lemma FoundIsVacant(slots: Slots, memory: MemoryRange, size: u32)
    requires memory.end < U32_MAX && size > 0
    ensures match FindUnused(slots, memory, size)
            case None => true
            case Some(r) => r.end >= r.start + size && Vacant(slots, memory, Block(r.start, r.start + size))
                            && Vacant(slots, memory, Block(r.start, r.end))
  {
    hide Search, FirstFit, FindUnused, RoundUp8;
    FindUnusedIsFirstFit(slots, memory, size);
    RoundUp8Is(size);
    FirstFitFits(slots, memory, size, FindUnused(slots, memory, size));
  }

  lemma FirstFitFits(slots: Slots, memory: MemoryRange, size: u32, r: Option<MemoryRange>)
    requires FirstFit(slots, memory, size, r)
    ensures r.Some? ==>
              && r.value.end == r.value.start + RoundUp8(size)
              && Fits(slots, memory, RoundUp8(size), r.value.start)
  {
  }

  lemma GuardedKept(slots: Slots, k: nat, range: MemoryRange, b: Block)
    requires Filled(slots, k) && Blacklisted(slots, range, ForbiddenDL).Some?
    requires Guarded(slots, b)
    ensures Guarded(Blacklisted(slots, range, ForbiddenDL).value, b)
  {
    BlacklistFillsPrefix(slots, k, range, ForbiddenDL);
    var slots' := Blacklisted(slots, range, ForbiddenDL).value;
    var i :| 0 <= i < |slots| && GuardedBy(slots[i], b);
    assert slots'[..k][i] == slots[..k][i];
    assert GuardedBy(slots'[i], b);
  }

  lemma GuardedNow(slots: Slots, k: nat, range: MemoryRange, b: Block)
    requires Filled(slots, k) && Blacklisted(slots, range, ForbiddenDL).Some?
    requires range.start <= b.start < b.end <= range.end
    ensures Guarded(Blacklisted(slots, range, ForbiddenDL).value, b)
  {
    BlacklistFillsPrefix(slots, k, range, ForbiddenDL);
    assert GuardedBy(Blacklisted(slots, range, ForbiddenDL).value[k], b);
  }

  lemma VacantApart(slots: Slots, memory: MemoryRange, b: Block, c: Block)
    requires Vacant(slots, memory, b) && Guarded(slots, c)
    ensures Apart(c, b)
  {
    var i :| 0 <= i < |slots| && GuardedBy(slots[i], c);
    assert !Conflict(slots[i], b.start, b.end - b.start);
  }

  /** Memory that the search cannot hand out: it lies outside the range searched, or an active slot covers it. */
  predicate Fenced(slots: Slots, memory: MemoryRange, b: Block) {
    Guarded(slots, b) || Apart(Block(memory.start, memory.end), b)
  }

  lemma VacantMissesFenced(slots: Slots, memory: MemoryRange, b: Block, c: Block)
    requires Vacant(slots, memory, b) && Fenced(slots, memory, c)
    ensures Apart(b, c)
  {
    if Guarded(slots, c) {
      VacantApart(slots, memory, b, c);
    }
  }

  /** The first `used` slots are the active ones, so what lies in memory and avoids them misses what they fence. */
  lemma AvoidsFenced(slots: Slots, used: nat, memory: MemoryRange, b: Block, c: Block)
    requires Filled(slots, used) && Fenced(slots, memory, c)
    requires InMemory(memory, b) && b.start < b.end && Avoids(slots, used, b)
    ensures Apart(b, c)
  {
    if Guarded(slots, c) {
      var i :| 0 <= i < |slots| && GuardedBy(slots[i], c);
      assert i < used;
      assert !Conflict(slots[i], b.start, b.end - b.start);
    }
  }

  lemma VacantIs(slots: Slots, memory: MemoryRange, b: Block)
    requires Vacant(slots, memory, b)
    ensures InMemory(memory, b) && b.start < b.end
  {
  }

  lemma {:induction false} ClaimedAre(pending: seq<Block>, range: MemoryRange)
    ensures
      var claimed := Claimed(pending, range);
      && (forall b :: b in claimed ==> b in pending && range.start <= b.start && b.end <= range.end)
      && (forall i, j :: 0 <= i < j < |claimed| ==> Apart(claimed[i], claimed[j]))
  {
    if pending != [] {
      ClaimedAre(pending[1..], range);
    }
  }

  /** A range that is told once and covered is reserved, unless another covered one overlaps it. */
  lemma {:induction false} OnlyRangeIsClaimed(pending: seq<Block>, range: MemoryRange, b: Block)
    requires b in pending && range.start <= b.start && b.end <= range.end
    ensures b in Claimed(pending, range)
         || exists c :: c in Claimed(pending, range) && !Apart(b, c)
  {
    var b0, rest := pending[0], Claimed(pending[1..], range);
    var claimed := Claimed(pending, range);
    if b == b0 {
      if !ApartFrom(b, rest) {
        var i :| 0 <= i < |rest| && !Apart(b, rest[i]);
        assert rest[i] in claimed;
      } else {
        assert claimed[0] == b;
      }
    } else {
      OnlyRangeIsClaimed(pending[1..], range, b);
      assert claimed == rest || (claimed == [b0] + rest && forall c :: c in rest ==> c in claimed);
    }
  }

  /** What an accepted range does not meet stays outstanding, and only that. */
  lemma {:induction false} RemainingExactly(pending: seq<Block>, slot: Params.BlacklistRange, b: Block)
    ensures b in Remaining(pending, slot) <==> b in pending && !Conflict(slot, b.start, b.end - b.start)
  {
    hide Conflict;
    if pending != [] {
      RemainingExactly(pending[1..], slot, b);
      var rest := Remaining(pending[1..], slot);
      assert b in pending <==> b == pending[0] || b in pending[1..];
      assert b in [pending[0]] + rest <==> b == pending[0] || b in rest;
    }
  }

  lemma {:induction false} RemainingAre(slots: Slots, memory: MemoryRange, pending: seq<Block>, k: nat,
                                       slot: Params.BlacklistRange)
    requires AllVacant(slots, memory, pending) && k < |slots|
    ensures AllVacant(slots[k := slot], memory, Remaining(pending, slot))
  {
    hide Conflict, InMemory;
    if pending != [] {
      assert Vacant(slots, memory, pending[0]);
      assert AllVacant(slots, memory, pending[1..]) by {
        forall i | 0 <= i < |pending[1..]|
          ensures Vacant(slots, memory, pending[1..][i])
        {
          assert pending[1..][i] == pending[i + 1];
        }
      }
      RemainingAre(slots, memory, pending[1..], k, slot);
    }
  }

  lemma VacantAvoids(slots: Slots, memory: MemoryRange, b: Block, n: nat)
    requires Vacant(slots, memory, b)
    ensures Avoids(slots, n, b)
  {
  }

  /** Filling one more slot changes nothing for what was placed before. */
  lemma PlacedKept(w: World, w': World, r: Reserved)
    requires Placed(w, r) && w'.used >= w.used && w'.used <= |w'.slots| && |w'.slots| == |w.slots|
    requires w'.slots[..w.used] == w.slots[..w.used] && w'.memory == w.memory && w'.image == w.image
    ensures Placed(w', r)
  {
    hide Conflict, GuardedBy;
    assert w'.slots[..w.used][r.slot] == w.slots[..w.used][r.slot];
    forall i | 0 <= i < r.slot && w'.slots[i].Active()
      ensures !Conflict(w'.slots[i], r.block.start, r.block.end - r.block.start)
    {
      assert w'.slots[..w.used][i] == w.slots[..w.used][i];
    }
  }

  /** A block taken from a vacant place is placed. */
  lemma PlacedNow(w: World, w': World, range: MemoryRange, b: Block)
    requires Guarded(w.slots, w.image) && Vacant(w.slots, w.memory, b) && range.start <= b.start && b.end <= range.end
    requires w'.used == w.used + 1 <= |w'.slots| == |w.slots| && w'.memory == w.memory && w'.image == w.image
    requires w'.slots[..w.used] == w.slots[..w.used]
    requires w'.slots[w.used] == Params.BlacklistRange(range, ForbiddenDL)
    ensures Placed(w', Reserved(b, w.used))
  {
    hide Guarded, Vacant, Conflict;
    VacantApart(w.slots, w.memory, b, w.image);
    VacantIs(w.slots, w.memory, b);
    VacantAvoids(w.slots, w.memory, b, w.used);
    forall i | 0 <= i < w.used && w'.slots[i].Active()
      ensures !Conflict(w'.slots[i], b.start, b.end - b.start)
    {
      assert w'.slots[..w.used][i] == w.slots[..w.used][i];
    }
  }

  /** An accepted blacklist request keeps everything placed, and places what it claims. */
  lemma ReserveKeepsSafe(w: World, range: MemoryRange)
    requires Safe(w) && Blacklisted(w.slots, range, ForbiddenDL).Some?
    ensures Safe(Reserve(w, range))
  {
    hide Guarded, Vacant, Blacklisted, Filled, Placed, GuardedBy;
    var w', claimed := Reserve(w, range), Claimed(w.pending, range);
    BlacklistFillsPrefix(w.slots, w.used, range, ForbiddenDL);
    GuardedKept(w.slots, w.used, range, w.image);
    ClaimedAre(w.pending, range);
    forall i | 0 <= i < |w'.blocks|
      ensures Placed(w', w'.blocks[i])
    {
      if i < |w.blocks| {
        PlacedKept(w, w', w.blocks[i]);
      } else {
        var b := claimed[i - |w.blocks|];
        assert b in claimed;
        PlacedNow(w, w', range, b);
      }
    }
    forall i, j | 0 <= i < j < |w'.blocks|
      ensures Apart(w'.blocks[i].block, w'.blocks[j].block)
    {
      if i < |w.blocks| <= j {
        assert claimed[j - |w.blocks|] in claimed;
        PlacedIsGuarded(w, w.blocks[i]);
        VacantApart(w.slots, w.memory, claimed[j - |w.blocks|], w.blocks[i].block);
      }
    }
    FilledSlot(w.slots, w.used, range);
    RemainingAre(w.slots, w.memory, w.pending, w.used, Params.BlacklistRange(range, ForbiddenDL));
  }

  lemma PlacedIsGuarded(w: World, r: Reserved)
    requires Placed(w, r)
    ensures Guarded(w.slots, r.block)
  {
  }

  lemma FilledSlot(slots: Slots, k: nat, range: MemoryRange)
    requires Filled(slots, k) && Blacklisted(slots, range, ForbiddenDL).Some?
    ensures k < |slots|
    ensures Blacklisted(slots, range, ForbiddenDL).value == slots[k := Params.BlacklistRange(range, ForbiddenDL)]
  {
    BlacklistFillsPrefix(slots, k, range, ForbiddenDL);
    assert !slots[k].Active();
  }

  lemma AllVacantMore(slots: Slots, memory: MemoryRange, pending: seq<Block>, b: Block)
    requires AllVacant(slots, memory, pending) && Vacant(slots, memory, b)
    ensures AllVacant(slots, memory, pending + [b])
  {
    hide Vacant;
  }

  lemma EventKeepsSafe(w: World, e: Event)
    requires w.memory.end < U32_MAX && Safe(w)
    ensures Safe(OnEvent(w, e)) && OnEvent(w, e).memory == w.memory && OnEvent(w, e).image == w.image
    ensures w.blocks <= OnEvent(w, e).blocks
  {
    hide Guarded, Vacant, Blacklisted, Filled, FindUnused, AllVacant, Placed, PairwiseApart;
    match e
    case GetFreeRange(size) =>
      if size > 0 {
        FoundIsVacant(w.slots, w.memory, size);
        if FindUnused(w.slots, w.memory, size).Some? {
          var b := Block(FindUnused(w.slots, w.memory, size).value.start,
                         FindUnused(w.slots, w.memory, size).value.start + size);
          AllVacantMore(w.slots, w.memory, w.pending, b);
          AllPlacedKept(w, OnEvent(w, e));
        }
      }
    case BlacklistRange(range) =>
      if Blacklisted(w.slots, range, ForbiddenDL).Some? {
        ReserveKeepsSafe(w, range);
      }
    case AnyOtherMessage =>
  }

  lemma AllPlacedKept(w: World, w': World)
    requires w' == w.(pending := w'.pending)
    requires forall i :: 0 <= i < |w.blocks| ==> Placed(w, w.blocks[i])
    ensures forall i :: 0 <= i < |w.blocks| ==> Placed(w', w.blocks[i])
  {
  }

  /** Placement safety: after any messages whatsoever the image, the stack, the heap and every range
      handed out and then blacklisted are pairwise disjoint, guarded, (image aside) in memory, and clear
      of every range that was active when they were chosen. */
  lemma {:induction false} PlacementStaysSafe(w: World, events: seq<Event>)
    requires w.memory.end < U32_MAX && Safe(w)
    ensures Safe(OnEvents(w, events)) && OnEvents(w, events).image == w.image
    ensures OnEvents(w, events).memory == w.memory
    ensures w.blocks <= OnEvents(w, events).blocks
    decreases events
  {
    hide Safe, OnEvent;
    if events != [] {
      EventKeepsSafe(w, events[0]);
      PlacementStaysSafe(OnEvent(w, events[0]), events[1..]);
    }
  }

  /** The world right after `app` and the heap reservation of `main`. */
  function BootWorld(slots: Slots, used: nat, memory: MemoryRange, size: u32, base: u32): Option<World>
    requires memory.end < U32_MAX && base + size <= U32_MAX
  {
    match Blacklisted(slots, MemoryRange(base, base + size), ForbiddenDL)
    case None => None
    case Some(slots1) =>
      match FindUnused(slots1, memory, STACK_SIZE)
      case None => None
      case Some(stack) =>
        match Blacklisted(slots1, stack, ForbiddenDL)
        case None => None
        case Some(slots2) =>
          match FindUnused(slots2, memory, HEAP_SIZE)
          case None => None
          case Some(heap) =>
            match Blacklisted(slots2, heap, ForbiddenDL)
            case None => None
            case Some(slots3) =>
              Some(World(slots3, memory, used + 3, Block(base, base + size),
                         [Reserved(Block(stack.start, stack.end), used + 1),
                          Reserved(Block(heap.start, heap.end), used + 2)], []))
  }

  /** The boot establishes the invariant, so stack and heap also avoid every range that was in the table
      beforehand; the image, if the payload relocated, lies in memory and avoids them too. */
  lemma BootIsSafe(slots: Slots, used: nat, memory: MemoryRange, size: u32, base: u32)
    requires memory.end < U32_MAX && 0 < size && base + size <= U32_MAX
    requires Filled(slots, used)
    ensures
      match BootWorld(slots, used, memory, size, base)
      case None => true
      case Some(w) => Safe(w) && forall i :: 0 <= i < 2 ==> Avoids(slots, used, w.blocks[i].block)
    ensures
      match AppDecision(slots, memory, size, base).outcome
      case Relocated(addr) => Vacant(slots, memory, Block(addr, addr + size))
      case _ => true
  {
    hide Guarded, Vacant, Blacklisted, Filled, FindUnused, Placed, Avoids, AllVacant;
    FoundIsVacant(slots, memory, size);
    var range := MemoryRange(base, base + size);
    var image := Block(base, base + size);
    BlacklistFillsPrefix(slots, used, range, ForbiddenDL);
    var slots1 := Blacklisted(slots, range, ForbiddenDL);
    if slots1.Some? {
      GuardedNow(slots, used, range, image);
      var w1 := World(slots1.value, memory, used + 1, image, [], []);
      NothingPending(w1);
      assert Safe(w1);
      ReserveFound(w1, STACK_SIZE);
      var stack := FindUnused(w1.slots, memory, STACK_SIZE);
      if stack.Some? && Blacklisted(w1.slots, stack.value, ForbiddenDL).Some? {
        var w2 := Take(w1, stack.value);
        BlacklistFillsPrefix(w1.slots, w1.used, stack.value, ForbiddenDL);
        ReserveFound(w2, HEAP_SIZE);
        var heap := FindUnused(w2.slots, memory, HEAP_SIZE);
        if heap.Some? && Blacklisted(w2.slots, heap.value, ForbiddenDL).Some? {
          var w3 := Take(w2, heap.value);
          BlacklistFillsPrefix(w2.slots, w2.used, heap.value, ForbiddenDL);
          assert w3 == BootWorld(slots, used, memory, size, base).value;
          PrefixAvoided(slots, used, w3, w3.blocks[0]);
          PrefixAvoided(slots, used, w3, w3.blocks[1]);
        }
      }
    }
  }

  lemma NothingPending(w: World)
    requires w.pending == []
    ensures AllVacant(w.slots, w.memory, w.pending)
  {
  }

  lemma PrefixAvoided(slots: Slots, used: nat, w: World, r: Reserved)
    requires Placed(w, r) && used <= r.slot && used <= |slots| == |w.slots| && w.slots[..used] == slots[..used]
    ensures Avoids(slots, used, r.block)
  {
    hide Conflict;
    forall i | 0 <= i < used && slots[i].Active()
      ensures !Conflict(slots[i], r.block.start, r.block.end - r.block.start)
    {
      assert w.slots[..used][i] == slots[..used][i];
    }
  }

  /** A found range blacklisted as it is, the way `app` and `main` reserve stack and heap. */
  function Take(w: World, range: MemoryRange): World
    requires Blacklisted(w.slots, range, ForbiddenDL).Some?
  {
    w.(slots := Blacklisted(w.slots, range, ForbiddenDL).value, used := w.used + 1,
       blocks := w.blocks + [Reserved(Block(range.start, range.end), w.used)])
  }

  lemma ReserveFound(w: World, size: u32)
    requires w.memory.end < U32_MAX && Safe(w) && size > 0 && w.pending == []
    ensures
      match FindUnused(w.slots, w.memory, size)
      case None => true
      case Some(r) => Blacklisted(w.slots, r, ForbiddenDL).Some? ==> Safe(Take(w, r))
  {
    hide Guarded, Vacant, Blacklisted, Filled, FindUnused, Safe;
    FoundIsVacant(w.slots, w.memory, size);
    var r := FindUnused(w.slots, w.memory, size);
    if r.Some? && Blacklisted(w.slots, r.value, ForbiddenDL).Some? {
      var b := Block(r.value.start, r.value.end);
      TakeIsReserve(w, r.value);
      SafeWithPending(w, b);
      ReserveKeepsSafe(w.(pending := [b]), r.value);
    }
  }

  lemma SafeWithPending(w: World, b: Block)
    requires Safe(w) && Vacant(w.slots, w.memory, b)
    ensures Safe(w.(pending := [b]))
  {
    hide Vacant, Filled, Guarded, Placed, PairwiseApart;
    AllPlacedKept(w, w.(pending := [b]));
  }

  /** Taking a range at once is telling it and then reserving it. */
  lemma TakeIsReserve(w: World, range: MemoryRange)
    requires Blacklisted(w.slots, range, ForbiddenDL).Some? && w.pending == []
    requires range.start < range.end
    ensures Reserve(w.(pending := [Block(range.start, range.end)]), range) == Take(w, range)
  {
    hide Blacklisted;
    var b := Block(range.start, range.end);
    assert [b][1..] == [];
    assert Claimed([b], range) == [b];
    assert Remaining([b], Params.BlacklistRange(range, ForbiddenDL)) == [];
    assert Guards([b], w.used) == [Reserved(b, w.used)];
  }

  /** The world is the one the two boot steps leave: `app` up to the stack, then `main`'s heap. */
  lemma BootWorldIsBoot(slots: Slots, used: nat, memory: MemoryRange, size: u32, base: u32)
    requires memory.end < U32_MAX && base + size <= U32_MAX
    requires AppDecision(slots, memory, size, base).outcome.Running?
    ensures
      var slots2 := AppDecision(slots, memory, size, base).slots;
      match FindUnused(slots2, memory, HEAP_SIZE)
      case None => BootWorld(slots, used, memory, size, base) == None
      case Some(heap) =>
        match Blacklisted(slots2, heap, ForbiddenDL)
        case None => BootWorld(slots, used, memory, size, base) == None
        case Some(slots3) =>
          var w := BootWorld(slots, used, memory, size, base);
          && w.Some? && w.value.slots == slots3 && w.value.image == Block(base, base + size)
          && |w.value.blocks| == 2 && w.value.blocks[1].block == Block(heap.start, heap.end)
          && AppDecision(slots, memory, size, base).outcome.stackPointer == AlignDown(w.value.blocks[0].block.end, 8)
  {
    hide FindUnused, Blacklisted, AlignDown;
  }
}
