/** The host's boot session: which messages it sends in which order, and what the device's memory holds
    when control is handed over. */
module Selector {
  import opened Bytes
  import opened Codec
  import opened Device
  import opened Lockstep
  import opened HostExt
  import opened OwnMemory
  import opened Params
  import opened Placement
  import opened Plans
  import Relocation
  import H = Hook
  import T = Thumb
  import HookTheorems
  import LockstepSafety
  import LockstepTheorems
  import Messages
  import Translator
  import Bits

  /** `Broken`: a request made the payload write over itself, or hook where it cannot; the host does not
      learn of it. */
  datatype SessionEnd = Jumped(target: int, args: seq<u32>) | Repl | Failed | Broken

  datatype Outcome = Done | Refused | Lost

  predicate EndsAs(plan: Plan, c: Course, end: SessionEnd, d: DeviceState) {
    match c
    case Going(d') => d == d' && if plan.mode.REPL? then end.Repl? else end.Jumped?
    case Refusal => end.Failed?
    case Loss => end.Broken?
  }

  /** A part of the session has taken its course and left the device `d`. */
  predicate Took(c: Course, o: Outcome, d: DeviceState) {
    match c
    case Going(d') => o.Done? && d == d'
    case Refusal => o.Refused?
    case Loss => o.Lost?
  }

  // ----- what stays in memory -----

  /** The bytes are there, outside [lo, hi) at least; the device will not hand their range out, and they
      are none of its own. */
  predicate HeldAround(d: DeviceState, p: Image, lo: int, hi: int) {
    p.data != [] ==>
      && Guarded(d.slots, RangeOf(p)) && OwnMissed(d, p)
      && forall i {:trigger p.data[i]} ::
           0 <= i < |p.data| && !(lo <= p.addr + i < hi) ==> Get(d.mem, p.addr + i) == p.data[i]
  }

  predicate Held(d: DeviceState, p: Image) {
    HeldAround(d, p, 0, 0)
  }

  predicate AllHeld(d: DeviceState, ps: seq<Image>) {
    forall i :: 0 <= i < |ps| ==> Held(d, ps[i])
  }

  predicate ApartFromAll(p: Image, ps: seq<Image>) {
    forall i :: 0 <= i < |ps| && ps[i].data != [] ==> Apart(RangeOf(ps[i]), RangeOf(p))
  }

  /** Each range is apart from those before it. */
  predicate AllApart(ps: seq<Image>) {
    forall i :: 0 <= i < |ps| ==> ApartFromAll(ps[i], ps[..i])
  }

  /** Held images stay held if memory changes nowhere in them. */
  lemma HeldKept(d: DeviceState, d': DeviceState, p: Image)
    requires Held(d, p) && d'.home == d.home && (Guarded(d.slots, RangeOf(p)) ==> Guarded(d'.slots, RangeOf(p)))
    requires p.data != [] ==> SameOn(d.mem, d'.mem, p.addr, p.addr + |p.data|)
    ensures Held(d', p)
  {
    hide Guarded;
  }

  lemma StoreKeepsHeld(d: DeviceState, ps: seq<Image>, p: Image)
    requires AllHeld(d, ps) && 0 <= p.addr <= U32_MAX
    requires p.data == [] || ApartFromAll(p, ps)
    ensures AllHeld(Stored(d, p.addr, p.data), ps)
  {
    hide Guarded, HeldAround, Overlay;
    var d' := Stored(d, p.addr, p.data);
    OverlayOutside(d.mem, p.addr, p.data);
    forall i | 0 <= i < |ps|
      ensures Held(d', ps[i])
    {
      assert Held(d, ps[i]);
      if ps[i].data != [] {
        StoreMisses(d, ps[i], p);
      }
      HeldKept(d, d', ps[i]);
    }
  }

  lemma StoreMisses(d: DeviceState, q: Image, p: Image)
    requires p.data == [] || Apart(RangeOf(q), RangeOf(p))
    requires 0 <= p.addr <= U32_MAX
    ensures SameOn(d.mem, Stored(d, p.addr, p.data).mem, q.addr, q.addr + |q.data|)
  {
  }

  predicate InMem(m: Mem, p: Image) {
    forall i :: 0 <= i < |p.data| ==> Get(m, p.addr + i) == p.data[i]
  }

  lemma StoredIsInMem(d: DeviceState, p: Image)
    requires 0 <= p.addr <= U32_MAX
    ensures InMem(Stored(d, p.addr, p.data).mem, p)
  {
  }

  /** The ranges that the blacklist protects stay protected; the table is the only memory written. */
  lemma BlacklistKeeps(d: DeviceState, used: nat, range: MemoryRange)
    requires Filled(d.slots, used) && |d.slots| == SLOTS && Device.Blacklist(d, range).Some?
    ensures
      var d' := Device.Blacklist(d, range).value;
      && d'.home == d.home && d'.memory == d.memory && d'.preloader == d.preloader
      && Filled(d'.slots, used + 1)
      && (forall b :: Guarded(d.slots, b) ==> Guarded(d'.slots, b))
      && SameOutside(d.mem, d'.mem, d.home.tableAt, d.home.tableAt + TABLE_SIZE)
  {
    hide Guarded, Blacklisted, Filled, Recorded;
    BlacklistFillsPrefix(d.slots, used, range, ForbiddenDL);
    RecordedIs(d.mem, d.home.tableAt, d.slots, range, ForbiddenDL);
    forall b | Guarded(d.slots, b)
      ensures Guarded(Device.Blacklist(d, range).value.slots, b)
    {
      GuardedKept(d.slots, used, range, b);
    }
  }

  /** Once its range is blacklisted the new bytes are held too. */
  lemma BlacklistHolds(d: DeviceState, used: nat, ps: seq<Image>, p: Image)
    requires FitsU32(p) && Filled(d.slots, used) && |d.slots| == SLOTS && d.home.Valid()
    requires AllHeld(d, ps) && OwnMissed(d, p)
    requires Blacklisting(d, p).Some?
    ensures AllHeld(Blacklisting(d, p).value, ps)
    ensures InMem(Blacklisting(d, p).value.mem, p) ==> AllHeld(Blacklisting(d, p).value, ps + [p])
    ensures InMem(d.mem, p) ==> InMem(Blacklisting(d, p).value.mem, p)
  {
    hide Guarded, Blacklisted, Filled, Recorded, Get;
    var d', range := Blacklisting(d, p).value, MemoryRange(p.addr, p.addr + |p.data| + 1);
    BlacklistKeeps(d, used, range);
    forall i | 0 <= i < |ps|
      ensures Held(d', ps[i])
    {
      assert Held(d, ps[i]);
      OwnMissesTable(d, ps[i]);
      HeldKept(d, d', ps[i]);
    }
    OwnMissesTable(d, p);
    if p.data != [] {
      GuardedNow(d.slots, used, range, RangeOf(p));
    }
  }

  lemma OwnMissesTable(d: DeviceState, p: Image)
    requires d.home.Valid()
    ensures OwnMissed(d, p) && p.data != [] ==>
              Disjoint(p.addr, p.addr + |p.data|, d.home.tableAt, d.home.tableAt + TABLE_SIZE)
  {
  }

  /** The payload's own memory is guarded, and what the loader needs is not handed out. */
  predicate OwnGuarded(d: DeviceState) {
    && Guarded(d.slots, d.home.image) && Guarded(d.slots, d.home.stack) && Guarded(d.slots, d.home.heap)
    && forall i :: 0 <= i < |d.home.loader| ==> Fenced(d.slots, d.memory, d.home.loader[i])
  }

  /** A safe world is one in which a session can start. */
  lemma SafeIsGuarded(w: World, d: DeviceState)
    requires Safe(w) && Messages.Describes(w, d) && Messages.Houses(w, d.home) && d.home.heap.start < d.home.heap.end
    requires Messages.LoaderFenced(d.slots, d.memory, d.home.image, d.home.loader)
    ensures OwnGuarded(d) && Filled(d.slots, w.used)
  {
    hide Filled, GuardedBy, Fenced;
    PlacedIsGuarded(w, w.blocks[0]);
    PlacedIsGuarded(w, w.blocks[1]);
  }

  /** The boot leaves everything that the session below asks for. */
  lemma BootedCanStart(m: Mem, base: u32, pristine: Mem, slots: Slots, used: nat, memory: MemoryRange,
                       layout: Relocation.Layout, at: u32, loader: seq<Block>, replacement: u32)
    requires layout.Valid() && at + layout.size <= U32_MAX && memory.end < U32_MAX
    requires |slots| == SLOTS && Filled(slots, used)
    requires Messages.LoaderFenced(slots, memory, Block(at, at + layout.size), loader)
    requires Relocation.LinkedTable(pristine, at, layout) && SameImage(pristine, at, m, base, layout.size)
    requires HasTable(m, base + layout.table, slots)
    requires Relocation.AppDecision(slots, memory, layout.size, at).outcome.Running?
    requires BootWorld(slots, used, memory, layout.size, at).Some?
    ensures
      var w := BootWorld(slots, used, memory, layout.size, at).value;
      var heap := FindUnused(Relocation.AppDecision(slots, memory, layout.size, at).slots, memory, HEAP_SIZE);
      && heap.Some?
      && var d := Messages.Booted(pristine, slots, memory, layout, at, heap.value, w, loader, replacement);
         Intact(d) && OwnGuarded(d) && Filled(d.slots, used + 3)
  {
    hide Relocation.AppDecision, Relocation.AppMemory, Relocation.LinkedTable, FindUnused, Blacklisted, Recorded,
         Filled, HasTable, Guarded, Vacant, GuardedBy, Avoids, AllVacant, SameImage, Fenced, Placed, Intact,
         BootWorld, Safe;
    Messages.BootedIsReady(m, base, pristine, slots, used, memory, layout, at, loader, replacement);
    Messages.BootWorldMemory(slots, used, memory, layout.size, at);
    var w := BootWorld(slots, used, memory, layout.size, at).value;
    var heap := FindUnused(Relocation.AppDecision(slots, memory, layout.size, at).slots, memory, HEAP_SIZE).value;
    forall i | 0 <= i < |loader|
      ensures Fenced(w.slots, memory, loader[i])
    {
      BootKeepsFenced(slots, used, memory, layout.size, at, loader[i]);
    }
    HeapIsNonempty(Relocation.AppDecision(slots, memory, layout.size, at).slots, memory);
    BootWorldUsed(slots, used, memory, layout.size, at);
    SafeIsGuarded(w, Messages.Booted(pristine, slots, memory, layout, at, heap, w, loader, replacement));
  }

  lemma HeapIsNonempty(slots: Slots, memory: MemoryRange)
    requires memory.end < U32_MAX
    ensures match FindUnused(slots, memory, HEAP_SIZE)
            case None => true
            case Some(r) => r.start < r.end
  {
    hide FindUnused, Vacant;
    FoundIsVacant(slots, memory, HEAP_SIZE);
  }

  lemma BootWorldUsed(slots: Slots, used: nat, memory: MemoryRange, size: u32, base: u32)
    requires memory.end < U32_MAX && base + size <= U32_MAX
    ensures match BootWorld(slots, used, memory, size, base)
            case None => true
            case Some(w) => w.used == used + 3
  {
    hide FindUnused, Blacklisted;
  }

  /** The boot adds to the table, so what it fenced stays fenced. */
  lemma BootKeepsFenced(slots: Slots, used: nat, memory: MemoryRange, size: u32, base: u32, b: Block)
    requires memory.end < U32_MAX && base + size <= U32_MAX && Filled(slots, used) && Fenced(slots, memory, b)
    requires BootWorld(slots, used, memory, size, base).Some?
    ensures Fenced(BootWorld(slots, used, memory, size, base).value.slots, memory, b)
  {
    hide Fenced, Blacklisted, Filled, FindUnused;
    var range := MemoryRange(base, base + size);
    BlacklistFillsPrefix(slots, used, range, ForbiddenDL);
    FencedKept(slots, used, memory, range, b);
    var slots1 := Blacklisted(slots, range, ForbiddenDL).value;
    var stack := FindUnused(slots1, memory, Relocation.STACK_SIZE).value;
    BlacklistFillsPrefix(slots1, used + 1, stack, ForbiddenDL);
    FencedKept(slots1, used + 1, memory, stack, b);
    var slots2 := Blacklisted(slots1, stack, ForbiddenDL).value;
    var heap := FindUnused(slots2, memory, HEAP_SIZE).value;
    FencedKept(slots2, used + 2, memory, heap, b);
  }

  lemma FencedKept(slots: Slots, used: nat, memory: MemoryRange, range: MemoryRange, b: Block)
    requires Filled(slots, used) && Blacklisted(slots, range, ForbiddenDL).Some?
    requires Fenced(slots, memory, b)
    ensures Fenced(Blacklisted(slots, range, ForbiddenDL).value, memory, b)
  {
    hide Guarded, Blacklisted, Filled;
    if Guarded(slots, b) {
      GuardedKept(slots, used, range, b);
    }
  }

  /** A range the device finds meets nothing that is held, nothing of the payload's own or the loader's. */
  lemma FoundIsApart(d: DeviceState, ps: seq<Image>, data: seq<u8>)
    requires AllHeld(d, ps) && OwnGuarded(d) && d.memory.end < U32_MAX && 0 < |data| <= U32_MAX
    ensures
      match FindUnused(d.slots, d.memory, |data|)
      case None => true
      case Some(r) =>
        var p := Image(r.start, data);
        FitsU32(p) && ApartFromAll(p, ps) && InMemory(d.memory, RangeOf(p)) && OwnMissed(d, p)
  {
    hide Guarded, FindUnused, Vacant, Get, Fenced;
    FoundIsVacant(d.slots, d.memory, |data|);
    if FindUnused(d.slots, d.memory, |data|).Some? {
      var p := Image(FindUnused(d.slots, d.memory, |data|).value.start, data);
      VacantIs(d.slots, d.memory, RangeOf(p));
      VacantApart(d.slots, d.memory, RangeOf(p), d.home.image);
      VacantApart(d.slots, d.memory, RangeOf(p), d.home.stack);
      VacantApart(d.slots, d.memory, RangeOf(p), d.home.heap);
      forall i | 0 <= i < |d.home.loader|
        ensures Apart(RangeOf(p), d.home.loader[i])
      {
        VacantMissesFenced(d.slots, d.memory, RangeOf(p), d.home.loader[i]);
      }
      forall i | 0 <= i < |ps| && ps[i].data != []
        ensures Apart(RangeOf(ps[i]), RangeOf(p))
      {
        assert Held(d, ps[i]);
        VacantApart(d.slots, d.memory, RangeOf(p), RangeOf(ps[i]));
      }
    }
  }

  lemma HeldFrame(d: DeviceState, d': DeviceState, ps: seq<Image>)
    requires AllHeld(d, ps) && d'.mem == d.mem && d'.slots == d.slots && d'.home == d.home
    ensures AllHeld(d', ps)
  {
    hide Guarded;
    forall i | 0 <= i < |ps|
      ensures Held(d', ps[i])
    {
      assert Held(d, ps[i]);
      HeldKept(d, d', ps[i]);
    }
  }

  lemma HeldOf(d: DeviceState, ps: seq<Image>, i: nat)
    requires AllHeld(d, ps) && i < |ps|
    ensures Held(d, ps[i])
  {
  }

  lemma HeldPrefix(d: DeviceState, ps: seq<Image>, more: seq<Image>)
    requires AllHeld(d, ps + more)
    ensures AllHeld(d, ps)
  {
    hide HeldAround;
    forall i | 0 <= i < |ps|
      ensures Held(d, ps[i])
    {
      HeldOf(d, ps + more, i);
    }
  }

  lemma ApartSnoc(ps: seq<Image>, p: Image)
    requires AllApart(ps) && ApartFromAll(p, ps)
    ensures AllApart(ps + [p])
  {
    hide ApartFromAll;
    var all := ps + [p];
    forall i | 0 <= i < |all|
      ensures ApartFromAll(all[i], all[..i])
    {
      assert i < |ps| ==> all[i] == ps[i] && all[..i] == ps[..i];
      assert i == |ps| ==> all[i] == p && all[..i] == ps;
    }
  }

  lemma ApartPair(ps: seq<Image>, i: nat, j: nat)
    requires AllApart(ps) && i < |ps| && j < |ps| && i != j && ps[i].data != [] && ps[j].data != []
    ensures Apart(RangeOf(ps[i]), RangeOf(ps[j]))
  {
    var lo, hi := if i < j then i else j, if i < j then j else i;
    assert ApartFromAll(ps[hi], ps[..hi]) && ps[..hi][lo] == ps[lo];
  }

  // ----- the hook -----

  /** The bytes the hook's patch covers. */
  function PatchEnd(h: H.HookInfo): int {
    h.target + 2 * |h.patch|
  }

  /** The function to be hooked lies in the LK image, with the bytes its patch can cover. */
  predicate PatchInLk(lk: LkPlan) {
    var target := AlignDown(lk.genericRead, 2);
    lk.addr <= target && target + Translator.PATCH_SIZE <= lk.addr + |lk.data|
  }

  /** A hook changes what is held under its patch and nowhere else. */
  lemma HookHolds(d: DeviceState, ptr: u32, p: Image)
    requires Hookable(d, ptr) && Intact(d) && Held(d, p)
    ensures
      var h, d' := HookAt(d, ptr), Hooked(d, ptr);
      && HeldAround(d', p, h.target, PatchEnd(h))
      && (p.data == [] || Disjoint(p.addr, p.addr + |p.data|, h.target, PatchEnd(h)) ==> Held(d', p))
  {
    hide Hookable, HookAt, Hooked, H.Shape, H.Live, Guarded, HasTable, Get;
    HookWrites(d, ptr);
    HookedKeeps(d, ptr);
    var h, d' := HookAt(d, ptr), Hooked(d, ptr);
    if p.data != [] {
      assert Disjoint(p.addr, p.addr + |p.data|, h.code, h.code + Translator.TRAMPOLINE_SIZE);
      forall i | 0 <= i < |p.data| && !(h.target <= p.addr + i < PatchEnd(h))
        ensures Get(d'.mem, p.addr + i) == p.data[i]
      {
        assert Get(d.mem, p.addr + i) == p.data[i];
      }
    }
  }

  // ----- the handover -----

  /** The user chose ranges apart from each other; the code does not check. */
  predicate Calm(plan: Plan) {
    AllApart(plan.uploads + (if plan.lk.Some? then [LkImage(plan.lk.value)] else []))
  }

  /** Memory with the LK image as it was uploaded. */
  function UnhookedLk(d: DeviceState, lk: LkPlan): Mem {
    Overlay(d.mem, lk.addr, lk.data)
  }

  /** The hook is the one made of the function as it was uploaded. */
  predicate HookOfLk(d: DeviceState, lk: LkPlan, h: H.HookInfo) {
    var text := UnhookedLk(d, lk);
    H.CanHook(text, h.target, h.code) && h == H.MakeHook(text, h.target, h.code, d.home.replacement)
  }

  /** `ptr` enters the function at `f` in Thumb state. */
  predicate IsThumbPointer(ptr: u32, f: u32) {
    ptr % 2 == 1 && AlignDown(ptr, 2) == AlignDown(f, 2)
  }

  /** The device has LK's parameters and a live hook over its read function, whose trampoline stands for that
      function as uploaded; the boot image is where the parameters say, or is the first upload. Only the patch
      differs from what was uploaded. */
  predicate LkHooked(plan: Plan, lk: LkPlan, d: DeviceState) {
    && d.lk.Some?
    && IsThumbPointer(d.lk.value.ptrMtPartGenericRead, lk.genericRead)
    && IsThumbPointer(d.lk.value.ptrMtPartGetPartition, lk.getPartition)
    && d.hooks != []
    && var h := d.hooks[|d.hooks| - 1];
       && h.target == AlignDown(lk.genericRead, 2) && H.Live(d.mem, h)
       && h.patch == Translator.PatchCode(h.target, H.ThumbAddress(d.home.replacement))
       && HeldAround(d, LkImage(lk), h.target, PatchEnd(h))
       && (PatchInLk(lk) ==> HookOfLk(d, lk, h) && PatchEnd(h) <= h.target + Translator.PATCH_SIZE)
       && match plan.bootImage
          case None => plan.uploads != [] && d.lk.value.bootimgScratchAddr == plan.uploads[0].addr
          case Some(data) =>
            var p := Image(d.lk.value.bootimgScratchAddr, data);
            HeldAround(d, p, h.target, PatchEnd(h)) && (PatchInLk(lk) ==> Held(d, p))
  }

  /** What is true when the device leaves for the boot loader's jump. */
  predicate HandedOver(plan: Plan, d: DeviceState, end: SessionEnd)
    requires end.Jumped?
  {
    && end.target == H.ThumbAddress(plan.bldrJump) && |end.args| == 3
    && React(true, d, Jump(end.args[0], Some(end.args[1]), Some(end.args[2]))) == Leave(end.target, end.args)
    && end.args[0] == (if plan.lk.Some? && (plan.mode.Preloader? || plan.mode.LK?) then plan.lk.value.addr
                       else plan.jumpAddr)
    && (match plan.lk
        case None => end.args[1] == end.args[2] == 0
        case Some(lk) =>
          var bootarg := Image(end.args[1], lk.bootarg);
          && end.args[2] == |lk.bootarg| && InMemory(d.memory, RangeOf(bootarg))
          && (!plan.mode.LK? || PatchInLk(lk) ==> Held(d, bootarg))
          && (!plan.mode.LK? ==> Held(d, LkImage(lk))))
    && (plan.mode.LK? ==> plan.lk.Some? && LkHooked(plan, plan.lk.value, d))
  }

  /** Entering the hooked function of LK reaches the payload's replacement, with the state unchanged. */
  lemma HookedLkReachesReplacement<R(!new)>(exec: T.Semantics<R>, plan: Plan, lk: LkPlan, d: DeviceState,
                                            core: T.Core<R>)
    requires LkHooked(plan, lk, d) && core.it == []
    ensures
      var target := AlignDown(lk.genericRead, 2);
      T.Run(exec, d.mem, if target % 4 == 0 then 1 else 2, T.State(target, core))
      == Some(T.State(H.ThumbAddress(d.home.replacement) - 1, core))
  {
    hide H.Live, T.Run, Translator.PatchCode, HeldAround, PatchInLk, HookOfLk;
    HookTheorems.TargetReachesReplacement(exec, d.mem, d.hooks[|d.hooks| - 1], d.home.replacement, core);
  }

  /** Calling the original of the hooked function, as the payload's replacement does, behaves as the function in
      LK as uploaded, for as long as the code after its prologue does not look at the patched bytes. */
  lemma HookedLkOriginalIsUploaded<R(!new)>(exec: T.Semantics<R>, plan: Plan, lk: LkPlan, d: DeviceState,
                                            core: T.Core<R>, k: nat)
    requires LkHooked(plan, lk, d) && PatchInLk(lk) && core.it == []
    requires
      var text, target := UnhookedLk(d, lk), AlignDown(lk.genericRead, 2);
      var items := Translator.Items(text, target, 0);
      && HookTheorems.SupportedPrologue(exec, text, target) && HookTheorems.Relocatable(items)
      && match T.Run(exec, text, |items|, T.State(target, core))
         case None => true
         case Some(st) => T.RunAvoids(exec, text, k, st, [(target, target + Translator.PATCH_SIZE)])
    ensures
      var text, target := UnhookedLk(d, lk), AlignDown(lk.genericRead, 2);
      var items, h := Translator.Items(text, target, 0), d.hooks[|d.hooks| - 1];
      T.Run(exec, d.mem, |Translator.Body(items)| + 1 + k, T.State(h.code, core))
      == T.Run(exec, text, |items| + k, T.State(target, core))
  {
    hide H.Live, T.Run, T.RunAvoids, H.CanHook, H.MakeHook, HeldAround, Translator.Items,
         HookTheorems.SupportedPrologue, HookTheorems.Relocatable, Translator.Body, UnhookedLk,
         Translator.PatchCode, T.SameBut;
    var h, text := d.hooks[|d.hooks| - 1], UnhookedLk(d, lk);
    var places := [(h.target, h.target + Translator.PATCH_SIZE)];
    OnlyPatchDiffers(d, lk, h);
    HookTheorems.OriginalBehavesAsUnhooked(exec, text, d.mem, h.target, h.code, d.home.replacement, core, k, places);
  }

  lemma HeldByte(d: DeviceState, p: Image, lo: int, hi: int, x: int)
    requires HeldAround(d, p, lo, hi) && p.addr <= x < p.addr + |p.data| && !(lo <= x < hi)
    ensures Get(d.mem, x) == p.data[x - p.addr]
  {
    hide Guarded, OwnMissed, Get;
    var i := x - p.addr;
    assert Get(d.mem, p.addr + i) == p.data[i];
  }

  lemma OnlyPatchDiffers(d: DeviceState, lk: LkPlan, h: H.HookInfo)
    requires HeldAround(d, LkImage(lk), h.target, PatchEnd(h)) && PatchEnd(h) <= h.target + Translator.PATCH_SIZE
    ensures T.SameBut(UnhookedLk(d, lk), d.mem, [(h.target, h.target + Translator.PATCH_SIZE)])
  {
    hide HeldAround, Overlay, Get;
    var places := [(h.target, h.target + Translator.PATCH_SIZE)];
    OverlayOutside(d.mem, lk.addr, lk.data);
    forall x | !T.Within(x, places)
      ensures Get(d.mem, x) == Get(UnhookedLk(d, lk), x)
    {
      assert !(places[0].0 <= x < places[0].1);
      if lk.addr <= x < lk.addr + |lk.data| {
        OverlayAt(d.mem, lk.addr, lk.data, x);
        HeldByte(d, LkImage(lk), h.target, PatchEnd(h), x);
      }
    }
  }

  /** LK written back over the hooked memory is the memory before the hook, but for the trampoline. */
  lemma LkPutBack(d: DeviceState, d': DeviceState, lk: LkPlan, h: H.HookInfo)
    requires Held(d, LkImage(lk)) && PatchInLk(lk) && h.target == AlignDown(lk.genericRead, 2)
    requires PatchEnd(h) <= h.target + Translator.PATCH_SIZE
    requires forall x {:trigger Get(d'.mem, x)} ::
               !(h.code <= x < h.code + Translator.TRAMPOLINE_SIZE) && !(h.target <= x < PatchEnd(h))
               ==> Get(d'.mem, x) == Get(d.mem, x)
    ensures SameOutside(d.mem, UnhookedLk(d', lk), h.code, h.code + Translator.TRAMPOLINE_SIZE)
  {
    hide HeldAround, Overlay, Get;
    var text := UnhookedLk(d', lk);
    OverlayOutside(d'.mem, lk.addr, lk.data);
    forall x | !(h.code <= x < h.code + Translator.TRAMPOLINE_SIZE)
      ensures Get(text, x) == Get(d.mem, x)
    {
      if lk.addr <= x < lk.addr + |lk.data| {
        OverlayAt(d'.mem, lk.addr, lk.data, x);
        HeldByte(d, LkImage(lk), 0, 0, x);
      }
    }
  }

  /** The parameters were accepted, so the jump leaves the handler and no answer comes. */
  lemma JumpLeaves(d: DeviceState, jump: u32, base: u32, size: u32)
    requires d.preloader.Some?
    ensures Perform(true, d, Request(Jump(jump, Some(base), Some(size)), [])).None?
    ensures React(true, d, Jump(jump, Some(base), Some(size)))
         == Leave(H.ThumbAddress(d.preloader.value.ptrBldrJump), [jump, base, size])
  {
  }

  lemma CalmIs(plan: Plan)
    requires Calm(plan)
    ensures AllApart(plan.uploads)
    ensures plan.lk.Some? ==> ApartFromAll(LkImage(plan.lk.value), plan.uploads)
  {
    hide ApartFromAll;
    var ps := plan.uploads;
    if plan.lk.Some? {
      var all := ps + [LkImage(plan.lk.value)];
      assert all[|ps|] == LkImage(plan.lk.value) && all[..|ps|] == ps;
      forall i | 0 <= i < |ps|
        ensures ApartFromAll(ps[i], ps[..i])
      {
        assert all[i] == ps[i] && all[..i] == ps[..i];
      }
    } else {
      assert ps + [] == ps;
    }
  }

  // ----- the session -----

  lemma BlacklistReady(d: DeviceState, used: nat, range: MemoryRange)
    requires Filled(d.slots, used) && Intact(d) && OwnGuarded(d) && Device.Blacklist(d, range).Some?
    ensures
      var d' := Device.Blacklist(d, range).value;
      Filled(d'.slots, used + 1) && Intact(d') && OwnGuarded(d')
  {
    hide Guarded, Filled, Blacklisted, Recorded, HasTable;
    BlacklistKeeps(d, used, range);
    ReplyKeepsIntact(true, d, Message.BlacklistRange(range));
  }

  lemma StoreReady(d: DeviceState, p: Image)
    requires 0 <= p.addr <= U32_MAX && Intact(d) && OwnMissed(d, p)
    ensures Intact(Stored(d, p.addr, p.data))
  {
    hide Intact;
    WriteKeepsIntact(d, p.addr, p.data);
  }

  /** Blacklisting before the upload comes to the same. */
  lemma StoreAfter(d: DeviceState, used: nat, ps: seq<Image>, p: Image)
    requires FitsU32(p) && AllHeld(d, ps) && ApartFromAll(p, ps) && OwnMissed(d, p)
    requires Filled(d.slots, used) && |d.slots| == SLOTS && d.home.Valid() && Blacklisting(d, p).Some?
    ensures AllHeld(Stored(Blacklisting(d, p).value, p.addr, p.data), ps + [p])
  {
    hide Guarded, Filled, Device.Blacklist, Overlay, HeldAround, InMem, ApartFromAll, OwnMissed, Home.Valid;
    var d1 := Blacklisting(d, p).value;
    var d2 := Stored(d1, p.addr, p.data);
    BlacklistHolds(d, used, ps, p);
    BlacklistKeeps(d, used, MemoryRange(p.addr, p.addr + |p.data| + 1));
    StoreKeepsHeld(d1, ps, p);
    StoredIsInMem(d1, p);
    StillMissed(d, d2, p);
    BlacklistGuards(d, used, p);
    NewIsHeld(d2, p);
  }

  lemma BlacklistGuards(d: DeviceState, used: nat, p: Image)
    requires FitsU32(p) && Filled(d.slots, used) && Blacklisting(d, p).Some?
    ensures p.data != [] ==> Guarded(Blacklisting(d, p).value.slots, RangeOf(p))
  {
    hide Guarded, Filled, Blacklisted, Recorded;
    if p.data != [] {
      GuardedNow(d.slots, used, MemoryRange(p.addr, p.addr + |p.data| + 1), RangeOf(p));
    }
  }

  lemma NewIsHeld(d: DeviceState, p: Image)
    requires InMem(d.mem, p) && OwnMissed(d, p) && (p.data != [] ==> Guarded(d.slots, RangeOf(p)))
    ensures Held(d, p)
  {
    hide Guarded, OwnMissed;
  }

  class Host {
    const session: Session

    constructor (session: Session)
      ensures this.session == session
    {
      this.session := session;
    }

    /** The device is in order, with `used` slots of its table taken. */
    ghost predicate Ready(used: nat)
      reads session
    {
      && session.Clean() && session.device.memory.end < U32_MAX
      && Filled(session.device.slots, used) && Intact(session.device) && OwnGuarded(session.device)
    }

    /** What no step of the session changes. */
    twostate predicate Steady()
      reads session
    {
      && session.device.home == old(session.device.home) && session.device.memory == old(session.device.memory)
      && session.device.preloader == old(session.device.preloader)
      && session.Clean() && old(session.written) <= session.written
    }

    /** A message without raw bytes that the device must ack. */
    method Expect(m: Message) returns (ok: bool)
      requires session.Clean() && !m.Write? && Perform(session.pl, session.device, Request(m, [])).Some?
      modifies session
      ensures session.Clean() && session.written == old(session.written)
      ensures
        var (d, a) := Perform(session.pl, old(session.device), Request(m, [])).value;
        session.device == d && (ok <==> a.response == Response.Ack)
    {
      hide Perform;
      var a := session.Exchange(Request(m, []), true);
      ok := a.response.Ack?;
    }

    method BlacklistRange(p: Image) returns (ok: bool)
      requires session.Clean() && FitsU32(p)
      modifies session
      ensures session.Clean() && session.written == old(session.written)
      ensures ok <==> Blacklisting(old(session.device), p).Some?
      ensures session.device == if ok then Blacklisting(old(session.device), p).value else old(session.device)
    {
      hide Blacklisted, Recorded;
      ok := Expect(Message.BlacklistRange(MemoryRange(p.addr, p.addr + |p.data| + 1)));
    }

    method GetFreeRange(size: u32) returns (start: Option<u32>)
      requires session.Clean()
      modifies session
      ensures session.Clean() && session.written == old(session.written)
      ensures session.device == old(session.device)
      ensures match FindUnused(session.device.slots, session.device.memory, size)
              case None => start == None
              case Some(r) => start == Some(r.start)
    {
      hide FindUnused;
      var a := session.Exchange(Request(Message.GetFreeRange(size), []), true);
      start := if a.response.Range? then a.response.start else None;
    }

    /** An image goes to the address it was given, then its range is blacklisted. */
    method PlaceImage(p: Image, ghost used: nat, ghost ps: seq<Image>, ghost calm: bool) returns (o: Outcome)
      requires FitsU32(p) && Ready(used)
      requires if calm then AllHeld(session.device, ps) && ApartFromAll(p, ps) else ps == []
      modifies session
      ensures Steady() && Took(PlaceOne(old(session.device), p), o, session.device)
      ensures o.Lost? <==> !OwnMissed(old(session.device), p)
      ensures o.Refused? <==> OwnMissed(old(session.device), p) && used == SLOTS
      ensures o.Done? ==> Ready(used + 1) && AllHeld(session.device, ps + [p])
    {
      hide Overlay, Filled, Guarded, Intact, ApartFromAll, HeldAround, OwnMissed, InMem, Device.Blacklist;
      SlotsAre(session.device);
      FilledBound(session.device.slots, used);
      OneExactly(session.device, used, p);
      assert OwnMissed(session.device, p) <==> session.device.home.Misses(p.addr, |p.data|) by {
        MissedIs(session.device, p);
      }
      if !session.device.home.Misses(p.addr, |p.data|) {
        return Lost;
      }
      ghost var stored := Stored(session.device, p.addr, p.data);
      if p.data == [] || calm {
        NoneApart(p);
        StoreKeepsHeld(session.device, ps, p);
      }
      StoredIsInMem(session.device, p);
      StoreReady(session.device, p);
      StillMissed(session.device, stored, p);
      session.Upload(p.addr, p.data);
      var ok := BlacklistRange(p);
      IntactIs(stored);
      if !ok {
        return Refused;
      }
      BlacklistReady(stored, used, MemoryRange(p.addr, p.addr + |p.data| + 1));
      BlacklistHolds(stored, used, ps, p);
      BlacklistKeeps(stored, used, MemoryRange(p.addr, p.addr + |p.data| + 1));
      o := Done;
    }

    /** A free range for the data, blacklisted before or after the data goes there. */
    method PlaceFound(data: seq<u8>, blacklistFirst: bool, ghost used: nat, ghost ps: seq<Image>)
      returns (start: Option<u32>)
      requires 0 < |data| <= U32_MAX && Ready(used) && AllHeld(session.device, ps)
      modifies session
      ensures Steady()
      ensures match PlaceFree(old(session.device), data, blacklistFirst)
              case (Going(d), found) => start == Some(found) && session.device == d
              case (_, _) => start == None
      ensures start == None <==>
                used == SLOTS || FindUnused(old(session.device).slots, old(session.device).memory, |data|) == None
      ensures start.Some? ==>
        var p := Image(start.value, data);
        && Ready(used + 1) && AllHeld(session.device, ps + [p]) && ApartFromAll(p, ps)
        && InMemory(session.device.memory, RangeOf(p))
    {
      hide Overlay, Filled, Guarded, Intact, ApartFromAll, HeldAround, OwnMissed, InMem, FindUnused, RangeOf, InMemory,
           Device.Blacklist;
      ghost var before := session.device;
      FoundIsApart(before, ps, data);
      FreeFits(before.slots, before.memory, data);
      SlotsAre(before);
      FilledBound(before.slots, used);
      FreeExactly(before, used, data, blacklistFirst);
      start := GetFreeRange(|data|);
      if start.None? {
        return;
      }
      var p := Image(start.value, data);
      ghost var stored := Stored(before, p.addr, data);
      ghost var range := MemoryRange(p.addr, p.addr + |data| + 1);
      MissedIs(before, p);
      IntactIs(before);
      StoreKeepsHeld(before, ps, p);
      StoredIsInMem(before, p);
      StoreReady(before, p);
      StillMissed(before, stored, p);
      IntactIs(stored);
      if !blacklistFirst {
        session.Upload(start.value, data);
      }
      ghost var asked := session.device;
      var ok := BlacklistRange(p);
      if !ok {
        return None;
      }
      BlacklistReady(asked, used, range);
      BlacklistKeeps(asked, used, range);
      if blacklistFirst {
        StoreAfter(before, used, ps, p);
        StillMissed(before, session.device, p);
        MissedIs(session.device, p);
        StoreReady(session.device, p);
        session.Upload(start.value, data);
      } else {
        BlacklistHolds(stored, used, ps, p);
      }
    }

    /** All images, in order. They stay intact if the user chose their ranges apart from each other. */
    method PlaceUploads(images: seq<Image>, ghost used: nat, ghost calm: bool)
      returns (o: Outcome, ghost used': nat)
      requires forall i :: 0 <= i < |images| ==> FitsU32(images[i])
      requires Ready(used) && (calm ==> AllApart(images))
      modifies session
      ensures Steady() && Took(PlaceAll(old(session.device), images), o, session.device)
      ensures o.Lost? ==> exists i :: 0 <= i < |images| && !OwnMissed(old(session.device), images[i])
      ensures o.Done? ==> Ready(used') && (calm ==> AllHeld(session.device, images))
      ensures o.Done? ==> forall i :: 0 <= i < |images| ==> OwnMissed(session.device, images[i])
    {
      hide Filled, Guarded, Intact, HeldAround, ApartFromAll, FitsU32, PlaceOne, PlaceAll, Session.Clean, OwnGuarded,
           Home.Misses;
      used' := used;
      ghost var ps := [];
      assert images[..0] == [];
      PlaceNone(session.device);
      for i := 0 to |images|
        invariant Ready(used') && Steady() && PlaceAll(old(session.device), images[..i]) == Going(session.device)
        invariant ps == if calm then images[..i] else []
        invariant AllHeld(session.device, ps)
        invariant forall k :: 0 <= k < i ==> OwnMissed(session.device, images[k])
      {
        PlaceAllStep(old(session.device), images, i);
        o := PlaceImage(images[i], used', ps, calm);
        if !o.Done? {
          PlaceAllStops(old(session.device), images, i + 1);
          return;
        }
        used' := used' + 1;
        if calm {
          ps := ps + [images[i]];
          assert images[..i + 1] == images[..i] + [images[i]];
        }
      }
      assert images[..|images|] == images;
      o := Done;
    }

    /** LK and its boot argument. */
    method PlaceLk(lk: LkPlan, ghost used: nat, ghost kept: seq<Image>, ghost calm: bool)
      returns (o: Outcome, base: u32)
      requires FitsU32(LkImage(lk)) && 0 < |lk.bootarg| <= U32_MAX && Ready(used)
      requires if calm then AllHeld(session.device, kept) && ApartFromAll(LkImage(lk), kept) else kept == []
      requires AllApart(kept)
      modifies session
      ensures Steady()
      ensures
        var (c, start) := PlaceLoader(old(session.device), lk);
        Took(c, o, session.device) && (c.Going? ==> base == start)
      ensures o.Lost? ==> !OwnMissed(old(session.device), LkImage(lk))
      ensures o.Done? ==>
        var ps := kept + [LkImage(lk)] + [Image(base, lk.bootarg)];
        && Ready(used + 2) && AllHeld(session.device, ps) && AllApart(ps)
        && OwnMissed(session.device, LkImage(lk))
        && InMemory(session.device.memory, RangeOf(Image(base, lk.bootarg)))
    {
      hide Filled, Guarded, Intact, HeldAround, ApartFromAll, OwnMissed, InMemory, RangeOf;
      base := 0;
      ghost var before := session.device;
      o := PlaceImage(LkImage(lk), used, kept, calm);
      if !o.Done? {
        return;
      }
      NoneApart(LkImage(lk));
      ApartSnoc(kept, LkImage(lk));
      var start := PlaceFound(lk.bootarg, true, used + 1, kept + [LkImage(lk)]);
      StillMissed(before, session.device, LkImage(lk));
      if start.None? {
        return Refused, 0;
      }
      base := start.value;
      ApartSnoc(kept + [LkImage(lk)], Image(base, lk.bootarg));
    }

    /** The boot image, if one is given, then LK's parameters and the hook. `at` is where LK is listed. */
    method HookLk(plan: Plan, lk: LkPlan, ghost used: nat, ghost ps: seq<Image>, ghost at: nat) returns (o: Outcome)
      requires session.pl && plan.Valid() && Ready(used)
      requires AllHeld(session.device, ps) && AllApart(ps) && at < |ps| && ps[at] == LkImage(lk)
      modifies session
      ensures Steady()
      ensures
        var ptr := H.ThumbAddress(lk.genericRead);
        match BeforeHook(plan, lk, old(session.device))
        case Going(d) => Took(if Hookable(d, ptr) then Going(Hooked(d, ptr)) else Loss, o, session.device)
        case _ => o.Refused?
      ensures !o.Refused? <==>
        match plan.bootImage
        case None => plan.uploads != [] && plan.uploads[0].addr != 0
        case Some(data) =>
          var found := FindUnused(old(session.device).slots, old(session.device).memory, |data|);
          used < SLOTS && found.Some? && found.value.start != 0
      ensures o.Lost? ==>
                session.device.lk.Some? && !Hookable(session.device, session.device.lk.value.ptrMtPartGenericRead)
      ensures o.Done? ==> session.Clean() && LkHooked(plan, lk, session.device)
      ensures o.Done? && PatchInLk(lk) ==> forall i :: 0 <= i < |ps| && i != at ==> Held(session.device, ps[i])
    {
      hide Filled, Guarded, Intact, HeldAround, InMemory, RangeOf, Hookable, Hooked, HookAt, ApartFromAll, PatchInLk,
           Session.Clean, IsThumbPointer, HookOfLk, PlaceFree, OwnGuarded, AllApart, AllHeld;
      SlotsAre(session.device);
      BootImageExactly(plan, lk, session.device, used);
      o := Refused;
      var start: u32;
      ghost var all := ps;
      if plan.bootImage.Some? {
        var found := PlaceFound(plan.bootImage.value, false, used, ps);
        if found.None? {
          return;
        }
        start := found.value;
        ApartSnoc(ps, Image(start, plan.bootImage.value));
        all := ps + [Image(start, plan.bootImage.value)];
      } else if plan.uploads == [] {
        return;
      } else {
        start := plan.uploads[0].addr;
      }
      ghost var before := session.device;
      var ok := Expect(SetParams(ParamsType.LK(LkParams(lk, start))));
      if !ok {
        return;
      }
      ghost var d := session.device;
      HeldFrame(before, d, all);
      ParamsKeepIntact(before, d);
      ParamsEnterThumb(lk, start);
      var ptr := H.ThumbAddress(lk.genericRead);
      if Breaks(session.pl, session.device, Message.Hook(MtPartGenericRead)) {
        return Lost;
      }
      HookPerforms(d, ptr);
      ok := Expect(Message.Hook(MtPartGenericRead));
      HookLeaves(d, ptr, lk, all, at);
      assert forall i :: 0 <= i < |ps| ==> all[i] == ps[i];
      assert all[at] == LkImage(lk);
      assert plan.bootImage.Some? ==> all[|ps|] == Image(start, plan.bootImage.value);
      o := Done;
    }

    /** The user's images, then LK and its boot argument. */
    method PlacePlan(plan: Plan, ghost used: nat, ghost calm: bool)
      returns (o: Outcome, base: u32, size: u32, ghost used': nat, ghost ps: seq<Image>)
      requires plan.Valid() && Ready(used) && (calm ==> Calm(plan))
      modifies session
      ensures Steady() && Took(PlaceGiven(plan, old(session.device)).0, o, session.device)
      ensures o.Lost? ==> !PlanMisses(plan, session.device.home)
      ensures o.Done? ==>
        && Ready(used') && PlanMisses(plan, session.device.home)
        && ps == Kept(plan, calm) + LkKept(plan, base) && AllHeld(session.device, ps) && AllApart(ps)
        && match plan.lk
           case None => base == size == 0
           case Some(lk) =>
             size == |lk.bootarg| && InMemory(session.device.memory, RangeOf(Image(base, lk.bootarg)))
    {
      hide Filled, Guarded, Intact, HeldAround, AllApart, Calm, InMemory, RangeOf, ApartFromAll, FitsU32, Home.Misses,
           Session.Clean, OwnGuarded, PlaceAll, PlaceOne, PlaceFree, AllHeld;
      ghost var before := session.device;
      base, size, used', ps := 0, 0, used, [];
      if calm {
        CalmIs(plan);
      }
      o, used' := PlaceUploads(plan.uploads, used, calm);
      PlaceGivenIs(plan, before);
      if !o.Done? {
        return;
      }
      ps := Kept(plan, calm);
      NoneAreApart();
      NoneAreHeld(session.device);
      if plan.lk.Some? {
        var lk := plan.lk.value;
        o, base := PlaceLk(lk, used', ps, calm);
        if !o.Done? {
          return;
        }
        size := |lk.bootarg|;
        used' := used' + 2;
        assert ps + [LkImage(lk)] + [Image(base, lk.bootarg)] == ps + LkKept(plan, base);
        ps := ps + LkKept(plan, base);
      } else {
        assert ps + LkKept(plan, base) == ps;
      }
    }

    /** The whole session, from the preloader parameters to the jump. */
    method RunRpcPreloader(plan: Plan, ghost used: nat) returns (end: SessionEnd)
      requires session.pl && plan.Valid() && Ready(used)
      modifies session
      ensures session.Clean() && old(session.written) <= session.written
      ensures session.device.home == old(session.device.home) && session.device.memory == old(session.device.memory)
      ensures end.Jumped? ==> PlanMisses(plan, session.device.home) && HandedOver(plan, session.device, end)
      ensures end.Jumped? && Calm(plan) && (plan.mode.LK? ==> PatchInLk(plan.lk.value)) ==>
                AllHeld(session.device, plan.uploads)
      ensures end.Broken? && PlanMisses(plan, session.device.home) ==>
                && plan.mode.LK? && session.device.lk.Some?
                && !Hookable(session.device, session.device.lk.value.ptrMtPartGenericRead)
      ensures EndsAs(plan, SessionCourse(plan, old(session.device)), end, session.device)
      ensures
        var d := old(session.device);
        var fits := PlanMisses(plan, d.home) && PlanFits(plan, d.slots, used, d.memory);
        && (end.Jumped? <==> !plan.mode.REPL? && fits && (plan.mode.LK? ==> HookFits(plan, d)))
        && (end.Repl? <==> plan.mode.REPL? && fits)
        && (end.Broken? <==> || (plan.bldrJump != 0 && Meets(d.home, SLOTS - used, Given(plan)))
                             || (fits && plan.mode.LK? && !HookFits(plan, d)))
    {
      hide Filled, Guarded, Intact, HeldAround, AllApart, Calm, InMemory, RangeOf, LkHooked, PatchInLk, Hookable,
           Hooked, FitsU32, Home.Misses, Session.Clean, PlaceGiven, BeforeHook, OwnGuarded, PlanMisses,
           PlanFits, HookFits, Meets;
      end := Failed;
      ghost var d0 := session.device;
      SlotsAre(d0);
      SessionExactly(plan, d0, used);
      var ok := Expect(SetParams(ParamsType.Preloader(PreloaderRunnerParams(plan.bldrJump))));
      if !ok {
        return;
      }
      ParamsKeepIntact(d0, session.device);
      ghost var calm := Calm(plan);
      var o, bootargBase, bootargSize;
      ghost var used', ps;
      o, bootargBase, bootargSize, used', ps := PlacePlan(plan, used, calm);
      if o.Lost? {
        return Broken;
      } else if o.Refused? {
        return;
      }
      KeptIs(plan, calm, bootargBase, session.device, ps);
      var jump := plan.jumpAddr;
      if plan.mode.REPL? {
        return Repl;
      } else if plan.mode.Preloader? {
        if plan.lk.Some? {
          jump := plan.lk.value.addr;
        }
      } else if plan.mode.LK? {
        if plan.lk.None? {
          return;
        }
        BeforeHookIsNotLost(plan, plan.lk.value, session.device);
        o := HookLk(plan, plan.lk.value, used', ps, |Kept(plan, calm)|);
        if o.Lost? {
          return Broken;
        } else if o.Refused? {
          return;
        }
        jump := plan.lk.value.addr;
      }
      JumpLeaves(session.device, jump, bootargBase, bootargSize);
      end := Jumped(H.ThumbAddress(plan.bldrJump), [jump, bootargBase, bootargSize]);
    }
  }

  /** The session was led exchange by exchange. Byte by byte, in every interleaving, a host program that asks the
      same along the same answers ends at the same jump, with the device handed over as told. */
  lemma BootRunsOnMachines(plan: Plan, next: Strategy, d0: DeviceState, calls: seq<Call>, answers: seq<Answer>,
                           d: DeviceState, end: SessionEnd, s: System)
    requires end.Jumped? && HandedOver(plan, d, end)
    requires PerformCalls(true, d0, calls) == Some((d, answers)) && Follows(next, calls, answers)
    requires next(answers) == Some(Request(Jump(end.args[0], Some(end.args[1]), Some(end.args[2])), []))
    requires HonestStrategy(next) && LockstepSafety.InLockstep(true, next, d0, s) && LockstepTheorems.Stuck(s)
    ensures s.dev.phase.DevLeft? && s.host.history == answers && HandedOver(plan, s.dev.state, end)
  {
    hide HandedOver, LockstepSafety.InLockstep, LockstepTheorems.Stuck, HonestStrategy, PerformCalls, Follows, React;
    JumpIsNotPerformed(plan, d, end);
    SessionRunsOnMachines(true, next, d0, calls, answers, d, s);
  }

  lemma JumpIsNotPerformed(plan: Plan, d: DeviceState, end: SessionEnd)
    requires end.Jumped? && HandedOver(plan, d, end)
    ensures |end.args| == 3
    ensures Perform(true, d, Request(Jump(end.args[0], Some(end.args[1]), Some(end.args[2])), [])).None?
  {
    hide LkHooked, HeldAround, PatchInLk;
  }

  lemma PlaceAllStep(d: DeviceState, ps: seq<Image>, i: nat)
    requires i < |ps| && forall k :: 0 <= k < |ps| ==> FitsU32(ps[k])
    requires PlaceAll(d, ps[..i]).Going?
    ensures PlaceAll(d, ps[..i + 1]) == PlaceOne(PlaceAll(d, ps[..i]).d, ps[i])
  {
    hide PlaceOne;
    assert ps[..i + 1][..i] == ps[..i];
  }

  /** Where the host gives up, the course has ended. */
  lemma {:induction false} PlaceAllStops(d: DeviceState, ps: seq<Image>, i: nat)
    requires i <= |ps| && forall k :: 0 <= k < |ps| ==> FitsU32(ps[k])
    requires !PlaceAll(d, ps[..i]).Going?
    ensures PlaceAll(d, ps) == PlaceAll(d, ps[..i])
    decreases |ps|
  {
    hide PlaceOne;
    if i < |ps| {
      var before := ps[..|ps| - 1];
      assert before[..i] == ps[..i];
      PlaceAllStops(d, before, i);
    } else {
      assert ps[..i] == ps;
    }
  }

  lemma NoneAreApart()
    ensures AllApart([])
  {
  }

  /** What of the user's images can be counted on: they are apart, or nothing is known. */
  function Kept(plan: Plan, calm: bool): seq<Image> {
    if calm then plan.uploads else []
  }

  function LkKept(plan: Plan, base: u32): seq<Image> {
    match plan.lk
    case None => []
    case Some(lk) => [LkImage(lk), Image(base, lk.bootarg)]
  }

  lemma SlotsAre(d: DeviceState)
    requires Intact(d)
    ensures |d.slots| == SLOTS
  {
  }

  lemma NoneAreHeld(d: DeviceState)
    ensures AllHeld(d, [])
  {
  }

  lemma PlaceNone(d: DeviceState)
    ensures PlaceAll(d, []) == Going(d)
  {
  }

  lemma PlaceGivenIs(plan: Plan, d: DeviceState)
    requires plan.Valid() && d.memory.end < U32_MAX
    ensures
      match PlaceAll(d, plan.uploads)
      case Going(d1) =>
        d1.memory == d.memory &&
        PlaceGiven(plan, d) == (if plan.lk.Some? then PlaceLoader(d1, plan.lk.value) else (Going(d1), 0))
      case c => PlaceGiven(plan, d) == (c, 0)
  {
    hide PlaceOne, PlaceFree;
    GivenFits(plan);
    PlacedKeeps(d, plan.uploads);
    if plan.lk.Some? {
      assert Given(plan)[..|plan.uploads|] == plan.uploads && Given(plan)[|plan.uploads|] == LkImage(plan.lk.value);
    } else {
      assert Given(plan) == plan.uploads;
    }
  }

  lemma KeptIs(plan: Plan, calm: bool, base: u32, d: DeviceState, ps: seq<Image>)
    requires ps == Kept(plan, calm) + LkKept(plan, base) && AllHeld(d, ps)
    ensures AllHeld(d, Kept(plan, calm))
    ensures forall i :: 0 <= i < |Kept(plan, calm)| ==> ps[i] == Kept(plan, calm)[i]
    ensures plan.lk.Some? ==>
      var n, lk := |Kept(plan, calm)|, plan.lk.value;
      && |ps| == n + 2 && ps[n] == LkImage(lk) && ps[n + 1] == Image(base, lk.bootarg)
      && Held(d, LkImage(lk)) && Held(d, Image(base, lk.bootarg))
  {
    hide HeldAround;
    HeldPrefix(d, Kept(plan, calm), LkKept(plan, base));
    if plan.lk.Some? {
      HeldOf(d, ps, |Kept(plan, calm)|);
      HeldOf(d, ps, |Kept(plan, calm)| + 1);
    }
  }

  /** Setting parameters touches neither memory nor table. */
  lemma ParamsKeepIntact(d: DeviceState, d': DeviceState)
    requires d' == d.(preloader := d'.preloader, lk := d'.lk)
    ensures Intact(d) ==> Intact(d')
    ensures OwnGuarded(d) ==> OwnGuarded(d')
  {
  }

  lemma ParamsEnterThumb(lk: LkPlan, scratch: u32)
    ensures IsThumbPointer(LkParams(lk, scratch).ptrMtPartGenericRead, lk.genericRead)
    ensures IsThumbPointer(LkParams(lk, scratch).ptrMtPartGetPartition, lk.getPartition)
  {
    ThumbTwice(lk.genericRead);
    ThumbTwice(lk.getPartition);
  }

  /** A hook that does not break the device is acked. */
  lemma HookPerforms(d: DeviceState, ptr: u32)
    requires d.lk.Some? && d.lk.value.ptrMtPartGenericRead == ptr && !Breaks(true, d, Message.Hook(MtPartGenericRead))
    ensures Hookable(d, ptr)
    ensures Perform(true, d, Request(Message.Hook(MtPartGenericRead), []))
         == Some((Hooked(d, ptr), Answer([], Response.Ack)))
  {
    hide Hookable, Hooked;
  }

  /** What the hook leaves of everything that was placed. */
  lemma HookLeaves(d: DeviceState, ptr: u32, lk: LkPlan, ps: seq<Image>, at: nat)
    requires Intact(d) && Hookable(d, ptr) && ptr == H.ThumbAddress(lk.genericRead)
    requires AllHeld(d, ps) && AllApart(ps) && at < |ps| && ps[at] == LkImage(lk)
    ensures
      var h, d' := HookAt(d, ptr), Hooked(d, ptr);
      && d'.home == d.home && d'.memory == d.memory && d'.lk == d.lk && d'.preloader == d.preloader
      && d'.hooks == d.hooks + [h] && h.target == AlignDown(lk.genericRead, 2) && H.Live(d'.mem, h)
      && h.patch == Translator.PatchCode(h.target, H.ThumbAddress(d.home.replacement))
      && (forall i :: 0 <= i < |ps| ==> HeldAround(d', ps[i], h.target, PatchEnd(h)))
      && (PatchInLk(lk) ==> forall i :: 0 <= i < |ps| && i != at ==> Held(d', ps[i]))
      && (PatchInLk(lk) ==> HookOfLk(d', lk, h) && PatchEnd(h) <= h.target + Translator.PATCH_SIZE)
  {
    hide Intact, Hookable, Hooked, HeldAround, H.Live, H.Shape, AllApart, HookAt, HookOfLk, PatchInLk;
    IntactIs(d);
    HookWrites(d, ptr);
    HookedKeeps(d, ptr);
    HookPatch(d, ptr);
    ThumbTwice(lk.genericRead);
    var h, d' := HookAt(d, ptr), Hooked(d, ptr);
    if PatchInLk(lk) {
      HeldOf(d, ps, at);
      LkPutBack(d, d', lk, h);
      HookIsOfLk(d, ptr, lk);
    }
    forall i | 0 <= i < |ps|
      ensures HeldAround(d', ps[i], h.target, PatchEnd(h)) && (PatchInLk(lk) && i != at ==> Held(d', ps[i]))
    {
      HeldOf(d, ps, i);
      HookHolds(d, ptr, ps[i]);
      if PatchInLk(lk) && i != at && ps[i].data != [] {
        PatchInside(lk, h);
        ApartPair(ps, i, at);
      }
    }
  }

  lemma PatchInside(lk: LkPlan, h: H.HookInfo)
    requires PatchInLk(lk) && h.target == AlignDown(lk.genericRead, 2) && 2 * |h.patch| <= Translator.PATCH_SIZE
    ensures lk.data != [] && lk.addr <= h.target && PatchEnd(h) <= lk.addr + |lk.data|
  {
  }

  lemma HookIsOfLk(d: DeviceState, ptr: u32, lk: LkPlan)
    requires Hookable(d, ptr)
    requires
      var h := HookAt(d, ptr);
      SameOutside(d.mem, UnhookedLk(Hooked(d, ptr), lk), h.code, h.code + Translator.TRAMPOLINE_SIZE)
    ensures HookOfLk(Hooked(d, ptr), lk, HookAt(d, ptr))
  {
    hide H.CanHook, H.FreePlace, Translator.TrampolineCode, Translator.PatchCode, Translator.Items, Home.Misses,
         UnhookedLk, SameOutside, HookGrowth, H.Install, H.JumpAddress;
    var place := TrampolinePlace(d).0.value;
    H.HookFits(d.mem, CodeOf(ptr), place);
    H.MakeHookOutside(d.mem, UnhookedLk(Hooked(d, ptr), lk), CodeOf(ptr), place, d.home.replacement);
  }

  lemma HookPatch(d: DeviceState, ptr: u32)
    requires Hookable(d, ptr)
    ensures
      var h := HookAt(d, ptr);
      && h.patch == Translator.PatchCode(h.target, H.ThumbAddress(d.home.replacement))
      && 2 * |h.patch| <= Translator.PATCH_SIZE
  {
    hide H.CanHook, H.FreePlace, Translator.TrampolineCode, Translator.Items, Home.Misses;
    var place := TrampolinePlace(d).0.value;
    H.HookFits(d.mem, CodeOf(ptr), place);
    Translator.TranslationBounds(d.mem, CodeOf(ptr), 0, H.ThumbAddress(d.home.replacement));
  }

  lemma ThumbTwice(a: u32)
    ensures AlignDown(H.ThumbAddress(a), 2) == AlignDown(a, 2)
  {
    hide Bits.Or;
  }

  lemma MissedIs(d: DeviceState, p: Image)
    ensures OwnMissed(d, p) <==> d.home.Misses(p.addr, |p.data|)
  {
  }

  lemma StillMissed(d: DeviceState, d': DeviceState, p: Image)
    requires d'.home == d.home
    ensures OwnMissed(d', p) == OwnMissed(d, p)
  {
  }

  lemma IntactIs(d: DeviceState)
    requires Intact(d)
    ensures d.home.Valid() && |d.slots| == SLOTS && d.heap.Valid()
  {
  }

  lemma NoneApart(p: Image)
    ensures ApartFromAll(p, [])
  {
  }
}
