/** Placement over a whole remote session: the messages the device really handles are events of the
    placement model, so everything reserved at boot stays safe whatever an RPC session does. */
module Messages {
  import opened Bytes
  import opened Codec
  import opened Device
  import opened Lockstep
  import opened LockstepSafety
  import opened LockstepTheorems
  import opened OwnMemory
  import Params
  import opened Placement
  import Bump
  import opened Relocation
  import DaProtocol
  import I = Interceptor

  function EventOf(m: Message): Event {
    match m
    case GetFreeRange(size) => Event.GetFreeRange(size)
    case BlacklistRange(range) => Event.BlacklistRange(range)
    case _ => AnyOtherMessage
  }

  /** The requests behind the answers of `history`, as events. */
  function EventsOf(next: Strategy, history: seq<Answer>): seq<Event> {
    if history == [] then []
    else
      var before := history[..|history| - 1];
      EventsOf(next, before) + (match next(before) case None => [] case Some(r) => [EventOf(r.message)])
  }

  /** The table the world describes is the device's. */
  predicate Describes(w: World, d: DeviceState) {
    w.slots == d.slots && w.memory == d.memory
  }

  /** Image, stack and heap, if it has one, of the world are where the payload lives. */
  predicate Houses(w: World, home: Home) {
    && w.image == home.image && |w.blocks| >= 1 && w.blocks[0].block == home.stack
    && (home.heap.start < home.heap.end ==> |w.blocks| >= 2 && w.blocks[1].block == home.heap)
  }

  /** One exchange of the device is one event. */
  lemma ExchangeIsEvent(pl: bool, d: DeviceState, r: Request, w: World)
    requires Describes(w, d) && Perform(pl, d, r).Some?
    ensures Describes(OnEvent(w, EventOf(r.message)), Perform(pl, d, r).value.0)
  {
    hide Params.FindUnused, Params.Blacklisted, Params.Recorded, Hookable, Hooked;
    if r.message.Hook? && pl && d.lk.Some? && Hookable(d, d.lk.value.ptrMtPartGenericRead) {
      HookedKeeps(d, d.lk.value.ptrMtPartGenericRead);
    }
  }

  /** One exchange keeps the payload's own memory in order, and the loader's as it was. */
  lemma ExchangeKeepsIntact(pl: bool, d: DeviceState, r: Request)
    requires Intact(d) && Honest(r) && Perform(pl, d, r).Some?
    ensures
      var d' := Perform(pl, d, r).value.0;
      Intact(d') && d'.home == d.home && LoaderSame(d.home, d.mem, d'.mem)
  {
    hide React, Received, Intact, LoaderSame, Home.Misses;
    ReactKinds(pl, d, r.message);
    match React(pl, d, r.message)
    case Reply(_, _, _) =>
      ReplyKeepsIntact(pl, d, r.message);
      ReplyKeepsLoader(pl, d, r.message);
    case Receive(addr, size) =>
      WriteKeepsIntact(d, addr, r.payload);
      ReceivedKeepsHome(d, addr, r.payload);
      MissedWriteKeeps(d.home, d.mem, addr, r.payload);
      ReceivedIs(d, addr, r.payload);
  }

  lemma ReceivedIs(d: DeviceState, addr: u32, data: seq<u8>)
    requires OwnBytesSame(d.home, d.mem, Overlay(d.mem, addr, data))
    ensures LoaderSame(d.home, d.mem, Received(d, addr, data).mem)
  {
    hide Overlay;
  }

  lemma ReceivedKeepsHome(d: DeviceState, addr: u32, data: seq<u8>)
    ensures Received(d, addr, data).home == d.home
  {
  }

  /** A range that the host has been told is outstanding from then on; one that it blacklists as told, with an
      ack, and that no other outstanding range overlaps, is a block from then on. */
  lemma ToldAndReserved(pl: bool, d: DeviceState, r: Request, w: World, b: Block)
    requires Describes(w, d) && Safe(w) && Perform(pl, d, r).Some?
    ensures
      var a := Perform(pl, d, r).value.1.response;
      && r.message.GetFreeRange? && a.Range? && a.start.Some? && a.start.value == b.start
      && b.end == b.start + r.message.size && b.start < b.end ==>
        b in OnEvent(w, EventOf(r.message)).pending
    ensures
      var a := Perform(pl, d, r).value.1.response;
      r.message.BlacklistRange? && a == Response.Ack && b in w.pending
      && r.message.range.start <= b.start && b.end <= r.message.range.end
      && (forall c :: c in w.pending && c != b ==> Apart(b, c)) ==>
        var w' := OnEvent(w, EventOf(r.message));
        exists i :: 0 <= i < |w'.blocks| && w'.blocks[i] == Reserved(b, w.used)
  {
    hide Params.FindUnused, Params.Blacklisted, Params.Recorded, Safe, Claimed, Remaining;
    var a := Perform(pl, d, r).value.1.response;
    if r.message.GetFreeRange? {
      PendingSnoc(w.pending, b);
    } else if r.message.BlacklistRange? && a == Response.Ack {
      var range := r.message.range;
      if && b in w.pending && range.start <= b.start && b.end <= range.end
         && (forall c :: c in w.pending && c != b ==> Apart(b, c)) {
        OnlyRangeIsClaimed(w.pending, range, b);
        ClaimedWere(w.pending, range);
        var claimed := Claimed(w.pending, range);
        var i :| 0 <= i < |claimed| && claimed[i] == b;
        var w' := OnEvent(w, EventOf(r.message));
        assert w'.blocks == w.blocks + Guards(claimed, w.used);
        assert w'.blocks[|w.blocks| + i] == Reserved(b, w.used);
      }
    }
  }

  lemma PendingSnoc(pending: seq<Block>, b: Block)
    ensures b in pending + [b]
  {
    assert (pending + [b])[|pending|] == b;
  }

  lemma {:induction false} ClaimedWere(pending: seq<Block>, range: Params.MemoryRange)
    ensures forall c :: c in Claimed(pending, range) ==> c in pending
  {
    if pending != [] {
      ClaimedWere(pending[1..], range);
    }
  }

  lemma {:induction false} OnEventsAppend(w: World, x: seq<Event>, e: Event)
    ensures OnEvents(w, x + [e]) == OnEvent(OnEvents(w, x), e)
    decreases x
  {
    hide OnEvent;
    if x == [] {
      assert [e][1..] == [];
    } else {
      assert (x + [e])[1..] == x[1..] + [e];
      OnEventsAppend(OnEvent(w, x[0]), x[1..], e);
    }
  }

  lemma {:induction false} HistoryIsEvents(pl: bool, next: Strategy, d0: DeviceState, w0: World, history: seq<Answer>)
    requires Describes(w0, d0) && DeviceAfter(pl, next, d0, history).Some?
    ensures Describes(OnEvents(w0, EventsOf(next, history)), DeviceAfter(pl, next, d0, history).value)
    decreases history
  {
    hide Perform, OnEvent;
    if history != [] {
      var before := history[..|history| - 1];
      var r := next(before).value;
      HistoryIsEvents(pl, next, d0, w0, before);
      OnEventsAppend(w0, EventsOf(next, before), EventOf(r.message));
      ExchangeIsEvent(pl, DeviceAfter(pl, next, d0, before).value, r, OnEvents(w0, EventsOf(next, before)));
    }
  }

  lemma {:induction false} HistoryKeepsIntact(pl: bool, next: Strategy, d0: DeviceState, history: seq<Answer>)
    requires Intact(d0) && HonestStrategy(next) && DeviceAfter(pl, next, d0, history).Some?
    ensures
      var d := DeviceAfter(pl, next, d0, history).value;
      Intact(d) && d.home == d0.home && LoaderSame(d0.home, d0.mem, d.mem)
    decreases history
  {
    hide Perform, Intact, HonestStrategy, Honest, Get;
    if history != [] {
      var before := history[..|history| - 1];
      HistoryKeepsIntact(pl, next, d0, before);
      HonestNext(next, before);
      ExchangeKeepsIntact(pl, DeviceAfter(pl, next, d0, before).value, next(before).value);
    }
  }

  /** How many of the requests behind `history` were resets. */
  function ResetsIn(next: Strategy, history: seq<Answer>): nat {
    if history == [] then 0
    else
      var before := history[..|history| - 1];
      ResetsIn(next, before) + (if next(before).Some? && next(before).value.message.Reset? then 1 else 0)
  }

  /** The watchdog is written once for every completed reset, and for nothing else. */
  lemma {:induction false} ResetsAreCounted(pl: bool, next: Strategy, d0: DeviceState, history: seq<Answer>)
    requires DeviceAfter(pl, next, d0, history).Some?
    ensures DeviceAfter(pl, next, d0, history).value.resets == d0.resets + ResetsIn(next, history)
    decreases history
  {
    hide Perform;
    if history != [] {
      var before := history[..|history| - 1];
      ResetsAreCounted(pl, next, d0, before);
      ExchangeResets(pl, DeviceAfter(pl, next, d0, before).value, next(before).value);
    }
  }

  lemma ExchangeResets(pl: bool, d: DeviceState, r: Request)
    requires Perform(pl, d, r).Some?
    ensures Perform(pl, d, r).value.0.resets == d.resets + (if r.message.Reset? then 1 else 0)
  {
    hide Params.FindUnused, Params.Blacklisted, Params.Recorded, Hookable;
  }

  /** The device when its handler starts: what `app` and then `main` have left, `heap` being the range
      that `main` reserved. */
  function Booted(pristine: Mem, slots: Params.Slots, memory: Params.MemoryRange, layout: Layout, at: u32,
                  heap: Params.MemoryRange, w: World, loader: seq<Block>, replacement: u32): DeviceState
    requires layout.Valid() && at + layout.size <= U32_MAX && |w.blocks| >= 1
  {
    var app := AppDecision(slots, memory, layout.size, at);
    var mem := AppMemory(pristine, slots, memory, layout, at);
    DeviceState(Params.Recorded(mem, at + layout.table, app.slots, heap, Params.ForbiddenDL), memory, w.slots,
                None, None, [], 0, Bump.Heap(heap.start, HEAP_SIZE), 0,
                Home(w.image, w.blocks[0].block, Block(heap.start, heap.end), loader, at + layout.table, replacement))
  }

  /** The search cannot hand out what the loader needs, and the image was not put over it. That is the host's to
      arrange; it has the payload search memory the loader does not live in. */
  predicate LoaderFenced(slots: Params.Slots, memory: Params.MemoryRange, image: Block, loader: seq<Block>) {
    forall i :: 0 <= i < |loader| ==> Fenced(slots, memory, loader[i]) && Apart(image, loader[i])
  }

  /** The boot establishes all that a session needs: a safe world, and a device that it describes, houses
      and keeps intact. */
  lemma BootedIsReady(m: Mem, base: u32, pristine: Mem, slots: Params.Slots, used: nat, memory: Params.MemoryRange,
                      layout: Layout, at: u32, loader: seq<Block>, replacement: u32)
    requires layout.Valid() && at + layout.size <= U32_MAX && memory.end < U32_MAX
    requires |slots| == Params.SLOTS && Params.Filled(slots, used)
    requires LoaderFenced(slots, memory, Block(at, at + layout.size), loader)
    requires LinkedTable(pristine, at, layout) && SameImage(pristine, at, m, base, layout.size)
    requires Params.HasTable(m, base + layout.table, slots)
    requires AppDecision(slots, memory, layout.size, at).outcome.Running?
    requires BootWorld(slots, used, memory, layout.size, at).Some?
    ensures
      var w := BootWorld(slots, used, memory, layout.size, at).value;
      var heap := Params.FindUnused(AppDecision(slots, memory, layout.size, at).slots, memory, HEAP_SIZE);
      && heap.Some?
      && var d := Booted(pristine, slots, memory, layout, at, heap.value, w, loader, replacement);
         Safe(w) && Describes(w, d) && Houses(w, d.home) && Intact(d)
  {
    hide AppDecision, BootWorld, AppMemory, LinkedTable, Params.FindUnused, Params.Blacklisted, Params.Recorded,
         Params.Filled, Params.HasTable, Guarded, Vacant, GuardedBy, Avoids, AllVacant, Layout.Valid, SameImage, Fenced;
    var app := AppDecision(slots, memory, layout.size, at);
    var w := BootWorld(slots, used, memory, layout.size, at).value;
    TableInImage(layout);
    BootWorldIsBoot(slots, used, memory, layout.size, at);
    BootIsSafe(slots, used, memory, layout.size, at);
    BootWorldMemory(slots, used, memory, layout.size, at);
    RunningIsFixed(slots, memory, layout.size, at);
    BootKeepsTable(m, base, pristine, slots, memory, at, layout);
    Bump.HeapIsWhole(app.slots, memory);
    var heap := Params.FindUnused(app.slots, memory, HEAP_SIZE).value;
    Params.RecordedIs(AppMemory(pristine, slots, memory, layout, at), at + layout.table, app.slots, heap,
                      Params.ForbiddenDL);
    assert Placed(w, w.blocks[0]) && Placed(w, w.blocks[1]);
    forall i | 0 <= i < |loader|
      ensures Apart(w.blocks[0].block, loader[i]) && Apart(w.blocks[1].block, loader[i])
    {
      PlacedMissesFenced(slots, used, w, 0, loader[i]);
      PlacedMissesFenced(slots, used, w, 1, loader[i]);
    }
  }

  /** The preloader payload from its entry to its first message: `app` at the load address and, if it moves,
      where it moves to, then `main`. The handler it ends in is the device that the session theorems start
      from; `home` only names where things are. */
  method StartPayload(payload: Payload, base: u32, protocol: DaProtocol.Protocol, interceptor: I.Interceptor,
                      allocator: Bump.BumpAllocator, ghost used: nat, home: Home)
    returns (handler: Option<Handler>, at: u32, ghost pristine: Mem)
    requires payload.layout.Valid() && base + payload.layout.size <= U32_MAX && payload.params.memory.end < U32_MAX
    requires interceptor.ram == payload.ram && interceptor.Valid() && interceptor.hooks == []
    requires Params.Filled(payload.params.blacklist[..], used)
    modifies payload.ram, payload.params.blacklist, allocator
    ensures handler.Some? ==>
      var layout, slots, memory := payload.layout, old(payload.params.blacklist[..]), payload.params.memory;
      && at + layout.size <= U32_MAX && SameImage(pristine, at, old(payload.ram.bytes), base, layout.size)
      && AppDecision(slots, memory, layout.size, at).outcome.Running?
      && BootWorld(slots, used, memory, layout.size, at).Some?
      && var w := BootWorld(slots, used, memory, layout.size, at).value;
         var heap := Params.FindUnused(AppDecision(slots, memory, layout.size, at).slots, memory, HEAP_SIZE);
         && heap.Some? && |w.blocks| >= 1 && handler.value.pl && handler.value.Valid()
         && handler.value.State()
            == Booted(pristine, slots, memory, layout, at, heap.value, w, home.loader, home.replacement).(home := home)
  {
    hide AppDecision, AppMemory, BootWorld, Params.FindUnused, Params.Blacklisted, Params.Recorded, Params.FirstFit,
         I.Interceptor.Valid, BootDecision, SameImage, Params.Filled;
    var layout := payload.layout;
    ghost var slots, memory := payload.params.blacklist[..], payload.params.memory;
    ghost var before := payload.ram.bytes;
    handler, pristine := None, before;
    var outcome;
    at, outcome := Placement.Boot(payload, base);
    if !outcome.Running? {
      return;
    }
    BootDecisionIs(slots, memory, layout.size, base);
    pristine :| SameImage(pristine, at, before, base, layout.size)
                && payload.ram.bytes == AppMemory(pristine, slots, memory, layout, at);
    ghost var app := AppDecision(slots, memory, layout.size, at);
    BootWorldIsBoot(slots, used, memory, layout.size, at);
    BootWorldMemory(slots, used, memory, layout.size, at);
    var ok := Bump.ReserveHeap(payload.params, payload.ram, at + layout.table, allocator);
    if !ok {
      return;
    }
    var h := new Handler(true, protocol, payload.ram, payload.params, interceptor, allocator, home);
    handler := Some(h);
  }

  lemma BootDecisionIs(slots: Params.Slots, memory: Params.MemoryRange, size: u32, base: u32)
    requires memory.end < U32_MAX && 0 < size && base + size <= U32_MAX
    ensures
      var r := BootDecision(slots, memory, size, base);
      && (r.base + size <= U32_MAX ==> r.decision == AppDecision(slots, memory, size, r.base))
      && (r.decision.outcome.Running? ==> r.decision.fixed)
  {
    hide Params.FindUnused, Params.Blacklisted;
    RelocationConverges(slots, memory, size, base);
  }

  lemma PlacedMissesFenced(slots: Params.Slots, used: nat, w: World, k: nat, c: Block)
    requires k < |w.blocks| && Placed(w, w.blocks[k]) && Avoids(slots, used, w.blocks[k].block)
    requires Params.Filled(slots, used) && Fenced(slots, w.memory, c)
    ensures Apart(w.blocks[k].block, c)
  {
    hide Avoids, Fenced, Params.Filled;
    AvoidsFenced(slots, used, w.memory, w.blocks[k].block, c);
  }

  lemma TableInImage(layout: Layout)
    requires layout.Valid()
    ensures 0 < layout.size && 0 <= layout.table && layout.table + Params.TABLE_SIZE <= layout.size
  {
  }

  lemma RunningIsFixed(slots: Params.Slots, memory: Params.MemoryRange, size: u32, base: u32)
    requires base + size <= U32_MAX && AppDecision(slots, memory, size, base).outcome.Running?
    ensures AppDecision(slots, memory, size, base).fixed
  {
  }

  lemma BootWorldMemory(slots: Params.Slots, used: nat, memory: Params.MemoryRange, size: u32, base: u32)
    requires memory.end < U32_MAX && base + size <= U32_MAX
    ensures
      match BootWorld(slots, used, memory, size, base)
      case None => true
      case Some(w) => w.memory == memory && |w.slots| == |slots| && w.image == Block(base, base + size)
  {
    hide Params.FindUnused;
  }

  /** What a host can check beforehand: if none of its writes meets the payload's own memory or the loader's,
      and it hooks nothing, it breaks nothing. */
  lemma MissingWritesAreCareful(pl: bool, next: Strategy, d0: DeviceState)
    requires Intact(d0) && HonestStrategy(next)
    requires forall history :: next(history).Some? ==>
      match next(history).value.message
      case Write(addr, size) => d0.home.Misses(addr, size)
      case Hook(_) => !pl
      case _ => true
    ensures Careful(pl, next, d0)
  {
    hide DeviceAfter, Intact, HonestStrategy, Home.Misses;
    forall history | DeviceAfter(pl, next, d0, history).Some?
      ensures !RequestBreaks(pl, next, history, DeviceAfter(pl, next, d0, history).value)
    {
      HistoryKeepsIntact(pl, next, d0, history);
    }
  }

  /** Placement safety over any remote session: in every interleaving, after every completed exchange
      of any host program, the image, the stack, the heap and every range handed out and then
      blacklisted are pairwise disjoint, where they were, clear of what was active when they were chosen, and
      guarded by the device's own table, which is the one in its image; and not a byte of what the loader needs
      has changed. A request that breaks the device is never completed. */
  lemma SessionStaysSafe(pl: bool, next: Strategy, d0: DeviceState, w0: World, hostBuf: seq<u8>, devBuf: seq<u8>,
                         acts: seq<Action>)
    requires |hostBuf| == BUF_SIZE && |devBuf| == BUF_SIZE && HonestStrategy(next)
    requires Run(pl, next, Initial(hostBuf, devBuf, d0), acts).Some?
    requires w0.memory.end < U32_MAX && Safe(w0) && Describes(w0, d0) && Houses(w0, d0.home) && Intact(d0)
    ensures
      var history := Run(pl, next, Initial(hostBuf, devBuf, d0), acts).value.host.history;
      var w := OnEvents(w0, EventsOf(next, history));
      && DeviceAfter(pl, next, d0, history).Some?
      && var d := DeviceAfter(pl, next, d0, history).value;
         && Describes(w, d) && Houses(w, d.home) && Intact(d) && LoaderSame(d0.home, d0.mem, d.mem)
         && Safe(w) && w.image == w0.image && w0.blocks <= w.blocks
  {
    hide Run, Initial, DeviceAfter, Safe, HonestStrategy, InLockstep, OnEvents, EventsOf, Intact, RequestBreaks,
         LoaderSame;
    EveryRunIsSafe(pl, next, d0, hostBuf, devBuf, acts);
    var history := Run(pl, next, Initial(hostBuf, devBuf, d0), acts).value.host.history;
    HistoryIsEvents(pl, next, d0, w0, history);
    HistoryKeepsIntact(pl, next, d0, history);
    PlacementStaysSafe(w0, EventsOf(next, history));
  }
}
