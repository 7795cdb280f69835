/** The device side: what the handler loop does with each message. */
module Device {
  import opened Bytes
  import opened Codec
  import opened DaProtocol
  import B = Bump
  import Bits
  import Cache
  import H = Hook
  import I = Interceptor
  import L = Placement
  import P = Params
  import R = Ram
  import T = Translator

  /** Where the payload lives: its image with the blacklist and the body of the hook, its stack and heap;
      and the memory outside that it cannot do without, above all the loader's transfer routines, which it
      calls for every byte. A payload without a heap has an empty one. */
  datatype Home = Home(image: L.Block, stack: L.Block, heap: L.Block, loader: seq<L.Block>, tableAt: int,
                       replacement: u32) {
    predicate Valid() {
      && image.start <= tableAt && tableAt + P.TABLE_SIZE <= image.end
      && L.Apart(image, stack) && L.Apart(image, heap) && L.Apart(stack, heap)
      && forall i :: 0 <= i < |loader| ==>
           L.Apart(image, loader[i]) && L.Apart(stack, loader[i]) && L.Apart(heap, loader[i])
    }

    /** [addr, addr + size) meets none of that memory. */
    predicate Misses(addr: int, size: nat) {
      size > 0 ==>
        && ClearOf(addr, size, image) && ClearOf(addr, size, stack) && ClearOf(addr, size, heap)
        && forall i :: 0 <= i < |loader| ==> ClearOf(addr, size, loader[i])
    }
  }

  predicate ClearOf(addr: int, size: nat, b: L.Block) {
    b.start < b.end ==> Disjoint(addr, addr + size, b.start, b.end)
  }

  /** Everything the handler can read or change. */
  datatype DeviceState = DeviceState(
    mem: Mem,
    memory: P.MemoryRange,
    slots: P.Slots,
    preloader: Option<PreloaderRunnerParams>,
    lk: Option<LKRunnerParams>,
    hooks: seq<H.HookInfo>,
    room: nat,
    heap: B.Heap,
    resets: nat,
    home: Home)

  /** A message is answered at once (raw bytes, then a response), asks for raw bytes first, hands control
      to the called function for good, or makes the payload write over itself, the loader, or where it must
      not, after which nothing is known. */
  datatype Reaction =
    | Reply(d: DeviceState, raw: seq<u8>, response: Response)
    | Receive(addr: u32, size: u32)
    | Leave(target: int, args: seq<u32>)
    | Break

  function OrZero(o: Option<u32>): u32 {
    match o
    case None => 0
    case Some(v) => v
  }

  // ----- hooking on the device -----

  /** What the interceptor asks of the allocator for a trampoline. */
  const TRAMPOLINE_LAYOUT := B.Layout(64, 4)

  lemma TrampolineLayoutIsValid()
    ensures TRAMPOLINE_LAYOUT.Valid()
  {
  }

  /** The trampoline's place, null if the heap is full. */
  function TrampolinePlace(d: DeviceState): (Option<u32>, B.Heap) {
    TrampolineLayoutIsValid();
    B.AllocStep(d.heap, TRAMPOLINE_LAYOUT)
  }

  lemma PoolLayoutIsValid(size: u32)
    ensures B.Layout(size, 4).Valid()
  {
  }

  /** The pool's two vectors, of 8- and 4-byte elements, take one more element each. With `room` elements used
      up they move to blocks of four or of twice the size; a `Vec` grows so. The bump allocator never gets the
      old blocks back. `None`: the heap is full, and the payload panics. */
  function PoolGrowth(heap: B.Heap, count: nat, room: nat): Option<(B.Heap, nat)> {
    if count < room then Some((heap, room))
    else
      var more := if room == 0 then 4 else 2 * room;
      if 8 * more > U32_MAX then None
      else
        PoolLayoutIsValid(8 * more);
        PoolLayoutIsValid(4 * more);
        var (trampolines, heap1) := B.AllocStep(heap, B.Layout(8 * more, 4));
        var (addresses, heap2) := B.AllocStep(heap1, B.Layout(4 * more, 4));
        if trampolines.Some? && addresses.Some? then Some((heap2, more)) else None
  }

  /** While there is room nothing is taken; when the pool is full, of a heap at a word boundary, 48 bytes at the
      first hook, and later 24 for each hook there is. */
  lemma PoolTakes(heap: B.Heap, count: nat, room: nat)
    requires heap.Valid() && heap.ptr % 4 == 0
    ensures count < room ==> PoolGrowth(heap, count, room) == Some((heap, room))
    ensures room == count == 0 && heap.size >= 48 ==>
              PoolGrowth(heap, count, room) == Some((B.Heap(heap.ptr + 48, heap.size - 48), 4))
    ensures room == count > 0 && heap.size >= 24 * count ==>
              PoolGrowth(heap, count, room) == Some((B.Heap(heap.ptr + 24 * count, heap.size - 24 * count), 2 * count))
  {
    hide B.AllocStep;
    var more := if room == 0 then 4 else 2 * room;
    if room == count && heap.size >= 12 * more {
      PoolLayoutIsValid(8 * more);
      PoolLayoutIsValid(4 * more);
      AlignedBlock(heap, 8 * more);
      var heap1 := B.AllocStep(heap, B.Layout(8 * more, 4)).1;
      Mod4(heap.ptr / 4 + 2 * more, 0);
      AlignedBlock(heap1, 4 * more);
    }
  }

  lemma AlignedBlock(heap: B.Heap, size: u32)
    requires heap.Valid() && heap.ptr % 4 == 0 && size <= heap.size
    ensures B.Layout(size, 4).Valid()
    ensures B.AllocStep(heap, B.Layout(size, 4)) == (Some(heap.ptr), B.Heap(heap.ptr + size, heap.size - size))
  {
    hide B.AllocStep;
    PoolLayoutIsValid(size);
    B.AllocIs(heap, B.Layout(size, 4));
    assert B.FitsIn(heap, B.Layout(size, 4), heap.ptr);
  }

  /** The heap and the pool's room after a hook. */
  function HookGrowth(d: DeviceState): Option<(B.Heap, nat)> {
    PoolGrowth(TrampolinePlace(d).1, |d.hooks|, d.room)
  }

  /** The even address of the function a Thumb pointer names. */
  function CodeOf(ptr: u32): (r: u32)
    ensures r == AlignDown(ptr, 2) && r % 2 == 0
  {
    Mod2(ptr / 2, 0);
    Mod2(ptr / 2, 1);
    H.ThumbAddress(ptr) - 1
  }

  /** Hooking the function at `ptr` stays within what the interceptor supports and off the payload's own
      memory; a full heap, a second hook at the place and a stray literal do not. */
  predicate Hookable(d: DeviceState, ptr: u32) {
    var (place, _) := TrampolinePlace(d);
    && place.Some? && HookGrowth(d).Some? && H.CanHook(d.mem, CodeOf(ptr), place.value)
    && H.FreePlace(d.hooks, H.MakeHook(d.mem, CodeOf(ptr), place.value, d.home.replacement))
    && d.home.Misses(CodeOf(ptr), T.PATCH_SIZE + 2)
  }

  /** Exactly when the first hook can be made, from a heap at a word boundary, as the boot leaves it: 112 bytes
      of heap are left, the code there and at the function meets the interceptor's demands, and the function
      lies off the payload's own memory and the loader's. */
  lemma FirstHookExactly(d: DeviceState, ptr: u32)
    requires d.heap.Valid() && d.heap.ptr % 4 == 0 && d.hooks == [] && d.room == 0
    ensures Hookable(d, ptr) <==>
      && d.heap.size >= 112 && H.CanHook(d.mem, AlignDown(ptr, 2), d.heap.ptr)
      && d.home.Misses(AlignDown(ptr, 2), 12)
  {
    hide B.AllocStep, H.CanHook, H.MakeHook, Home.Misses;
    TrampolineLayoutIsValid();
    if d.heap.size >= 64 {
      AlignedBlock(d.heap, 64);
      var heap1 := TrampolinePlace(d).1;
      Mod4(d.heap.ptr / 4 + 16, 0);
      if heap1.size >= 48 {
        PoolTakes(heap1, 0, 0);
      } else {
        PoolIsFull(heap1);
      }
      if H.CanHook(d.mem, AlignDown(ptr, 2), d.heap.ptr) {
        H.HookFits(d.mem, AlignDown(ptr, 2), d.heap.ptr);
      }
    } else {
      B.AllocIs(d.heap, TRAMPOLINE_LAYOUT);
    }
  }

  lemma PoolIsFull(heap: B.Heap)
    requires heap.Valid() && heap.ptr % 4 == 0 && heap.size < 48
    ensures PoolGrowth(heap, 0, 0) == None
  {
    hide B.AllocStep;
    PoolLayoutIsValid(32);
    PoolLayoutIsValid(16);
    B.AllocIs(heap, B.Layout(32, 4));
    if heap.size >= 32 {
      AlignedBlock(heap, 32);
      B.AllocIs(B.AllocStep(heap, B.Layout(32, 4)).1, B.Layout(16, 4));
    }
  }

  function HookAt(d: DeviceState, ptr: u32): H.HookInfo
    requires Hookable(d, ptr)
  {
    H.MakeHook(d.mem, CodeOf(ptr), TrampolinePlace(d).0.value, d.home.replacement)
  }

  /** The device after the hook: the trampoline in a heap block, the patch over the function, the pool grown. */
  function Hooked(d: DeviceState, ptr: u32): DeviceState
    requires Hookable(d, ptr)
  {
    var h := HookAt(d, ptr);
    d.(mem := H.Install(d.mem, h), hooks := d.hooks + [h], heap := HookGrowth(d).value.0,
       room := HookGrowth(d).value.1)
  }

  // ----- one turn of the loop -----

  /** The requests the code does not check and does not survive: a write over the payload's own memory or
      the loader's, or a hook where none can be. */
  predicate Breaks(pl: bool, d: DeviceState, m: Message) {
    match m
    case Write(addr, size) => !d.home.Misses(addr, size)
    case Hook(_) => pl && d.lk.Some? && !Hookable(d, d.lk.value.ptrMtPartGenericRead)
    case _ => false
  }

  /** What a hook takes of such a heap: 64 bytes for the trampoline, and 48 for the pool at the first. */
  lemma HookTakes(d: DeviceState, ptr: u32)
    requires d.heap.Valid() && d.heap.ptr % 4 == 0 && Hookable(d, ptr)
    ensures
      var d' := Hooked(d, ptr);
      && HookAt(d, ptr).code == d.heap.ptr
      && (|d.hooks| < d.room ==>
            d'.heap == B.Heap(d.heap.ptr + 64, d.heap.size - 64) && d'.room == d.room)
      && (d.hooks == [] && d.room == 0 ==>
            d'.heap == B.Heap(d.heap.ptr + 112, d.heap.size - 112) && d'.room == 4)
  {
    hide B.AllocStep, H.CanHook, H.FreePlace, Home.Misses, H.Install, T.TrampolineCode, T.PatchCode, T.Items;
    TrampolineLayoutIsValid();
    B.AllocIs(d.heap, TRAMPOLINE_LAYOUT);
    AlignedBlock(d.heap, 64);
    var heap1 := TrampolinePlace(d).1;
    Mod4(d.heap.ptr / 4 + 16, 0);
    PoolTakes(heap1, |d.hooks|, d.room);
    if heap1.size < 48 && d.hooks == [] && d.room == 0 {
      PoolIsFull(heap1);
    }
  }

  /** The table takes the range, on the device and in the image. */
  function Blacklist(d: DeviceState, range: P.MemoryRange): Option<DeviceState> {
    match P.Blacklisted(d.slots, range, P.ForbiddenDL)
    case None => None
    case Some(slots) =>
      Some(d.(slots := slots, mem := P.Recorded(d.mem, d.home.tableAt, d.slots, range, P.ForbiddenDL)))
  }

  /** `pl` is the build feature of the preloader payload. */
  function React(pl: bool, d: DeviceState, m: Message): Reaction {
    match m
    case Ack => Reply(d, [], Response.Ack)
    case Read(addr, size) => Reply(d, Slice(d.mem, addr, size), Response.Ack)
    case Write(addr, size) => if d.home.Misses(addr, size) then Receive(addr, size) else Break
    case FlushCache(addr, size) => Reply(d, [], Response.Ack)
    case Jump(addr, r0, r1) =>
      if !pl then Leave(addr, [OrZero(r0), OrZero(r1)])
      else
        (match d.preloader
         case None => Reply(d, [], Nack(InvalidParams))
         case Some(params) => Leave(H.ThumbAddress(params.ptrBldrJump), [addr, OrZero(r0), OrZero(r1)]))
    case Reset => Reply(d.(resets := d.resets + 1), [], Response.Ack)
    case Hook(MtPartGenericRead) =>
      if !pl then Reply(d, [], Nack(NotSupported))
      else
        (match d.lk
         case None => Reply(d, [], Nack(InvalidParams))
         case Some(lk) =>
           if Hookable(d, lk.ptrMtPartGenericRead) then Reply(Hooked(d, lk.ptrMtPartGenericRead), [], Response.Ack)
           else Break)
    case GetFreeRange(size) =>
      var start := match P.FindUnused(d.slots, d.memory, size) case None => None case Some(r) => Some(r.start);
      Reply(d, [], Range(start))
    case BlacklistRange(range) =>
      (match Blacklist(d, range)
       case None => Reply(d, [], Nack(NotSupported))
       case Some(d') => Reply(d', [], Response.Ack))
    case SetParams(params) =>
      if !pl then Reply(d, [], Nack(NotSupported))
      else
        match params
        case Preloader(p) =>
          if p.IsValid() then Reply(d.(preloader := Some(p)), [], Response.Ack) else Reply(d, [], Nack(InvalidParams))
        case LK(p) =>
          if p.IsValid() then Reply(d.(lk := Some(p)), [], Response.Ack) else Reply(d, [], Nack(InvalidParams))
  }

  /** What the called function gets: arguments the host leaves out are zero, and the loader's jump gets the
      address first. Without parameters for that jump there is none. */
  lemma JumpArguments(d: DeviceState, addr: u32, r0: Option<u32>, r1: Option<u32>)
    ensures React(false, d, Jump(addr, None, None)) == Leave(addr, [0, 0])
    ensures
      var x, y := if r0.Some? then r0.value else 0, if r1.Some? then r1.value else 0;
      && React(false, d, Jump(addr, r0, r1)) == Leave(addr, [x, y])
      && match React(true, d, Jump(addr, r0, r1))
         case Leave(target, args) =>
           && d.preloader.Some? && args == [addr, x, y]
           && target % 2 == 1 && AlignDown(target, 2) == AlignDown(d.preloader.value.ptrBldrJump, 2)
         case reaction => d.preloader.None? && reaction == Reply(d, [], Nack(InvalidParams))
  {
  }

  /** What an answer tells the host. */
  lemma AnswersMean(pl: bool, d: DeviceState, m: Message)
    requires React(pl, d, m).Reply?
    ensures
      match React(pl, d, m).response
      case Ack =>
        (match m
         case BlacklistRange(range) => P.Blacklisted(d.slots, range, P.ForbiddenDL).Some?
         case SetParams(Preloader(p)) => pl && p.ptrBldrJump != 0
         case SetParams(LK(p)) =>
           pl && p.ptrMtPartGenericRead != 0 && p.ptrMtPartGetPartition != 0 && p.bootimgScratchAddr != 0
         case Hook(_) => pl && d.lk.Some?
         case GetFreeRange(_) | Jump(_, _, _) | Write(_, _) => false
         case _ => true)
      case Range(start) =>
        m.GetFreeRange? && (start.Some? <==> P.FindUnused(d.slots, d.memory, m.size).Some?)
        && (start.Some? ==> start.value == P.FindUnused(d.slots, d.memory, m.size).value.start)
      case Nack(NotSupported) =>
        if m.BlacklistRange? then P.Blacklisted(d.slots, m.range, P.ForbiddenDL).None?
        else !pl && (m.Hook? || m.SetParams?)
      case Nack(InvalidParams) =>
        pl && ((m.Jump? && d.preloader.None?) || (m.Hook? && d.lk.None?) || m.SetParams?)
      case Nack(_) => false
  {
    hide P.FindUnused, P.Blacklisted, P.Recorded, Hookable, Hooked;
  }

  /** What an answered message has changed: nothing but what it asked for. Only reading sends raw bytes. */
  lemma AnswersChange(pl: bool, d: DeviceState, m: Message)
    requires React(pl, d, m).Reply?
    ensures
      var reply := React(pl, d, m);
      var acked := reply.response == Response.Ack;
      && reply.d.preloader == (if acked && m.SetParams? && m.params.Preloader? then Some(m.params.pl) else d.preloader)
      && reply.d.lk == (if acked && m.SetParams? && m.params.LK? then Some(m.params.lk) else d.lk)
      && reply.d.resets == (if m.Reset? then d.resets + 1 else d.resets)
      && (reply.d.slots != d.slots ==> acked && m.BlacklistRange?)
      && (reply.d.hooks != d.hooks ==> acked && m.Hook?)
      && (reply.d.heap != d.heap ==> acked && m.Hook?)
      && (reply.d.mem != d.mem ==> acked && (m.BlacklistRange? || m.Hook?))
      && |reply.raw| == (if m.Read? then m.size else 0)
  {
    hide P.FindUnused, P.FirstUnused, P.PutSlot, H.Install, H.MakeHook, H.CanHook, H.FreePlace, HookGrowth,
         TrampolinePlace;
  }

  /** A message breaks the device exactly where the predicate says. */
  lemma BreaksIs(pl: bool, d: DeviceState, m: Message)
    ensures React(pl, d, m).Break? <==> Breaks(pl, d, m)
  {
    hide Hookable, P.FindUnused, P.Blacklisted;
  }

  /** Raw bytes received for a write land at the requested address; the blacklist is not consulted. */
  function Received(d: DeviceState, addr: u32, data: seq<u8>): DeviceState {
    d.(mem := Overlay(d.mem, addr, data))
  }

  /** How one turn of the loop ended. */
  datatype Turn = Answered | Left(target: int, args: seq<u32>) | Stopped

  class Handler {
    const pl: bool
    const protocol: Protocol
    const ram: R.Ram
    const params: P.PayloadParams
    const interceptor: I.Interceptor
    const allocator: B.BumpAllocator
    const home: Home
    var preloader: Option<PreloaderRunnerParams>
    var lk: Option<LKRunnerParams>
    /** How many elements the pool's vectors can hold before they grow. */
    var room: nat
    var resets: nat

    /** `main` of the preloader payload has initialised the heap; the other payload has none. The pool is in
        order. */
    ghost predicate Valid()
      reads this, interceptor, allocator
    {
      interceptor.ram == ram && interceptor.Valid() && (pl ==> allocator.ptr.Some?)
    }

    constructor (pl: bool, protocol: Protocol, ram: R.Ram, params: P.PayloadParams, interceptor: I.Interceptor,
                 allocator: B.BumpAllocator, home: Home)
      requires interceptor.ram == ram && interceptor.Valid() && (pl ==> allocator.ptr.Some?)
      ensures this.pl == pl && this.protocol == protocol && this.ram == ram && this.params == params
      ensures this.interceptor == interceptor && this.allocator == allocator && this.home == home
      ensures Valid() && preloader == None && lk == None && room == 0 && resets == 0
    {
      this.pl, this.protocol, this.ram, this.params := pl, protocol, ram, params;
      this.interceptor, this.allocator, this.home := interceptor, allocator, home;
      preloader, lk, room, resets := None, None, 0, 0;
    }

    ghost function State(): DeviceState
      reads this, ram, params, params.blacklist, interceptor, allocator
    {
      DeviceState(ram.bytes, params.memory, params.blacklist[..], preloader, lk, interceptor.hooks,
                  room, B.Heap(if allocator.ptr.Some? then allocator.ptr.value else 0, allocator.size), resets, home)
    }

    /** Sends the first ack and waits for the host's, which must read as a response; the source dies otherwise. */
    method Handshake() returns (ready: bool)
      requires protocol.buf.Length == BUF_SIZE && Arrived(protocol.io.inbox)
      modifies protocol.io, protocol.buf
      ensures |MessageBytes(Message.Ack)| <= BUF_SIZE
      ensures protocol.io.outbox == old(protocol.io.outbox) + Frame(MessageBytes(Message.Ack))
      ensures
        var taken := TakeFrame(old(protocol.io.inbox), Refill(old(protocol.buf[..]), MessageBytes(Message.Ack)));
        ready <==> taken.Some? && DecodeResponse(taken.value.0) == Some(Response.Ack)
      ensures forall rest :: old(protocol.io.inbox) == Frame(MessageBytes(Message.Ack)) + rest ==>
                ready && protocol.io.inbox == rest
    {
      hide TakeFrame, DecodeResponse, MessageBytes, Frame, Arrived;
      ghost var inbox := protocol.io.inbox;
      protocol.SendMessage(Message.Ack);
      ghost var stale := protocol.buf[..];
      var r := protocol.ReadResponse();
      ready := r == Value(Response.Ack);
      forall rest | inbox == Frame(MessageBytes(Message.Ack)) + rest
        ensures ready && protocol.io.inbox == rest
      {
        FrameIsTaken(MessageBytes(Message.Ack), rest, stale);
        AckReadsAsResponse(stale[|MessageBytes(Message.Ack)|..]);
      }
    }

    /** `hooks::mt_part_generic_read::replace`: a block for the trampoline, the interceptor, and what its two
        `push` calls ask of the heap. */
    method Hook(ptr: u32)
      requires pl && Valid() && Hookable(State(), ptr)
      modifies this`room, ram, interceptor, interceptor.cache, allocator
      ensures Valid() && State() == Hooked(old(State()), ptr)
    {
      hide H.CanHook, H.FreePlace, H.MakeHook, H.Install, B.AllocStep, Home.Misses, Bits.Or;
      TrampolineLayoutIsValid();
      ghost var d := State();
      H.HookFits(d.mem, CodeOf(ptr), TrampolinePlace(d).0.value);
      var code := allocator.Alloc(TRAMPOLINE_LAYOUT);
      var count := |interceptor.address|;
      Mod2(CodeOf(ptr) / 2, 1);
      var _ := interceptor.Replace(H.ThumbAddress(ptr), home.replacement, code.value);
      if count >= room {
        room := if room == 0 then 4 else 2 * room;
        PoolLayoutIsValid(8 * room);
        PoolLayoutIsValid(4 * room);
        var _ := allocator.Alloc(B.Layout(8 * room, 4));
        var _ := allocator.Alloc(B.Layout(4 * room, 4));
      }
    }

    /** Answers a message that needs no more input; `None` when control leaves the handler. */
    method Answer(m: Message) returns (response: Option<Response>, turn: Turn)
      requires Valid() && !m.Write? && !Breaks(pl, State(), m)
      modifies this, params.blacklist, protocol.io, ram, interceptor, interceptor.cache, allocator
      ensures Valid() && protocol.io.inbox == old(protocol.io.inbox)
      ensures match React(pl, old(State()), m)
              case Reply(d, raw, answer) =>
                response == Some(answer) && State() == d && protocol.io.outbox == old(protocol.io.outbox) + raw
              case Leave(target, args) =>
                && response == None && turn == Left(target, args) && State() == old(State())
                && protocol.io.outbox == old(protocol.io.outbox)
              case _ => false
      ensures m.FlushCache? ==>
                interceptor.cache.cleaned == old(interceptor.cache.cleaned) + Cache.CacheLines(m.addr, m.size)
    {
      hide P.FindUnused, P.Blacklisted, P.FirstFit, P.Recorded, Slice, Hookable, Hooked, I.Interceptor.Valid,
           Cache.CacheLines;
      turn := Answered;
      assert old(protocol.io.outbox) + [] == old(protocol.io.outbox);
      match m {
        case Ack =>
          response := Some(Response.Ack);
        case Read(addr, size) =>
          protocol.io.Write(Slice(ram.bytes, addr, size));
          response := Some(Response.Ack);
        case FlushCache(addr, size) =>
          interceptor.cache.FlushCache(addr, size);
          response := Some(Response.Ack);
        case Jump(addr, r0, r1) =>
          response := None;
          if !pl {
            turn := Left(addr, [OrZero(r0), OrZero(r1)]);
          } else if preloader.Some? {
            turn := Left(H.ThumbAddress(preloader.value.ptrBldrJump), [addr, OrZero(r0), OrZero(r1)]);
          } else {
            response := Some(Nack(InvalidParams));
          }
        case Reset =>
          resets := resets + 1;
          response := Some(Response.Ack);
        case Hook(MtPartGenericRead) =>
          if !pl {
            response := Some(Nack(NotSupported));
          } else if lk.Some? {
            Hook(lk.value.ptrMtPartGenericRead);
            response := Some(Response.Ack);
          } else {
            response := Some(Nack(InvalidParams));
          }
        case GetFreeRange(size) =>
          var range, _ := params.FindUnusedRange(size);
          response := Some(Range(if range.Some? then Some(range.value.start) else None));
        case BlacklistRange(range) =>
          RecordedFails(ram.bytes, home.tableAt, params.blacklist[..], range);
          var ok := params.Blacklist(range, P.ForbiddenDL, ram, home.tableAt);
          response := Some(if ok then Response.Ack else Nack(NotSupported));
        case SetParams(p) =>
          if !pl {
            response := Some(Nack(NotSupported));
          } else {
            match p {
              case Preloader(value) =>
                if value.IsValid() {
                  preloader := Some(value);
                  response := Some(Response.Ack);
                } else {
                  response := Some(Nack(InvalidParams));
                }
              case LK(value) =>
                if value.IsValid() {
                  lk := Some(value);
                  response := Some(Response.Ack);
                } else {
                  response := Some(Nack(InvalidParams));
                }
            }
          }
      }
    }

    /** One turn of the loop, once the message and, for a write, its raw bytes have arrived. */
    method HandleMessage() returns (turn: Turn)
      requires Valid() && protocol.buf.Length == BUF_SIZE && Arrived(protocol.io.inbox)
      requires
        match TakeFrame(protocol.io.inbox, protocol.buf[..])
        case None => true
        case Some((b, rest)) =>
          match DecodeMessage(b)
          case None => true
          case Some(m) => !Breaks(pl, State(), m) && (m.Write? ==> m.size <= |rest|)
      modifies this, ram, params.blacklist, protocol.io, protocol.buf, interceptor, interceptor.cache, allocator
      ensures Valid()
      ensures
        match TakeFrame(old(protocol.io.inbox), old(protocol.buf[..]))
        case None => turn == Stopped && State() == old(State())
        case Some((b, rest)) =>
          match DecodeMessage(b)
          case None => Replied(turn, old(State()), Nack(Unreachable), [], rest, old(protocol.io.outbox))
          case Some(m) =>
            match React(pl, old(State()), m)
            case Reply(d, raw, response) => Replied(turn, d, response, raw, rest, old(protocol.io.outbox))
            case Receive(addr, size) =>
              && size <= |rest|
              && Replied(turn, Received(old(State()), addr, rest[..size]), Response.Ack, [], rest[size..],
                         old(protocol.io.outbox))
            case Leave(target, args) =>
              && turn == Left(target, args) && State() == old(State())
              && protocol.io.inbox == rest && protocol.io.outbox == old(protocol.io.outbox)
            case Break => false
    {
      hide TakeFrame, DecodeMessage, P.FindUnused, P.Blacklisted, P.Recorded, Frame, ResponseBytes, Overlay, Slice,
           Hookable, Hooked, I.Interceptor.Valid;
      var r := protocol.ReadMessage();
      if r.Panicked? {
        return Stopped;
      }
      var response: Response;
      assert old(protocol.io.outbox) + [] == old(protocol.io.outbox);
      if r.PostcardError? {
        response := Nack(Unreachable);
      } else if r.value.Write? {
        var data := protocol.io.Read(r.value.size);
        ram.bytes := Overlay(ram.bytes, r.value.addr, data);
        response := Response.Ack;
      } else {
        var answer, left := Answer(r.value);
        if answer.None? {
          return left;
        }
        response := answer.value;
      }
      protocol.SendResponse(response);
      turn := Answered;
    }

    ghost predicate Replied(turn: Turn, d: DeviceState, response: Response, raw: seq<u8>, rest: seq<u8>, sent: seq<u8>)
      reads this, ram, params, params.blacklist, protocol.io, interceptor, allocator
    {
      && turn == Answered && State() == d && protocol.io.inbox == rest
      && |ResponseBytes(response)| <= BUF_SIZE
      && protocol.io.outbox == sent + raw + Frame(ResponseBytes(response))
    }
  }

  lemma RecordedFails(m: Mem, at: int, slots: P.Slots, range: P.MemoryRange)
    ensures P.Blacklisted(slots, range, P.ForbiddenDL).None? ==> P.Recorded(m, at, slots, range, P.ForbiddenDL) == m
  {
  }
}
