/** What a boot session is to do, and exactly when it succeeds: its course as a function of the plan and the
    device, and the conditions on both under which it ends in the jump. */
module Plans {
  import opened Bytes
  import opened Codec
  import opened Device
  import opened HostExt
  import opened Params
  import opened Placement
  import H = Hook

  /** Bytes for an address. */
  datatype Image = Image(addr: int, data: seq<u8>)

  datatype LkPlan = LkPlan(addr: u32, data: seq<u8>, bootarg: seq<u8>, genericRead: u32, getPartition: u32)

  datatype BootMode = BootROM | Preloader | LK | REPL

  /** What the command line and the image analysis settle beforehand. */
  datatype Plan = Plan(bldrJump: u32, uploads: seq<Image>, jumpAddr: u32, lk: Option<LkPlan>, mode: BootMode,
                       bootImage: Option<seq<u8>>) {
    predicate Valid() {
      && (forall i :: 0 <= i < |uploads| ==> FitsU32(uploads[i]))
      && (lk.Some? ==> FitsU32(LkImage(lk.value)) && 0 < |lk.value.bootarg| <= U32_MAX)
      && (bootImage.Some? ==> 0 < |bootImage.value| <= U32_MAX)
    }
  }

  /** The range the host blacklists, one byte longer than the data, is one of 32-bit addresses. */
  predicate FitsU32(p: Image) {
    0 <= p.addr && p.addr + |p.data| + 1 <= U32_MAX
  }

  function LkImage(lk: LkPlan): Image {
    Image(lk.addr, lk.data)
  }

  function LkParams(lk: LkPlan, scratch: u32): LKRunnerParams {
    LKRunnerParams(H.ThumbAddress(lk.genericRead), H.ThumbAddress(lk.getPartition), scratch)
  }

  function RangeOf(p: Image): Block {
    Block(p.addr, p.addr + |p.data|)
  }

  predicate OwnMissed(d: DeviceState, p: Image) {
    d.home.Misses(p.addr, |p.data|)
  }

  function Blacklisting(d: DeviceState, p: Image): Option<DeviceState>
    requires FitsU32(p)
  {
    Device.Blacklist(d, MemoryRange(p.addr, p.addr + |p.data| + 1))
  }

  /** The user chose ranges that miss the payload's own memory; the code does not check that either. */
  predicate PlanMisses(plan: Plan, home: Home) {
    && (forall i :: 0 <= i < |plan.uploads| ==> home.Misses(plan.uploads[i].addr, |plan.uploads[i].data|))
    && (plan.lk.Some? ==> home.Misses(plan.lk.value.addr, |plan.lk.value.data|))
  }

  // ----- the course of a session -----

  /** A session goes on with the device as it then is, is refused, or has the payload write over itself or
      hook where it cannot. */
  datatype Course = Going(d: DeviceState) | Refusal | Loss

  /** Upload, then blacklist. */
  function PlaceOne(d: DeviceState, p: Image): Course
    requires FitsU32(p)
  {
    if !OwnMissed(d, p) then Loss
    else
      match Blacklisting(Stored(d, p.addr, p.data), p)
      case None => Refusal
      case Some(d') => Going(d')
  }

  function PlaceAll(d: DeviceState, ps: seq<Image>): Course
    requires forall i :: 0 <= i < |ps| ==> FitsU32(ps[i])
  {
    if ps == [] then Going(d)
    else
      match PlaceAll(d, ps[..|ps| - 1])
      case Going(d1) => PlaceOne(d1, ps[|ps| - 1])
      case c => c
  }

  lemma FreeFits(slots: Slots, memory: MemoryRange, data: seq<u8>)
    requires memory.end < U32_MAX && 0 < |data| <= U32_MAX
    ensures match FindUnused(slots, memory, |data|)
            case None => true
            case Some(r) => FitsU32(Image(r.start, data))
  {
    hide FindUnused, Vacant;
    FoundIsVacant(slots, memory, |data|);
    if FindUnused(slots, memory, |data|).Some? {
      var r := FindUnused(slots, memory, |data|).value;
      VacantIs(slots, memory, Block(r.start, r.start + |data|));
    }
  }

  /** A range is found for the data, blacklisted and filled, in this order or the other. */
  function PlaceFree(d: DeviceState, data: seq<u8>, blacklistFirst: bool): (r: (Course, u32))
    requires d.memory.end < U32_MAX && 0 < |data| <= U32_MAX
  {
    FreeFits(d.slots, d.memory, data);
    match FindUnused(d.slots, d.memory, |data|)
    case None => (Refusal, 0)
    case Some(found) =>
      var p := Image(found.start, data);
      match Blacklisting(if blacklistFirst then d else Stored(d, p.addr, data), p)
      case None => (Refusal, 0)
      case Some(d') => (Going(if blacklistFirst then Stored(d', p.addr, data) else d'), found.start)
  }

  /** LK, then its boot argument. */
  function PlaceLoader(d: DeviceState, lk: LkPlan): (Course, u32)
    requires FitsU32(LkImage(lk)) && 0 < |lk.bootarg| <= U32_MAX && d.memory.end < U32_MAX
  {
    OnePlacedKeeps(d, LkImage(lk));
    match PlaceOne(d, LkImage(lk))
    case Going(d1) => PlaceFree(d1, lk.bootarg, true)
    case c => (c, 0)
  }

  /** The boot image, if there is one, and the address LK is told to read it from. */
  function PlaceBootImage(plan: Plan, d: DeviceState): (Course, u32)
    requires plan.Valid() && d.memory.end < U32_MAX
  {
    match plan.bootImage
    case Some(data) => PlaceFree(d, data, false)
    case None => if plan.uploads == [] then (Refusal, 0) else (Going(d), plan.uploads[0].addr)
  }

  /** Up to the request for the hook. */
  function BeforeHook(plan: Plan, lk: LkPlan, d: DeviceState): Course
    requires plan.Valid() && d.memory.end < U32_MAX
  {
    var (c, scratch) := PlaceBootImage(plan, d);
    match c
    case Going(d1) => if LkParams(lk, scratch).IsValid() then Going(d1.(lk := Some(LkParams(lk, scratch)))) else Refusal
    case _ => c
  }

  /** What the host places at addresses of its own: the user's images, then LK. */
  function Given(plan: Plan): seq<Image> {
    plan.uploads + (if plan.lk.Some? then [LkImage(plan.lk.value)] else [])
  }

  lemma GivenFits(plan: Plan)
    requires plan.Valid()
    ensures forall i :: 0 <= i < |Given(plan)| ==> FitsU32(Given(plan)[i])
  {
  }

  /** The device that has been told the loader's jump. */
  function Told(plan: Plan, d: DeviceState): DeviceState {
    d.(preloader := Some(PreloaderRunnerParams(plan.bldrJump)))
  }

  /** The boot argument, if there is an LK to read it, and where it goes. */
  function PlaceBootarg(plan: Plan, d: DeviceState): (Course, u32)
    requires plan.Valid() && d.memory.end < U32_MAX
  {
    match plan.lk
    case None => (Going(d), 0)
    case Some(lk) => PlaceFree(d, lk.bootarg, true)
  }

  /** Everything but a boot image. */
  function PlaceGiven(plan: Plan, d: DeviceState): (Course, u32)
    requires plan.Valid() && d.memory.end < U32_MAX
  {
    GivenFits(plan);
    PlacedKeeps(d, Given(plan));
    match PlaceAll(d, Given(plan))
    case Going(d1) => PlaceBootarg(plan, d1)
    case c => (c, 0)
  }

  /** Up to the request for the hook, or for the jump if there is none. */
  function Prepared(plan: Plan, d: DeviceState): Course
    requires plan.Valid() && d.memory.end < U32_MAX
  {
    if plan.bldrJump == 0 then Refusal
    else
      GivenKeeps(plan, Told(plan, d));
      match PlaceGiven(plan, Told(plan, d)).0
      case Going(d1) =>
        if !plan.mode.LK? then Going(d1) else if plan.lk.None? then Refusal else BeforeHook(plan, plan.lk.value, d1)
      case c => c
  }

  /** Up to the jump. */
  function SessionCourse(plan: Plan, d: DeviceState): Course
    requires plan.Valid() && d.memory.end < U32_MAX
  {
    match Prepared(plan, d)
    case Going(d1) =>
      if plan.mode.LK? && plan.lk.Some? then
        var ptr := H.ThumbAddress(plan.lk.value.genericRead);
        if Hookable(d1, ptr) then Going(Hooked(d1, ptr)) else Loss
      else Going(d1)
    case c => c
  }

  // ----- what a course leaves alone -----

  /** Nothing but memory and table has changed. */
  predicate Alike(d: DeviceState, d': DeviceState) {
    d' == d.(mem := d'.mem, slots := d'.slots)
  }

  lemma OnePlacedKeeps(d: DeviceState, p: Image)
    requires FitsU32(p)
    ensures PlaceOne(d, p).Going? ==> Alike(d, PlaceOne(d, p).d)
  {
    hide Blacklisted, Recorded, Overlay, OwnMissed;
  }

  lemma {:induction false} PlacedKeeps(d: DeviceState, ps: seq<Image>)
    requires forall i :: 0 <= i < |ps| ==> FitsU32(ps[i])
    ensures PlaceAll(d, ps).Going? ==> Alike(d, PlaceAll(d, ps).d)
    decreases |ps|
  {
    hide PlaceOne;
    if ps != [] {
      PlacedKeeps(d, ps[..|ps| - 1]);
      if PlaceAll(d, ps[..|ps| - 1]).Going? {
        OnePlacedKeeps(PlaceAll(d, ps[..|ps| - 1]).d, ps[|ps| - 1]);
      }
    }
  }

  lemma FreeKeeps(d: DeviceState, data: seq<u8>, blacklistFirst: bool)
    requires d.memory.end < U32_MAX && 0 < |data| <= U32_MAX
    ensures
      var c := PlaceFree(d, data, blacklistFirst).0;
      c.Going? ==> Alike(d, c.d)
  {
    hide Blacklisted, Recorded, Overlay, FindUnused;
    FreeFits(d.slots, d.memory, data);
  }

  lemma BeforeHookIsNotLost(plan: Plan, lk: LkPlan, d: DeviceState)
    requires plan.Valid() && d.memory.end < U32_MAX
    ensures !BeforeHook(plan, lk, d).Loss?
  {
    hide FindUnused, Blacklisting, H.ThumbAddress;
  }

  lemma GivenKeeps(plan: Plan, d: DeviceState)
    requires plan.Valid() && d.memory.end < U32_MAX
    ensures PlaceGiven(plan, d).0.Going? ==> Alike(d, PlaceGiven(plan, d).0.d)
  {
    hide PlaceAll, PlaceFree;
    GivenFits(plan);
    PlacedKeeps(d, Given(plan));
    if PlaceAll(d, Given(plan)).Going? && plan.lk.Some? {
      FreeKeeps(PlaceAll(d, Given(plan)).d, plan.lk.value.bootarg, true);
    }
  }

  // ----- exactly when it succeeds -----

  /** The slot that guards an image. */
  function SlotOf(p: Image): Params.BlacklistRange
    requires FitsU32(p)
  {
    Params.BlacklistRange(MemoryRange(p.addr, p.addr + |p.data| + 1), ForbiddenDL)
  }

  /** The table when all of `ps` have been blacklisted, in order. */
  function Table(slots: Slots, used: nat, ps: seq<Image>): Slots
    requires used + |ps| <= |slots| && forall i :: 0 <= i < |ps| ==> FitsU32(ps[i])
  {
    slots[..used] + seq(|ps|, i requires 0 <= i < |ps| => SlotOf(ps[i])) + slots[used + |ps|..]
  }

  lemma TableSnoc(slots: Slots, used: nat, ps: seq<Image>, p: Image)
    requires used + |ps| < |slots| && FitsU32(p) && forall i :: 0 <= i < |ps| ==> FitsU32(ps[i])
    ensures Table(slots, used, ps + [p]) == Table(slots, used, ps)[used + |ps| := SlotOf(p)]
  {
    hide SlotOf;
  }

  lemma BlacklistingIs(d: DeviceState, used: nat, p: Image)
    requires FitsU32(p) && Filled(d.slots, used)
    ensures Blacklisting(d, p).Some? <==> used < |d.slots|
    ensures Blacklisting(d, p).Some? ==>
      var d' := Blacklisting(d, p).value;
      d'.slots == d.slots[used := SlotOf(p)] && Filled(d'.slots, used + 1)
  {
    hide Recorded, FirstUnused;
    FirstUnusedIs(d.slots, used);
  }

  /** One image is placed if it misses the payload's own memory and a slot is left. */
  lemma OneExactly(d: DeviceState, used: nat, p: Image)
    requires FitsU32(p) && Filled(d.slots, used)
    ensures
      var c := PlaceOne(d, p);
      && (c.Loss? <==> !OwnMissed(d, p))
      && (c.Going? <==> OwnMissed(d, p) && used < |d.slots|)
      && (c.Going? ==> c.d.slots == d.slots[used := SlotOf(p)] && Filled(c.d.slots, used + 1))
  {
    hide Overlay, OwnMissed, Blacklisting;
    BlacklistingIs(Stored(d, p.addr, p.data), used, p);
  }

  /** The first image that does not miss the payload's own memory is reached before the slots run out. */
  predicate MeetsAt(home: Home, room: int, ps: seq<Image>, i: nat) {
    i < |ps| && i <= room && !home.Misses(ps[i].addr, |ps[i].data|) && AllMiss(home, ps[..i])
  }

  predicate AllMiss(home: Home, ps: seq<Image>) {
    forall i :: 0 <= i < |ps| ==> home.Misses(ps[i].addr, |ps[i].data|)
  }

  predicate Meets(home: Home, room: int, ps: seq<Image>) {
    exists i :: 0 <= i < |ps| && MeetsAt(home, room, ps, i)
  }

  lemma MeetsSnoc(home: Home, room: int, ps: seq<Image>, p: Image)
    ensures AllMiss(home, ps + [p]) <==> AllMiss(home, ps) && home.Misses(p.addr, |p.data|)
    ensures Meets(home, room, ps + [p])
       <==> Meets(home, room, ps) || (AllMiss(home, ps) && |ps| <= room && !home.Misses(p.addr, |p.data|))
  {
    hide Home.Misses;
    var all := ps + [p];
    forall i | 0 <= i <= |ps|
      ensures all[..i] == ps[..i]
    {
    }
    assert ps[..|ps|] == ps;
    if Meets(home, room, all) {
      var i :| 0 <= i < |all| && MeetsAt(home, room, all, i);
      assert i < |ps| ==> MeetsAt(home, room, ps, i);
    }
    if Meets(home, room, ps) {
      var i :| 0 <= i < |ps| && MeetsAt(home, room, ps, i);
      assert MeetsAt(home, room, all, i);
    }
    if AllMiss(home, ps) && |ps| <= room && !home.Misses(p.addr, |p.data|) {
      assert MeetsAt(home, room, all, |ps|);
    }
    forall i | 0 <= i < |all| && AllMiss(home, ps) && home.Misses(p.addr, |p.data|)
      ensures home.Misses(all[i].addr, |all[i].data|)
    {
      assert i < |ps| ==> all[i] == ps[i];
    }
    if AllMiss(home, all) {
      assert all[|ps|] == p;
      assert forall i :: 0 <= i < |ps| ==> ps[i] == all[i];
    }
  }

  /** A list of images is placed if all of them miss that memory and there are slots for all. */
  lemma {:induction false} AllExactly(d: DeviceState, used: nat, ps: seq<Image>)
    requires Filled(d.slots, used) && forall i :: 0 <= i < |ps| ==> FitsU32(ps[i])
    ensures
      var c := PlaceAll(d, ps);
      && (c.Loss? <==> Meets(d.home, |d.slots| - used, ps))
      && (c.Going? <==> AllMiss(d.home, ps) && used + |ps| <= |d.slots|)
      && (c.Going? ==> c.d.slots == Table(d.slots, used, ps) && Filled(c.d.slots, used + |ps|))
    decreases |ps|
  {
    hide PlaceOne, Filled, Table, Meets, AllMiss, Home.Misses, SlotOf;
    if ps == [] {
      TableNothing(d, used);
    } else {
      var before, p := ps[..|ps| - 1], ps[|ps| - 1];
      assert ps == before + [p];
      AllExactly(d, used, before);
      MeetsSnoc(d.home, |d.slots| - used, before, p);
      MeetsMeans(d.home, |d.slots| - used, before);
      if PlaceAll(d, before).Going? {
        var d1 := PlaceAll(d, before).d;
        PlacedKeeps(d, before);
        TableLength(d.slots, used, before);
        OneExactly(d1, used + |before|, p);
        if used + |before| < |d.slots| {
          TableSnoc(d.slots, used, before, p);
        }
      }
    }
  }

  lemma MeetsMeans(home: Home, room: int, ps: seq<Image>)
    ensures Meets(home, room, ps) ==> !AllMiss(home, ps)
  {
    hide Home.Misses;
  }

  lemma TableNothing(d: DeviceState, used: nat)
    requires Filled(d.slots, used)
    ensures Table(d.slots, used, []) == d.slots && !Meets(d.home, |d.slots| - used, []) && AllMiss(d.home, [])
    ensures used <= |d.slots|
  {
  }

  lemma TableLength(slots: Slots, used: nat, ps: seq<Image>)
    requires used + |ps| <= |slots| && forall i :: 0 <= i < |ps| ==> FitsU32(ps[i])
    ensures |Table(slots, used, ps)| == |slots|
  {
    hide SlotOf;
  }

  /** A range is found and taken if one fits and a slot is left. */
  lemma FreeExactly(d: DeviceState, used: nat, data: seq<u8>, blacklistFirst: bool)
    requires Filled(d.slots, used) && d.memory.end < U32_MAX && 0 < |data| <= U32_MAX
    ensures
      var (c, start) := PlaceFree(d, data, blacklistFirst);
      var found := FindUnused(d.slots, d.memory, |data|);
      && !c.Loss? && (c.Going? <==> found.Some? && used < |d.slots|)
      && (c.Going? ==>
            && start == found.value.start && FitsU32(Image(start, data))
            && c.d.slots == d.slots[used := SlotOf(Image(start, data))] && Filled(c.d.slots, used + 1))
  {
    hide Overlay, Blacklisting, FindUnused, Filled, SlotOf;
    FreeFits(d.slots, d.memory, data);
    if FindUnused(d.slots, d.memory, |data|).Some? {
      var p := Image(FindUnused(d.slots, d.memory, |data|).value.start, data);
      BlacklistingIs(if blacklistFirst then d else Stored(d, p.addr, data), used, p);
    }
  }

  /** The slots a session takes. */
  function Needed(plan: Plan): nat {
    |plan.uploads| + (if plan.lk.Some? then 2 else 0) + (if plan.mode.LK? && plan.bootImage.Some? then 1 else 0)
  }

  /** What can be checked before the session: the loader's jump is known, there are slots for everything, and,
      for LK, its parameters are complete and a free range is there for boot argument and boot image. */
  predicate PlanFits(plan: Plan, slots: Slots, used: nat, memory: MemoryRange)
    requires plan.Valid() && memory.end < U32_MAX
  {
    && plan.bldrJump != 0 && used + Needed(plan) <= |slots|
    && (plan.mode.LK? ==> plan.lk.Some? && (plan.bootImage.Some? || plan.uploads != []))
    && (plan.lk.Some? ==>
          LkFits(plan, plan.lk.value.bootarg, WithGiven(plan, slots, used), used + |Given(plan)|, memory))
  }

  function WithGiven(plan: Plan, slots: Slots, used: nat): (r: Slots)
    requires plan.Valid() && used + |Given(plan)| <= |slots|
    ensures |r| == |slots|
  {
    GivenFits(plan);
    TableLength(slots, used, Given(plan));
    Table(slots, used, Given(plan))
  }

  /** `slots` has everything the host places itself in its first `used` slots. */
  predicate LkFits(plan: Plan, bootarg: seq<u8>, slots: Slots, used: nat, memory: MemoryRange)
    requires plan.Valid() && memory.end < U32_MAX && 0 < |bootarg| <= U32_MAX && used < |slots|
    requires plan.mode.LK? ==> plan.bootImage.Some? || plan.uploads != []
  {
    FreeFits(slots, memory, bootarg);
    match FindUnused(slots, memory, |bootarg|)
    case None => false
    case Some(r) =>
      plan.mode.LK? ==>
        match plan.bootImage
        case None => plan.uploads[0].addr != 0
        case Some(data) =>
          var found := FindUnused(slots[used := SlotOf(Image(r.start, bootarg))], memory, |data|);
          found.Some? && found.value.start != 0
  }

  lemma BootImageExactly(plan: Plan, lk: LkPlan, d: DeviceState, used: nat)
    requires plan.Valid() && Filled(d.slots, used) && d.memory.end < U32_MAX
    ensures !BeforeHook(plan, lk, d).Loss?
    ensures BeforeHook(plan, lk, d).Going? <==>
      match plan.bootImage
      case None => plan.uploads != [] && plan.uploads[0].addr != 0
      case Some(data) =>
        var found := FindUnused(d.slots, d.memory, |data|);
        used < |d.slots| && found.Some? && found.value.start != 0
  {
    hide PlaceFree, Filled, FindUnused, H.ThumbAddress;
    match plan.bootImage
    case None =>
    case Some(data) => FreeExactly(d, used, data, false);
  }

  lemma BootargExactly(plan: Plan, d: DeviceState, used: nat)
    requires plan.Valid() && Filled(d.slots, used) && d.memory.end < U32_MAX
    ensures
      var c := PlaceBootarg(plan, d).0;
      var slots := (if plan.lk.Some? then 1 else 0) + (if plan.mode.LK? && plan.bootImage.Some? then 1 else 0);
      var fits :=
        && (plan.mode.LK? ==> plan.lk.Some? && (plan.bootImage.Some? || plan.uploads != []))
        && used + slots <= |d.slots|
        && (plan.lk.Some? ==> LkFits(plan, plan.lk.value.bootarg, d.slots, used, d.memory));
      && !c.Loss? && (c.Going? ==> Alike(d, c.d)) && (fits ==> c.Going?)
      && (c.Going? ==>
            if !plan.mode.LK? || plan.lk.None? then fits <==> !plan.mode.LK?
            else !BeforeHook(plan, plan.lk.value, c.d).Loss? && (BeforeHook(plan, plan.lk.value, c.d).Going? <==> fits))
  {
    hide PlaceFree, Filled, FindUnused, BeforeHook, SlotOf;
    FilledBound(d.slots, used);
    if plan.lk.Some? {
      var lk := plan.lk.value;
      FreeExactly(d, used, lk.bootarg, true);
      FreeKeeps(d, lk.bootarg, true);
      var c := PlaceFree(d, lk.bootarg, true).0;
      if c.Going? && plan.mode.LK? {
        BootImageExactly(plan, lk, c.d, used + 1);
      }
    }
  }

  lemma FilledBound(slots: Slots, used: nat)
    requires Filled(slots, used)
    ensures used <= |slots|
  {
  }

  lemma MissesIsAll(plan: Plan, home: Home)
    ensures PlanMisses(plan, home) <==> AllMiss(home, Given(plan))
  {
    hide Home.Misses;
    if plan.lk.Some? {
      MeetsSnoc(home, 0, plan.uploads, LkImage(plan.lk.value));
    } else {
      assert Given(plan) == plan.uploads;
    }
  }

  /** A session gets to its hook or its jump if and only if the plan's ranges miss the payload's own memory and
      the plan fits; the payload is lost before that if and only if a range that meets it comes up while there
      are slots. */
  lemma PreparedExactly(plan: Plan, d: DeviceState, used: nat)
    requires plan.Valid() && d.memory.end < U32_MAX && Filled(d.slots, used)
    ensures Prepared(plan, d).Going? <==> PlanMisses(plan, d.home) && PlanFits(plan, d.slots, used, d.memory)
    ensures Prepared(plan, d).Loss? <==> plan.bldrJump != 0 && Meets(d.home, |d.slots| - used, Given(plan))
  {
    hide PlaceBootarg, BeforeHook, PlaceAll, Filled, Table, Meets, AllMiss, PlanMisses, LkFits, Given;
    GivenFits(plan);
    GivenLength(plan);
    MissesIsAll(plan, d.home);
    MeetsMeans(d.home, |d.slots| - used, Given(plan));
    AllExactly(Told(plan, d), used, Given(plan));
    PlacedKeeps(Told(plan, d), Given(plan));
    var c := PlaceAll(Told(plan, d), Given(plan));
    if c.Going? {
      BootargExactly(plan, c.d, used + |Given(plan)|);
      TableLength(d.slots, used, Given(plan));
    }
  }

  lemma GivenLength(plan: Plan)
    ensures |Given(plan)| == |plan.uploads| + if plan.lk.Some? then 1 else 0
  {
  }

  /** The whole session: it gets to its end if and only if, besides, LK's function can be hooked when it comes
      to that; it is lost if and only if a range or that hook is the reason. */
  lemma SessionExactly(plan: Plan, d: DeviceState, used: nat)
    requires plan.Valid() && d.memory.end < U32_MAX && Filled(d.slots, used)
    ensures
      var c := SessionCourse(plan, d);
      var fits := PlanMisses(plan, d.home) && PlanFits(plan, d.slots, used, d.memory);
      && (c.Going? <==> fits && (plan.mode.LK? ==> HookFits(plan, d)))
      && (c.Loss? <==>
            || (plan.bldrJump != 0 && Meets(d.home, |d.slots| - used, Given(plan)))
            || (fits && plan.mode.LK? && !HookFits(plan, d)))
  {
    hide Prepared, PlanMisses, LkFits, Meets, Given, Hookable, Hooked;
    PreparedExactly(plan, d, used);
    if plan.lk.None? && plan.mode.LK? {
      assert !PlanFits(plan, d.slots, used, d.memory);
    }
  }

  /** The function of LK can be hooked on the device that the session has prepared. */
  predicate HookFits(plan: Plan, d: DeviceState)
    requires plan.Valid() && d.memory.end < U32_MAX
  {
    plan.lk.Some? && Prepared(plan, d).Going?
    && Hookable(Prepared(plan, d).d, H.ThumbAddress(plan.lk.value.genericRead))
  }
}
