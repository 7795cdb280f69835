/** What a live hook means when the machine runs: the patch reaches the replacement, the trampoline
    stands in for the original function, and taking the hook out again restores it or does not. */
module HookTheorems {
  import opened Bytes
  import opened Thumb
  import opened Translator
  import opened Hook

  /** `ldr.w pc, [pc]` at a word boundary transfers control to the word that follows it. */
  lemma JumpoutStep<R>(exec: Semantics<R>, text: Mem, pc: int, addr: u32, core: Core<R>)
    requires pc % 4 == 0 && addr % 2 == 1 && core.it == []
    requires HalvesAt(text, pc, Jumpout(addr))
    ensures Step(exec, text, State(pc, core)) == Some(State(addr - 1, core))
  {
    hide Get16;
    var hs := Jumpout(addr);
    assert Get16(text, pc + 2 * 0) == hs[0] && Get16(text, pc + 2 * 1) == hs[1];
    assert Get16(text, pc + 2 * 2) == hs[2] && Get16(text, pc + 2 * 3) == hs[3];
    assert Fetch(text, pc) == Wide(0xF8DF, 0xF000);
    assert Decode(Wide(0xF8DF, 0xF000)) == LdrLiteral(15, 0);
    assert LiteralAddress(pc, 0) == pc + 4;
    assert Get32(text, pc + 4) == addr;
  }

  /** Entering a hooked target reaches the replacement with every register and the rest of the state unchanged. */
  lemma TargetReachesReplacement<R(!new)>(exec: Semantics<R>, text: Mem, h: HookInfo, replacement: u32, core: Core<R>)
    requires h.target % 2 == 0 && core.it == []
    requires Live(text, h) && h.patch == PatchCode(h.target, ThumbAddress(replacement))
    ensures Run(exec, text, if h.target % 4 == 0 then 1 else 2, State(h.target, core))
         == Some(State(ThumbAddress(replacement) - 1, core))
  {
    hide Get16, HalvesAt, Step, Jumpout, Run;
    var addr := ThumbAddress(replacement);
    if h.target % 4 == 0 {
      assert h.patch == Jumpout(addr);
      JumpoutStep(exec, text, h.target, addr, core);
      RunOnce(exec, text, State(h.target, core));
    } else {
      PatchIsPadded(h.target, addr);
      PaddedJump(exec, text, h.target, addr, core);
    }
  }

  lemma PatchIsPadded(target: int, replacement: u32)
    requires target % 4 != 0
    ensures PatchCode(target, replacement) == [NOP] + Jumpout(replacement)
  {
    hide Jumpout;
    var nop := [Half(NOP)];
    assert nop[1..] == [] && Flatten(nop) == [NOP];
  }

  lemma RunOnce<R>(exec: Semantics<R>, text: Mem, s: State<R>)
    ensures Run(exec, text, 1, s) == Step(exec, text, s)
  {
    hide Step;
  }

  lemma PaddedJump<R(!new)>(exec: Semantics<R>, text: Mem, pc: int, addr: u32, core: Core<R>)
    requires pc % 4 == 2 && addr % 2 == 1 && core.it == []
    requires HalvesAt(text, pc, [NOP] + Jumpout(addr))
    ensures Run(exec, text, 2, State(pc, core)) == Some(State(addr - 1, core))
  {
    hide Get16, HalvesAt, Step, Jumpout, Run;
    var nop := [Half(NOP)];
    assert nop[1..] == [] && Flatten(nop) == [NOP];
    HalvesAtSplit(text, pc, Flatten(nop), Jumpout(addr));
    PadStraight(exec, 1);
    RunRaws(exec, text, pc, nop, core);
    PadEffects(exec, 1, core);
    JumpoutStep(exec, text, pc + 2, addr, core);
    RunOnce(exec, text, State(pc + 2, core));
    RunCompose(exec, text, 1, 1, State(pc, core));
  }

  lemma BodyStraight<R(!new)>(exec: Semantics<R>, items: seq<Item>)
    requires Supported(exec, items) && ItemsWellFormed(items)
    ensures StraightCode(exec, Body(items))
  {
    EmitStraight(exec, items, 0);
    PadStraight(exec, |Flatten(Emit(items, 0))|);
    StraightAppend(exec, Emit(items, 0), Pad(|Flatten(Emit(items, 0))|));
  }

  /** Where the emitted code gets to its end, no IT block is open. */
  predicate Closes<R>(exec: Semantics<R>, items: seq<Item>, core: Core<R>) {
    match Effects(exec, Emit(items, 0), core)
    case None => true
    case Some(core') => core'.it == []
  }

  lemma BodyEffects<R>(exec: Semantics<R>, items: seq<Item>, core: Core<R>)
    requires Closes(exec, items, core)
    ensures Effects(exec, Body(items), core) == Effects(exec, Emit(items, 0), core)
  {
    hide Emit, Effect;
    var raws := Emit(items, 0);
    var pad := Pad(|Flatten(raws)|);
    EffectsAppend(exec, raws, pad, core);
    match Effects(exec, raws, core)
    case None =>
    case Some(core') => PadEffects(exec, |Flatten(raws)|, core');
  }

  /** Running a trampoline to its jump performs the effects of its body and ends at the jump address. */
  lemma TrampolineRuns<R(!new)>(exec: Semantics<R>, text: Mem, code: int, items: seq<Item>, jump: u32, core: Core<R>)
    requires code % 4 == 0 && jump % 2 == 1
    requires HalvesAt(text, code, TrampolineCode(items, jump))
    requires |Flatten(Body(items))| % 2 == 0
    requires Supported(exec, items) && ItemsWellFormed(items) && Closes(exec, items, core)
    ensures Run(exec, text, |Body(items)| + 1, State(code, core))
         == At(jump - 1, Effects(exec, Emit(items, 0), core))
  {
    hide Get16, HalvesAt, Step, Jumpout, Body, Supported, ItemsWellFormed, StraightCode, Effects, Emit;
    var body := Body(items);
    var end := code + 2 * |Flatten(body)|;
    HalvesAtSplit(text, code, Flatten(body), Jumpout(jump));
    BodyStraight(exec, items);
    BodyEffects(exec, items, core);
    RunRaws(exec, text, code, body, core);
    var effects := Effects(exec, body, core);
    match effects
    case None =>
      RunStuck(exec, text, |body|, 1, State(code, core));
    case Some(core') =>
      JumpoutStep(exec, text, end, jump, core');
      RunCompose(exec, text, |body|, 1, State(code, core));
      assert Run(exec, text, 1, State(end, core')) == Some(State(jump - 1, core'));
  }

  lemma {:induction false} RunStuck<R>(exec: Semantics<R>, text: Mem, j: nat, k: nat, st: State<R>)
    requires Run(exec, text, j, st).None?
    ensures Run(exec, text, j + k, st).None?
  {
    if Step(exec, text, st).Some? {
      RunStuck(exec, text, j - 1, k, Step(exec, text, st).value);
    }
  }

  /** What the translator supports, read off the memory it finds at the target. */
  ghost predicate SupportedPrologue<R(!new)>(exec: Semantics<R>, text: Mem, target: int) {
    var items := Items(text, target, 0);
    Supported(exec, items) && NoPcLoad(items) && LoadsOutsideBlocks(items, [])
  }

  /** No literal load writes sp, and every IT block ends in the relocated bytes. */
  predicate Relocatable(items: seq<Item>) {
    NoSpLoad(items) && Pending(items, []) == []
  }

  lemma LiveTrampoline(text: Mem, text': Mem, target: int, code: int, replacement: u32)
    requires CanHook(text, target, code)
    requires Live(text', MakeHook(text, target, code, replacement))
    ensures target % 2 == 0 && 0 <= target <= 0x1_0000_0000 - 16 && code % 4 == 0
    ensures HalvesAt(text', code, TrampolineCode(Items(text, target, 0), JumpAddress(text, target)))
  {
    hide Get16, HalvesAt, LiteralsClear, TrampolineCode, PatchCode, JumpAddress;
  }

  lemma HookTrampolineRuns<R(!new)>(exec: Semantics<R>, text: Mem, text': Mem, target: int, code: int,
                                    replacement: u32, core: Core<R>)
    requires CanHook(text, target, code)
    requires Live(text', MakeHook(text, target, code, replacement))
    requires Supported(exec, Items(text, target, 0))
    requires Closes(exec, Items(text, target, 0), core)
    ensures ItemsWellFormed(Items(text, target, 0))
    ensures
      var items := Items(text, target, 0);
      Run(exec, text', |Body(items)| + 1, State(code, core))
      == At(target + RelocatedSize(text, target), Effects(exec, Emit(items, 0), core))
  {
    hide HalvesAt, CanHook, Live, MakeHook, Body, Supported, Run, Effects, Emit, TrampolineCode, PatchCode, Flatten,
         Items, ItemsSize, ItemsWellFormed, Covers, Closes;
    var items := Items(text, target, 0);
    LiveTrampoline(text, text', target, code, replacement);
    var jump := JumpAddress(text, target);
    TranslationBounds(text, target, jump, replacement);
    ItemsCover(text, target, 0);
    Mod2((target + RelocatedSize(text, target)) / 2, 1);
    TrampolineRuns(exec, text', code, items, jump, core);
  }

  /** The trampoline preserves meaning: from every state outside an IT block, running it to its jump in the hooked
      memory ends as running the original prologue in the unhooked memory does, with pc at the first
      instruction after the relocated bytes. */
  lemma TrampolinePreservesMeaning<R(!new)>(exec: Semantics<R>, text: Mem, text': Mem, target: int, code: int,
                                            replacement: u32, core: Core<R>)
    requires CanHook(text, target, code)
    requires Live(text', MakeHook(text, target, code, replacement))
    requires SupportedPrologue(exec, text, target) && Relocatable(Items(text, target, 0)) && core.it == []
    ensures
      var items := Items(text, target, 0);
      Run(exec, text', |Body(items)| + 1, State(code, core)) == Run(exec, text, |items|, State(target, core))
    ensures
      match Run(exec, text, |Items(text, target, 0)|, State(target, core))
      case None => true
      case Some(st) => st.pc == target + RelocatedSize(text, target)
  {
    hide CanHook, Live, MakeHook, Body, Supported, NoPcLoad, NoSpLoad, Run, Effects, Meaning, Emit, Items, ItemsSize,
         ItemsWellFormed, LoadsOutsideBlocks, Pending;
    var items := Items(text, target, 0);
    ItemsCover(text, target, 0);
    EmitPending(exec, items, 0, core);
    HookTrampolineRuns(exec, text, text', target, code, replacement, core);
    EmitEffects(exec, items, 0, core);
    RunPrologue(exec, text, target, 0, items, core);
  }

  /** The final jump, wherever it leads, leaves no condition pending; it may be passed over. */
  lemma JumpoutEnds<R>(exec: Semantics<R>, text: Mem, pc: int, addr: u32, core: Core<R>)
    requires pc % 4 == 0 && HalvesAt(text, pc, Jumpout(addr))
    ensures match Step(exec, text, State(pc, core))
            case None => true
            case Some(st) => st.pc == pc + 4 || st.core.it == []
  {
    hide Get16;
    var hs := Jumpout(addr);
    assert Get16(text, pc + 2 * 0) == hs[0] && Get16(text, pc + 2 * 1) == hs[1];
    assert Fetch(text, pc) == Wide(0xF8DF, 0xF000);
    assert Decode(Wide(0xF8DF, 0xF000)) == LdrLiteral(15, 0);
  }

  /** So does a trampoline, whatever its prologue leaves pending. */
  lemma TrampolineEnds<R(!new)>(exec: Semantics<R>, text: Mem, code: int, items: seq<Item>, jump: u32, core: Core<R>)
    requires code % 4 == 0 && HalvesAt(text, code, TrampolineCode(items, jump))
    requires |Flatten(Body(items))| % 2 == 0
    requires Supported(exec, items) && ItemsWellFormed(items)
    ensures match Run(exec, text, |Body(items)| + 1, State(code, core))
            case None => true
            case Some(st) => st.pc == code + 2 * |Flatten(Body(items))| + 4 || st.core.it == []
  {
    hide Get16, HalvesAt, Step, Jumpout, Body, Supported, ItemsWellFormed, StraightCode, Effects;
    var body := Body(items);
    var end := code + 2 * |Flatten(body)|;
    HalvesAtSplit(text, code, Flatten(body), Jumpout(jump));
    BodyStraight(exec, items);
    RunRaws(exec, text, code, body, core);
    match Effects(exec, body, core)
    case None =>
      RunStuck(exec, text, |body|, 1, State(code, core));
    case Some(core') =>
      JumpoutEnds(exec, text, end, jump, core');
      RunCompose(exec, text, |body|, 1, State(code, core));
      RunOnce(exec, text, State(end, core'));
  }

  lemma {:induction false} MeaningPending<R>(exec: Semantics<R>, items: seq<Item>, core: Core<R>)
    requires NoPcLoad(items) && LoadsOutsideBlocks(items, core.it)
    ensures match Meaning(exec, items, core)
            case None => true
            case Some(core') => core'.it == Pending(items, core.it)
  {
    hide ItemEffect, NextConditions;
    if items != [] {
      ItemConditions(exec, items[0], core);
      var core' := ItemEffect(exec, items[0], core);
      if core'.Some? {
        MeaningPending(exec, items[1..], core'.value);
      }
    }
  }

  /** If an IT block runs past the prologue, the original leaves conditions pending and the trampoline none. */
  lemma OpenBlockEnds<R(!new)>(exec: Semantics<R>, text: Mem, text': Mem, target: int, code: int,
                               replacement: u32, core: Core<R>)
    requires CanHook(text, target, code)
    requires Live(text', MakeHook(text, target, code, replacement))
    requires SupportedPrologue(exec, text, target) && core.it == []
    requires Run(exec, text, |Items(text, target, 0)|, State(target, core)).Some?
    requires Pending(Items(text, target, 0), []) != []
    ensures
      var items := Items(text, target, 0);
      Run(exec, text', |Body(items)| + 1, State(code, core)) != Run(exec, text, |items|, State(target, core))
  {
    hide HalvesAt, LiteralsClear, Live, MakeHook, Body, Supported, NoPcLoad, Run, Items, ItemsSize, Meaning,
         ItemsWellFormed, LoadsOutsideBlocks, Pending, TrampolineCode, PatchCode, Flatten, Covers;
    var items := Items(text, target, 0);
    ItemsCover(text, target, 0);
    LiveTrampoline(text, text', target, code, replacement);
    var jump := JumpAddress(text, target);
    TranslationBounds(text, target, jump, replacement);
    TrampolineEnds(exec, text', code, items, jump, core);
    RunPrologue(exec, text, target, 0, items, core);
    MeaningPending(exec, items, core);
    assert |TrampolineCode(items, jump)| == |Flatten(Body(items))| + 4 by {
      CodeLength(items, jump);
    }
  }

  lemma CodeLength(items: seq<Item>, jump: u32)
    ensures |TrampolineCode(items, jump)| == |Flatten(Body(items))| + 4
  {
  }

  /** Exactly when: a supported prologue that runs through is preserved if and only if none of its literal
      loads writes sp, because MOVW and MOVT cannot, and no IT block runs past it, because a jump ends it. */
  lemma TrampolineExact<R(!new)>(exec: Semantics<R>, text: Mem, text': Mem, target: int, code: int,
                                 replacement: u32, core: Core<R>)
    requires CanHook(text, target, code)
    requires Live(text', MakeHook(text, target, code, replacement))
    requires SupportedPrologue(exec, text, target) && core.it == []
    requires Run(exec, text, |Items(text, target, 0)|, State(target, core)).Some?
    ensures
      var items := Items(text, target, 0);
      Run(exec, text', |Body(items)| + 1, State(code, core)) == Run(exec, text, |items|, State(target, core))
      <==> Relocatable(items)
  {
    hide CanHook, Live, MakeHook, Body, Supported, NoPcLoad, NoSpLoad, Run, Effects, Emit, Items, ItemsSize,
         ItemsWellFormed, LoadsOutsideBlocks, Pending;
    var items := Items(text, target, 0);
    ItemsCover(text, target, 0);
    if Relocatable(items) {
      TrampolinePreservesMeaning(exec, text, text', target, code, replacement, core);
    } else if NoSpLoad(items) {
      OpenBlockEnds(exec, text, text', target, code, replacement, core);
    } else {
      EmitStuck(exec, items, 0, core);
      HookTrampolineRuns(exec, text, text', target, code, replacement, core);
    }
  }

  // ----- calling the original -----

  /** The bytes a hook takes. */
  function Places(h: HookInfo): seq<Region> {
    [(h.target, h.target + h.size), (h.code, h.code + TRAMPOLINE_SIZE)]
  }

  /** The whole-hook theorem, second part: a call through `original` behaves as the unhooked function, in
      any memory in which the hook is in force, for as long as the code after the prologue looks at none of
      the places in which that memory differs from the unhooked one. */
  lemma OriginalBehavesAsUnhooked<R(!new)>(exec: Semantics<R>, text: Mem, text': Mem, target: int, code: int,
                                           replacement: u32, core: Core<R>, k: nat, places: seq<Region>)
    requires CanHook(text, target, code) && core.it == []
    requires Live(text', MakeHook(text, target, code, replacement)) && SameBut(text, text', places)
    requires SupportedPrologue(exec, text, target) && Relocatable(Items(text, target, 0))
    requires
      match Run(exec, text, |Items(text, target, 0)|, State(target, core))
      case None => true
      case Some(st) => RunAvoids(exec, text, k, st, places)
    ensures
      var items := Items(text, target, 0);
      Run(exec, text', |Body(items)| + 1 + k, State(code, core)) == Run(exec, text, |items| + k, State(target, core))
  {
    hide CanHook, Live, MakeHook, Body, SupportedPrologue, Relocatable, Run, RunAvoids, Items, SameBut;
    var items := Items(text, target, 0);
    TrampolinePreservesMeaning(exec, text, text', target, code, replacement, core);
    var j := |Body(items)| + 1;
    match Run(exec, text, |items|, State(target, core))
    case None =>
      RunStuck(exec, text, |items|, k, State(target, core));
      RunStuck(exec, text', j, k, State(code, core));
    case Some(st) =>
      RunCompose(exec, text, |items|, k, State(target, core));
      RunCompose(exec, text', j, k, State(code, core));
      RunFrame(exec, text, text', k, st, places);
  }

  /** What the interceptor does to memory later on: `replace` puts a hook in, `revert` takes one out. */
  datatype Change = Put(hook: HookInfo) | Taken(hook: HookInfo)

  function Changed(text: Mem, changes: seq<Change>): Mem
    decreases |changes|
  {
    if changes == [] then text else Apply(Changed(text, changes[..|changes| - 1]), changes[|changes| - 1])
  }

  /** Taking a hook out writes one byte more than it takes. */
  function ChangedPlaces(change: Change): seq<Region> {
    match change
    case Put(h) => Places(h)
    case Taken(h) => [(h.target, h.target + h.size + 1)]
  }

  function AllPlaces(changes: seq<Change>): seq<Region>
    decreases |changes|
  {
    if changes == [] then [] else AllPlaces(changes[..|changes| - 1]) + ChangedPlaces(changes[|changes| - 1])
  }

  /** Other hooks, apart from `h`. */
  predicate Elsewhere(changes: seq<Change>, h: HookInfo) {
    forall i :: 0 <= i < |changes| ==> Shape(changes[i].hook) && HooksApart(changes[i].hook, h)
  }

  function Apply(text: Mem, change: Change): Mem {
    match change
    case Put(h) => Install(text, h)
    case Taken(h) => Remove(text, h)
  }

  lemma ApplyPlaces(text: Mem, change: Change)
    requires Shape(change.hook)
    ensures SameBut(text, Apply(text, change), ChangedPlaces(change))
  {
    hide Install;
    var h, places := change.hook, ChangedPlaces(change);
    InstallIsLive(text, h);
    forall x | !Within(x, places)
      ensures Get(Apply(text, change), x) == Get(text, x)
    {
      assert !(places[0].0 <= x < places[0].1);
      assert change.Put? ==> !(places[1].0 <= x < places[1].1);
    }
  }

  lemma SameButCompose(m: Mem, m': Mem, m'': Mem, p: seq<Region>, q: seq<Region>)
    requires SameBut(m, m', p) && SameBut(m', m'', q)
    ensures SameBut(m, m'', p + q)
  {
    forall x | !Within(x, p + q)
      ensures Get(m'', x) == Get(m, x)
    {
      assert forall i :: 0 <= i < |p| ==> (p + q)[i] == p[i];
      assert forall i :: 0 <= i < |q| ==> (p + q)[|p| + i] == q[i];
      assert !Within(x, p) && !Within(x, q);
    }
  }

  /** Whatever other hooks come and go, a hook stays in force and memory changes in their places only. */
  lemma {:induction false} HookOutlives(text: Mem, h: HookInfo, changes: seq<Change>)
    requires Live(text, h) && Elsewhere(changes, h)
    ensures Live(Changed(text, changes), h) && SameBut(text, Changed(text, changes), AllPlaces(changes))
    decreases |changes|
  {
    hide Live, Shape, HooksApart, Install, Remove, SameBut, ChangedPlaces;
    if changes != [] {
      var before, last := changes[..|changes| - 1], changes[|changes| - 1];
      HookOutlives(text, h, before);
      var m := Changed(text, before);
      OtherHooksStayLive(m, last.hook, h);
      ApplyPlaces(m, last);
      SameButCompose(text, m, Changed(text, changes), AllPlaces(before), ChangedPlaces(last));
    } else {
      SameButSelf(text);
    }
  }

  lemma SameButSelf(m: Mem)
    ensures SameBut(m, m, [])
  {
  }

  /** So `original` keeps behaving as the unhooked function through any later `replace` and `revert` of other
      functions, as long as that function's code lies apart from what they touch. */
  lemma OriginalOutlivesOtherHooks<R(!new)>(exec: Semantics<R>, text: Mem, target: int, code: int, replacement: u32,
                                            core: Core<R>, k: nat, later: seq<Change>)
    requires CanHook(text, target, code) && core.it == []
    requires Elsewhere(later, MakeHook(text, target, code, replacement))
    requires SupportedPrologue(exec, text, target) && Relocatable(Items(text, target, 0))
    requires
      match Run(exec, text, |Items(text, target, 0)|, State(target, core))
      case None => true
      case Some(st) =>
        RunAvoids(exec, text, k, st, Places(MakeHook(text, target, code, replacement)) + AllPlaces(later))
    ensures
      var items := Items(text, target, 0);
      var text' := Changed(Install(text, MakeHook(text, target, code, replacement)), later);
      Run(exec, text', |Body(items)| + 1 + k, State(code, core)) == Run(exec, text, |items| + k, State(target, core))
  {
    hide CanHook, Live, MakeHook, Body, SupportedPrologue, Relocatable, Run, RunAvoids, Items, SameBut, Elsewhere,
         Places, Install, Shape;
    HookFits(text, target, code);
    var h := MakeHook(text, target, code, replacement);
    MakeHookShape(text, target, code, replacement);
    var hooked := Install(text, h);
    InstallIsLive(text, h);
    ApplyPlaces(text, Put(h));
    HookOutlives(hooked, h, later);
    SameButCompose(text, hooked, Changed(hooked, later), Places(h), AllPlaces(later));
    OriginalBehavesAsUnhooked(exec, text, Changed(hooked, later), target, code, replacement, core, k,
                              Places(h) + AllPlaces(later));
  }

  // ----- the emitted code re-decodes -----

  /** The instructions found from `pc` when memory is read with the reader's own 16/32-bit test. */
  function ReadBack(text: Mem, pc: int, count: nat): seq<Raw>
    decreases count
  {
    if count == 0 then [] else
    var raw := Fetch(text, pc);
    [raw] + ReadBack(text, pc + raw.Size(), count - 1)
  }

  predicate AllWellFormed(raws: seq<Raw>) {
    raws == [] || (raws[0].WellFormed() && AllWellFormed(raws[1..]))
  }

  lemma {:induction false} ReadBackRaws(text: Mem, pc: int, raws: seq<Raw>)
    requires AllWellFormed(raws) && HalvesAt(text, pc, Flatten(raws))
    ensures ReadBack(text, pc, |raws|) == raws
    decreases raws
  {
    hide HalvesAt, Fetch;
    if raws != [] {
      assert Flatten(raws) == raws[0].Halves() + Flatten(raws[1..]);
      HalvesAtSplit(text, pc, raws[0].Halves(), Flatten(raws[1..]));
      FetchAt(text, pc, raws[0]);
      ReadBackRaws(text, pc + raws[0].Size(), raws[1..]);
    }
  }

  lemma {:induction false} WellFormedAppend(x: seq<Raw>, y: seq<Raw>)
    requires AllWellFormed(x) && AllWellFormed(y)
    ensures AllWellFormed(x + y)
  {
    if x == [] {
      assert x + y == y;
    } else {
      WellFormedAppend(x[1..], y);
      assert (x + y)[1..] == x[1..] + y;
    }
  }

  lemma EmitItemWellFormed(item: Item, k: nat)
    requires ItemWellFormed(item)
    ensures AllWellFormed(EmitItem(item, k))
  {
    hide MovRaw, Decode, Is32Bit;
    match item
    case Keep(raw) =>
      assert [raw][1..] == [];
    case Literal(_, rt, v) =>
      var lo, hi := MovRaw(false, rt, v % 0x1_0000), MovRaw(true, rt, v / 0x1_0000);
      MovRoundTrip(false, rt, v % 0x1_0000);
      MovRoundTrip(true, rt, v / 0x1_0000);
      assert [lo, hi][1..] == [hi] && [hi][1..] == [];
      assert AllWellFormed([hi]);
      PadWellFormed(k);
      WellFormedAppend(Pad(k), [lo, hi]);
  }

  lemma PadWellFormed(k: nat)
    ensures AllWellFormed(Pad(k))
  {
  }

  lemma {:induction false} EmitWellFormed(items: seq<Item>, k: nat)
    requires ItemsWellFormed(items)
    ensures AllWellFormed(Emit(items, k))
  {
    hide EmitItem, Flatten, ItemWellFormed;
    if items != [] {
      var now := EmitItem(items[0], k);
      EmitItemWellFormed(items[0], k);
      EmitWellFormed(items[1..], k + |Flatten(now)|);
      WellFormedAppend(now, Emit(items[1..], k + |Flatten(now)|));
    }
  }

  /** Emitted code re-decodes: reading a live trampoline back with the reader's own width test
      yields exactly the translated instructions, their alignment nops and the final jump. */
  lemma TrampolineReadsBack(text: Mem, code: int, items: seq<Item>, jump: u32)
    requires ItemsWellFormed(items)
    requires HalvesAt(text, code, TrampolineCode(items, jump))
    ensures ReadBack(text, code, |Body(items)| + 1) == Body(items) + [Wide(0xF8DF, 0xF000)]
  {
    hide HalvesAt, Emit, Fetch, ReadBack, Flatten;
    var loader := Wide(0xF8DF, 0xF000);
    var pad := Pad(|Flatten(Emit(items, 0))|);
    var whole := Body(items) + [loader];
    EmitWellFormed(items, 0);
    PadWellFormed(|Flatten(Emit(items, 0))|);
    WellFormedAppend(Emit(items, 0), pad);
    assert [loader][1..] == [];
    WellFormedAppend(Body(items), [loader]);
    FlattenAppend(Body(items), [loader]);
    FlattenOne(loader);
    var rest := [jump % 0x1_0000, jump / 0x1_0000];
    assert TrampolineCode(items, jump) == Flatten(whole) + rest;
    HalvesAtSplit(text, code, Flatten(whole), rest);
    ReadBackRaws(text, code, whole);
  }

  lemma FlattenOne(raw: Raw)
    ensures Flatten([raw]) == raw.Halves()
  {
    assert [raw][1..] == [];
  }
}
