/** Inputs at which the conditions of the hook theorems fail. */
module HookWitness {
  import opened Bytes
  import opened Thumb
  import opened Translator
  import opened Hook
  import opened HookTheorems
  import opened Revert

  const TARGET: u32 := 0x1000
  const CODE: u32 := 0x2000

  /** `ldr.w rt, [pc, #12]` and three nops. */
  function LoadProgram(rt: nat): seq<u16>
    requires rt < 15
  {
    [0xF8DF, rt * 0x1000 + 12, NOP, NOP, NOP]
  }

  function LoadText(rt: nat): Mem
    requires rt < 15
  {
    PutHalves(map[], TARGET, LoadProgram(rt))
  }

  /** Five nops and `mov r8, r8`. */
  function NopText(): Mem {
    PutHalves(map[], TARGET, [NOP, NOP, NOP, NOP, NOP, 0x46C0])
  }

  lemma LoadFetches(rt: nat)
    requires rt < 15
    ensures
      var text := LoadText(rt);
      && Fetch(text, TARGET) == Wide(0xF8DF, rt * 0x1000 + 12)
      && Fetch(text, TARGET + 4) == Fetch(text, TARGET + 6) == Fetch(text, TARGET + 8) == Half(NOP)
  {
    hide PutHalves, Get16;
    var text, hs := LoadText(rt), LoadProgram(rt);
    PutHalvesAt(map[], TARGET, hs);
    assert Get16(text, TARGET + 2 * 0) == hs[0] && Get16(text, TARGET + 2 * 1) == hs[1];
    assert Get16(text, TARGET + 2 * 2) == hs[2] && Get16(text, TARGET + 2 * 3) == hs[3];
    assert Get16(text, TARGET + 2 * 4) == hs[4];
  }

  lemma NopFetches()
    ensures forall n :: 0 <= n < 5 ==> Fetch(NopText(), TARGET + 2 * n) == Half(NOP)
    ensures Get(NopText(), TARGET + 10) == 0xC0
  {
    hide PutHalves;
    var hs := [NOP, NOP, NOP, NOP, NOP, 0x46C0];
    PutHalvesAt(map[], TARGET, hs);
    forall n | 0 <= n < 5
      ensures Fetch(NopText(), TARGET + 2 * n) == Half(NOP)
    {
      assert Get16(NopText(), TARGET + 2 * n) == hs[n];
    }
    assert Get16(NopText(), TARGET + 2 * 5) == hs[5];
  }

  /** The literal load decodes as the instruction it is, and the rest as nops. */
  lemma LoadItems(rt: nat)
    requires rt < 15
    ensures
      var text := LoadText(rt);
      var nop := Keep(Half(NOP));
      Items(text, TARGET, 0) == [Literal(Wide(0xF8DF, rt * 0x1000 + 12), rt, Get32(text, TARGET + 16)), nop, nop, nop]
  {
    hide PutHalves, Get16, Get32, Fetch, Items;
    var text := LoadText(rt);
    LoadFetches(rt);
    ItemsStep(text, TARGET, 0);
    ItemsStep(text, TARGET, 4);
    ItemsStep(text, TARGET, 6);
    ItemsStep(text, TARGET, 8);
    ItemsStep(text, TARGET, 10);
  }

  lemma NopItems()
    ensures
      var nop := Keep(Half(NOP));
      Items(NopText(), TARGET, 0) == [nop, nop, nop, nop, nop]
  {
    hide PutHalves, Get16, Fetch, Items;
    var text := NopText();
    NopFetches();
    forall n | 0 <= n < 5
      ensures ItemAt(text, TARGET + 2 * n) == Keep(Half(NOP))
    {
      assert Fetch(text, TARGET + 2 * n) == Half(NOP) && Decode(Half(NOP)) == Nop;
    }
    hide ItemAt;
    assert ItemAt(text, TARGET + 2 * 0) == ItemAt(text, TARGET + 2 * 1) == ItemAt(text, TARGET + 2 * 2)
        == ItemAt(text, TARGET + 2 * 3) == ItemAt(text, TARGET + 2 * 4) == Keep(Half(NOP));
    ItemsStep(text, TARGET, 0);
    ItemsStep(text, TARGET, 2);
    ItemsStep(text, TARGET, 4);
    ItemsStep(text, TARGET, 6);
    ItemsStep(text, TARGET, 8);
    ItemsStep(text, TARGET, 10);
  }

  lemma LoadIsHookable(rt: nat)
    requires rt < 15
    ensures CanHook(LoadText(rt), TARGET, CODE)
  {
    hide PutHalves, Get16, Fetch;
    LoadFetches(rt);
    var text := LoadText(rt);
    assert LiteralsClear(text, TARGET, 10, CODE, CODE + TRAMPOLINE_SIZE);
    assert LiteralsClear(text, TARGET, 8, CODE, CODE + TRAMPOLINE_SIZE);
    assert LiteralsClear(text, TARGET, 6, CODE, CODE + TRAMPOLINE_SIZE);
    assert LiteralsClear(text, TARGET, 4, CODE, CODE + TRAMPOLINE_SIZE);
  }

  lemma NopIsHookable()
    ensures CanHook(NopText(), TARGET, CODE)
  {
    hide PutHalves, Get16, Fetch;
    NopFetches();
    var text, end := NopText(), CODE + TRAMPOLINE_SIZE;
    assert Fetch(text, TARGET + 2 * 4) == Half(NOP) && LiteralsClear(text, TARGET, 10, CODE, end);
    assert Fetch(text, TARGET + 2 * 3) == Half(NOP) && LiteralsClear(text, TARGET, 8, CODE, end);
    assert Fetch(text, TARGET + 2 * 2) == Half(NOP) && LiteralsClear(text, TARGET, 6, CODE, end);
    assert Fetch(text, TARGET + 2 * 1) == Half(NOP) && LiteralsClear(text, TARGET, 4, CODE, end);
    assert Fetch(text, TARGET + 2 * 0) == Half(NOP) && LiteralsClear(text, TARGET, 2, CODE, end);
  }

  lemma {:induction false} NopsRun<R(!new)>(exec: Semantics<R>, items: seq<Item>, core: Core<R>)
    requires (forall i :: 0 <= i < |items| ==> items[i] == Keep(Half(NOP))) && core.it == []
    ensures Supported(exec, items) && NoPcLoad(items) && LoadsOutsideBlocks(items, []) && Relocatable(items)
    ensures Meaning(exec, items, core) == Some(core)
  {
    if items != [] {
      NopsRun(exec, items[1..], core);
      assert Decode(Half(NOP)) == Nop && Effect(exec, Half(NOP), core) == Some(core);
    }
  }

  /** A literal load of sp satisfies every hypothesis of the exactness theorem and is not preserved. */
  lemma SpLoadIsNotPreserved<R(!new)>(exec: Semantics<R>, replacement: u32, core: Core<R>)
    requires core.it == []
    ensures CanHook(LoadText(13), TARGET, CODE) && SupportedPrologue(exec, LoadText(13), TARGET)
    ensures
      var text := LoadText(13);
      var text' := Install(text, MakeHook(text, TARGET, CODE, replacement));
      var items := Items(text, TARGET, 0);
      && Run(exec, text, |items|, State(TARGET, core)).Some?
      && Run(exec, text', |Body(items)| + 1, State(CODE, core)) != Run(exec, text, |items|, State(TARGET, core))
  {
    hide PutHalves, Get16, Get32, Items, Run, MakeHook, Install, Body, CanHook, Live, Shape, Meaning, Supported,
         NoPcLoad, NoSpLoad, LoadsOutsideBlocks, Pending, LoadText;
    var text := LoadText(13);
    var items := Items(text, TARGET, 0);
    LoadIsHookable(13);
    LoadItems(13);
    LoadedRuns(exec, items, core);
    RunPrologue(exec, text, TARGET, 0, items, core);
    var h := MakeHook(text, TARGET, CODE, replacement);
    MakeHookShape(text, TARGET, CODE, replacement);
    InstallIsLive(text, h);
    TrampolineExact(exec, text, Install(text, h), TARGET, CODE, replacement, core);
  }

  lemma LoadedRuns<R(!new)>(exec: Semantics<R>, items: seq<Item>, core: Core<R>)
    requires |items| == 4 && items[0].Literal? && items[0].rt == 13 && core.it == []
    requires forall i :: 1 <= i < 4 ==> items[i] == Keep(Half(NOP))
    ensures Supported(exec, items) && NoPcLoad(items) && LoadsOutsideBlocks(items, []) && !NoSpLoad(items)
    ensures Meaning(exec, items, core).Some?
  {
    hide Meaning;
    var core' := ItemEffect(exec, items[0], core).value;
    NopsRun(exec, items[1..], core');
    MeaningStep(exec, items, core);
  }

  lemma MeaningStep<R>(exec: Semantics<R>, items: seq<Item>, core: Core<R>)
    requires items != [] && NoPcLoad(items) && ItemEffect(exec, items[0], core).Some?
    ensures Meaning(exec, items, core) == Meaning(exec, items[1..], ItemEffect(exec, items[0], core).value)
  {
  }

  // ----- a literal load in an IT block -----

  /** `it eq`, `ldr r0, [pc, #4]` and three nops. */
  const BLOCK_PROGRAM: seq<u16> := [0xBF08, 0x4801, NOP, NOP, NOP]

  function BlockText(): Mem {
    PutHalves(map[], TARGET, BLOCK_PROGRAM)
  }

  /** The word the load reads. */
  function BlockWord(): u32 {
    Get32(BlockText(), TARGET + 8)
  }

  lemma BlockFetches()
    ensures
      var text := BlockText();
      && Fetch(text, TARGET) == Half(0xBF08) && Fetch(text, TARGET + 2) == Half(0x4801)
      && Fetch(text, TARGET + 4) == Fetch(text, TARGET + 6) == Fetch(text, TARGET + 8) == Half(NOP)
  {
    hide PutHalves, Get16;
    var text, hs := BlockText(), BLOCK_PROGRAM;
    PutHalvesAt(map[], TARGET, hs);
    assert Get16(text, TARGET + 2 * 0) == hs[0] && Get16(text, TARGET + 2 * 1) == hs[1];
    assert Get16(text, TARGET + 2 * 2) == hs[2] && Get16(text, TARGET + 2 * 3) == hs[3];
    assert Get16(text, TARGET + 2 * 4) == hs[4];
  }

  lemma BlockItems()
    ensures
      var nop := Keep(Half(NOP));
      && Items(BlockText(), TARGET, 0) == [Keep(Half(0xBF08)), Literal(Half(0x4801), 0, BlockWord()), nop, nop, nop]
      && Items(BlockText(), TARGET, 4) == [nop, nop, nop]
  {
    hide PutHalves, Get16, Get32, Fetch, Items;
    var text := BlockText();
    BlockFetches();
    BlockDecodes();
    ItemsStep(text, TARGET, 0);
    ItemsStep(text, TARGET, 2);
    ItemsStep(text, TARGET, 4);
    ItemsStep(text, TARGET, 6);
    ItemsStep(text, TARGET, 8);
    ItemsStep(text, TARGET, 10);
  }

  lemma BlockDecodes()
    ensures Decode(Half(0xBF08)) == IfThen([0]) && Decode(Half(0x4801)) == LdrLiteral(0, 4)
    ensures LiteralAddress(TARGET + 2, 4) == TARGET + 8
  {
    assert IfThenConditions(0, 8) == [0];
    assert 0xBF08 / 256 == 0xBF && 0xBF08 % 16 == 8 && 0xBF08 / 16 % 16 == 0;
    assert 0x4801 / 256 == 0x48 && 0x4801 / 2048 == 9;
  }

  lemma BlockIsHookable()
    ensures CanHook(BlockText(), TARGET, CODE)
  {
    hide PutHalves, Get16, Fetch;
    BlockFetches();
    BlockDecodes();
    var text, end := BlockText(), CODE + TRAMPOLINE_SIZE;
    assert LiteralsClear(text, TARGET, 10, CODE, end);
    assert LiteralsClear(text, TARGET, 8, CODE, end);
    assert LiteralsClear(text, TARGET, 6, CODE, end);
    assert LiteralsClear(text, TARGET, 4, CODE, end);
    assert LiteralsClear(text, TARGET, 2, CODE, end);
  }

  /** Where the condition fails the original passes over the load. */
  lemma BlockRuns<R(!new)>(exec: Semantics<R>, core: Core<R>)
    requires core.it == [] && !exec.holds(0, core.rest)
    ensures Run(exec, BlockText(), 5, State(TARGET, core)) == Some(State(TARGET + 10, core))
  {
    hide PutHalves, Get16, Get32, Fetch, Items, Meaning, Decode;
    var text := BlockText();
    BlockFetches();
    BlockDecodes();
    BlockItems();
    var items := Items(text, TARGET, 4);
    NopsRun(exec, items, core);
    NopsSize(items);
    RunPrologue(exec, text, TARGET, 4, items, core);
    var inside := core.(it := [0]);
    assert Step(exec, text, State(TARGET, core)) == Some(State(TARGET + 2, inside));
    assert inside.Advanced() == core;
    assert Step(exec, text, State(TARGET + 2, inside)) == Some(State(TARGET + 4, core));
    hide Step;
    assert Run(exec, text, 4, State(TARGET + 2, inside)) == Run(exec, text, 3, State(TARGET + 4, core));
  }

  /** In the trampoline the condition falls on the padding, and the load's replacement is carried out. */
  lemma BlockEmitted<R(!new)>(exec: Semantics<R>, items: seq<Item>, core: Core<R>)
    requires |items| == 5 && items[0] == Keep(Half(0xBF08)) && items[1] == Literal(Half(0x4801), 0, BlockWord())
    requires forall i :: 2 <= i < 5 ==> items[i] == Keep(Half(NOP))
    requires core.it == [] && !exec.holds(0, core.rest)
    ensures Effects(exec, Emit(items, 0), core) == Some(SetReg(core, 0, BlockWord()))
  {
    hide Effect, BlockWord, Effects, MovRaw, Decode;
    var raw, v := items[0].raw, BlockWord();
    var inside := core.(it := [0]);
    ItEffect(exec, core);
    assert [raw][1..] == [] && Flatten([raw]) == [0xBF08];
    var movs := [MovRaw(false, 0, v % 0x1_0000), MovRaw(true, 0, v / 0x1_0000)];
    var load, k := EmitItem(items[1], 1), 1 + |Flatten(EmitItem(items[1], 1))|;
    assert load == [Half(NOP)] + movs;
    var later := items[2..];
    assert items[1..][0] == items[1] && items[1..][1..] == later;
    assert Emit(items, 0) == [raw] + (load + Emit(later, k));
    PaddingIsPassedOver(exec, inside);
    EffectsOne(exec, raw, core);
    EffectsOne(exec, Half(NOP), inside);
    EffectsAppend(exec, [raw], load + Emit(later, k), core);
    EffectsAppend(exec, load, Emit(later, k), inside);
    EffectsAppend(exec, [Half(NOP)], movs, inside);
    MovPairEffects(exec, 0, v, core);
    NopsRun(exec, later, SetReg(core, 0, v));
    EmitEffects(exec, later, k, SetReg(core, 0, v));
  }

  lemma ItEffect<R>(exec: Semantics<R>, core: Core<R>)
    requires core.it == []
    ensures Effect(exec, Half(0xBF08), core) == Some(core.(it := [0]))
  {
    hide Decode;
    BlockDecodes();
  }

  lemma PaddingIsPassedOver<R>(exec: Semantics<R>, core: Core<R>)
    requires core.it == [0]
    ensures Effect(exec, Half(NOP), core) == Some(core.(it := []))
  {
    assert Decode(Half(NOP)) == Nop && Later([0]) == [];
  }

  lemma EffectsOne<R>(exec: Semantics<R>, raw: Raw, core: Core<R>)
    ensures Effects(exec, [raw], core) == Effect(exec, raw, core)
  {
    hide Effect;
    assert [raw][1..] == [];
  }

  lemma BlockIsSupported<R(!new)>(exec: Semantics<R>, items: seq<Item>, core: Core<R>)
    requires |items| == 5 && items[0] == Keep(Half(0xBF08)) && items[1].Literal? && items[1].rt == 0
    requires forall i :: 2 <= i < 5 ==> items[i] == Keep(Half(NOP))
    requires core.it == []
    ensures Supported(exec, items) && NoPcLoad(items) && Relocatable(items) && !LoadsOutsideBlocks(items, [])
  {
    hide Decode;
    BlockDecodes();
    var later := items[1..];
    assert later[0] == items[1] && later[1..] == items[2..];
    NopsRun(exec, items[2..], core);
    assert NextConditions(items[0], []) == [0] && Later([0]) == [];
    assert NextConditions(later[0], [0]) == [];
    assert Pending(later, [0]) == Pending(items[2..], []) == [];
    assert NoSpLoad(later) && !LoadsOutsideBlocks(later, [0]);
    assert Pending(items, []) == [];
    assert NoSpLoad(items);
  }

  /** A prologue that meets every other hypothesis of the exactness theorem, and whose literal load lies in
      an IT block, is not preserved where the condition fails. */
  lemma LoadInBlockIsNotPreserved<R(!new)>(exec: Semantics<R>, replacement: u32, core: Core<R>)
    requires core.it == [] && !exec.holds(0, core.rest) && core.regs[0] != BlockWord()
    ensures CanHook(BlockText(), TARGET, CODE)
    ensures
      var text := BlockText();
      var text' := Install(text, MakeHook(text, TARGET, CODE, replacement));
      var items := Items(text, TARGET, 0);
      && Supported(exec, items) && NoPcLoad(items) && Relocatable(items) && !LoadsOutsideBlocks(items, [])
      && Run(exec, text, |items|, State(TARGET, core)).Some?
      && Run(exec, text', |Body(items)| + 1, State(CODE, core)) != Run(exec, text, |items|, State(TARGET, core))
  {
    hide PutHalves, Get16, Get32, Items, Run, MakeHook, Install, Body, CanHook, Live, Shape, Supported, NoPcLoad,
         Relocatable, LoadsOutsideBlocks, BlockText, BlockWord, Effects, Emit;
    var text := BlockText();
    var items := Items(text, TARGET, 0);
    BlockIsHookable();
    BlockItems();
    BlockIsSupported(exec, items, core);
    BlockRuns(exec, core);
    BlockEmitted(exec, items, core);
    var h := MakeHook(text, TARGET, CODE, replacement);
    MakeHookShape(text, TARGET, CODE, replacement);
    InstallIsLive(text, h);
    HookTrampolineRuns(exec, text, Install(text, h), TARGET, CODE, replacement, core);
    assert SetReg(core, 0, BlockWord()).regs[0] == BlockWord();
  }

  // ----- an IT block that runs past the prologue -----

  /** Four nops and `it eq`. */
  function OpenText(): Mem {
    PutHalves(map[], TARGET, [NOP, NOP, NOP, NOP, 0xBF08])
  }

  lemma OpenFetches()
    ensures
      var text := OpenText();
      && Fetch(text, TARGET) == Fetch(text, TARGET + 2) == Half(NOP)
      && Fetch(text, TARGET + 4) == Fetch(text, TARGET + 6) == Half(NOP)
      && Fetch(text, TARGET + 8) == Half(0xBF08)
  {
    hide PutHalves, Get16;
    var text, hs := OpenText(), [NOP, NOP, NOP, NOP, 0xBF08];
    PutHalvesAt(map[], TARGET, hs);
    assert Get16(text, TARGET + 2 * 0) == hs[0] && Get16(text, TARGET + 2 * 1) == hs[1];
    assert Get16(text, TARGET + 2 * 2) == hs[2] && Get16(text, TARGET + 2 * 3) == hs[3];
    assert Get16(text, TARGET + 2 * 4) == hs[4];
  }

  lemma OpenItems()
    ensures
      var nop := Keep(Half(NOP));
      Items(OpenText(), TARGET, 0) == [nop, nop, nop, nop, Keep(Half(0xBF08))]
  {
    hide PutHalves, Get16, Get32, Fetch, Items;
    var text := OpenText();
    OpenFetches();
    BlockDecodes();
    ItemsStep(text, TARGET, 0);
    ItemsStep(text, TARGET, 2);
    ItemsStep(text, TARGET, 4);
    ItemsStep(text, TARGET, 6);
    ItemsStep(text, TARGET, 8);
    ItemsStep(text, TARGET, 10);
  }

  lemma OpenIsHookable()
    ensures CanHook(OpenText(), TARGET, CODE)
  {
    hide PutHalves, Get16, Fetch;
    OpenFetches();
    BlockDecodes();
    var text, end := OpenText(), CODE + TRAMPOLINE_SIZE;
    assert LiteralsClear(text, TARGET, 10, CODE, end);
    assert LiteralsClear(text, TARGET, 8, CODE, end);
    assert LiteralsClear(text, TARGET, 6, CODE, end);
    assert LiteralsClear(text, TARGET, 4, CODE, end);
    assert LiteralsClear(text, TARGET, 2, CODE, end);
  }

  lemma {:induction false} OpenRuns<R(!new)>(exec: Semantics<R>, items: seq<Item>, core: Core<R>)
    requires items != [] && items[|items| - 1] == Keep(Half(0xBF08)) && core.it == []
    requires forall i :: 0 <= i < |items| - 1 ==> items[i] == Keep(Half(NOP))
    ensures Supported(exec, items) && NoPcLoad(items) && NoSpLoad(items) && LoadsOutsideBlocks(items, [])
    ensures Pending(items, []) == [0] && Meaning(exec, items, core).Some?
  {
    hide Decode;
    BlockDecodes();
    if |items| == 1 {
      ItEffect(exec, core);
      assert items[1..] == [];
    } else {
      OpenRuns(exec, items[1..], core);
      NopIs(exec, core);
    }
  }

  lemma NopIs<R>(exec: Semantics<R>, core: Core<R>)
    requires core.it == []
    ensures Decode(Half(NOP)) == Nop && Effect(exec, Half(NOP), core) == Some(core)
  {
  }

  /** A prologue that ends with an IT instruction meets every hypothesis and is not preserved from any state. */
  lemma OpenBlockIsNotPreserved<R(!new)>(exec: Semantics<R>, replacement: u32, core: Core<R>)
    requires core.it == []
    ensures CanHook(OpenText(), TARGET, CODE) && SupportedPrologue(exec, OpenText(), TARGET)
    ensures
      var text := OpenText();
      var text' := Install(text, MakeHook(text, TARGET, CODE, replacement));
      var items := Items(text, TARGET, 0);
      && NoSpLoad(items) && Run(exec, text, |items|, State(TARGET, core)).Some?
      && Run(exec, text', |Body(items)| + 1, State(CODE, core)) != Run(exec, text, |items|, State(TARGET, core))
  {
    hide PutHalves, Get16, Get32, Items, Run, MakeHook, Install, Body, CanHook, Live, Shape, Meaning, Supported,
         NoPcLoad, NoSpLoad, LoadsOutsideBlocks, Pending, OpenText;
    var text := OpenText();
    var items := Items(text, TARGET, 0);
    OpenIsHookable();
    OpenItems();
    OpenRuns(exec, items, core);
    RunPrologue(exec, text, TARGET, 0, items, core);
    var h := MakeHook(text, TARGET, CODE, replacement);
    MakeHookShape(text, TARGET, CODE, replacement);
    InstallIsLive(text, h);
    TrampolineExact(exec, text, Install(text, h), TARGET, CODE, replacement, core);
  }

  /** A prologue with a literal load is not restored by `revert`. */
  lemma LiteralIsNotRestored(replacement: u32)
    ensures CanHook(LoadText(0), TARGET, CODE)
    ensures
      var text := LoadText(0);
      !SameOn(text, Reverted(text, TARGET, CODE, replacement), TARGET, TARGET + RelocatedSize(text, TARGET))
  {
    hide PutHalves, Get16, Get32, Items, CanHook, Reverted, SameOn, LoadText;
    LoadIsHookable(0);
    LoadItems(0);
    RevertExact(LoadText(0), TARGET, CODE, replacement);
  }

  /** A prologue that is restored, with a byte after it that is not. */
  lemma NextByteIsNotRestored(replacement: u32)
    ensures CanHook(NopText(), TARGET, CODE)
    ensures
      var text, size := NopText(), RelocatedSize(NopText(), TARGET);
      var text' := Reverted(text, TARGET, CODE, replacement);
      SameOn(text, text', TARGET, TARGET + size) && Get(text', TARGET + size) != Get(text, TARGET + size)
  {
    hide PutHalves, Get16, Items, CanHook, Reverted, NopText;
    var text := NopText();
    NopIsHookable();
    NopItems();
    NopFetches();
    SizeOfNops(Items(text, TARGET, 0));
    RevertExact(text, TARGET, CODE, replacement);
  }

  lemma SizeOfNops(items: seq<Item>)
    requires |items| == 5 && forall i :: 0 <= i < 5 ==> items[i] == Keep(Half(NOP))
    ensures ItemsSize(items) == 10 && AllKept(items)
  {
    NopsSize(items);
  }

  lemma NopsSize(items: seq<Item>)
    requires forall i :: 0 <= i < |items| ==> items[i] == Keep(Half(NOP))
    ensures ItemsSize(items) == 2 * |items| && AllKept(items)
  {
  }
}
