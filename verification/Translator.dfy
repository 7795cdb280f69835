/** What the interceptor's prologue translation produces, as functions of memory, and why the
    code it produces means the same as the code it replaces. */
module Translator {
  import opened Bytes
  import opened Thumb

  const NOP: u16 := 0xBF00
  /** Bytes that must be relocated before the patch can be written. */
  const PATCH_SIZE: nat := 10
  const TRAMPOLINE_SIZE: nat := 64

  /** The source's choice, made on the target before its Thumb bit is cleared. */
  function CoveredSize(target: u32): nat {
    if target % 4 != 0 then 10 else 8
  }

  /** The choice is no choice: every accepted target is odd, so ten bytes are covered whether or not the
      code itself is word-aligned. */
  lemma AlignedCaseNeverOccurs(target: u32)
    requires target % 2 == 1
    ensures CoveredSize(target) == PATCH_SIZE
  {
    if target % 4 == 0 {
      Mod2(target / 4 * 2, 0);
    }
  }

  // ----- reading the prologue -----

  /** One prologue instruction: copied as it is, or a literal load with the word it loads. */
  datatype Item = Keep(raw: Raw) | Literal(raw: Raw, rt: nat, value: u32)

  function ItemAt(text: Mem, pc: int): Item {
    var raw := Fetch(text, pc);
    match Decode(raw)
    case LdrLiteral(rt, offset) => Literal(raw, rt, Get32(text, LiteralAddress(pc, offset)))
    case _ => Keep(raw)
  }

  /** The instructions from offset `n` of the prologue up to the first boundary at or after PATCH_SIZE. */
  function Items(text: Mem, target: int, n: nat): seq<Item>
    decreases PATCH_SIZE + 4 - n
  {
    if n >= PATCH_SIZE then []
    else
      var item := ItemAt(text, target + n);
      [item] + Items(text, target, n + item.raw.Size())
  }

  function ItemsSize(items: seq<Item>): nat {
    if items == [] then 0 else items[0].raw.Size() + ItemsSize(items[1..])
  }

  /** How many bytes of the prologue are relocated. */
  function RelocatedSize(text: Mem, target: int): nat {
    ItemsSize(Items(text, target, 0))
  }

  // ----- writing the trampoline -----

  /** MOVW (T3) or MOVT (T1) of `imm` into register `rd`. */
  function MovRaw(movt: bool, rd: nat, imm: u16): (raw: Raw)
    requires rd < 16
    ensures raw.Wide?
  {
    Wide((if movt then 0xF2C0 else 0xF240) + imm / 2048 % 2 * 1024 + imm / 4096,
         imm / 256 % 8 * 4096 + rd * 256 + imm % 256)
  }

  /** Padding that brings the `k`-th halfword of an aligned buffer to a word boundary. */
  function Pad(k: nat): seq<Raw> {
    if k % 2 == 0 then [] else [Half(NOP)]
  }

  function EmitItem(item: Item, k: nat): seq<Raw> {
    match item
    case Keep(raw) => [raw]
    case Literal(_, rt, v) =>
      Pad(k) + [MovRaw(false, rt % 16, v % 0x1_0000), MovRaw(true, rt % 16, v / 0x1_0000)]
  }

  function Flatten(raws: seq<Raw>): (hs: seq<u16>)
    ensures |raws| <= |hs|
  {
    if raws == [] then [] else raws[0].Halves() + Flatten(raws[1..])
  }

  /** The instructions for `items` when `k` halfwords have been written before them. */
  function Emit(items: seq<Item>, k: nat): seq<Raw> {
    if items == [] then []
    else
      var now := EmitItem(items[0], k);
      now + Emit(items[1..], k + |Flatten(now)|)
  }

  /** `ldr.w pc, [pc]` followed by the word it loads. */
  function Jumpout(addr: u32): seq<u16> {
    [0xF8DF, 0xF000, addr % 0x1_0000, addr / 0x1_0000]
  }

  /** Everything the trampoline executes before it loads its jump address. */
  function Body(items: seq<Item>): seq<Raw> {
    var raws := Emit(items, 0);
    raws + Pad(|Flatten(raws)|)
  }

  function TrampolineCode(items: seq<Item>, jump: u32): seq<u16> {
    Flatten(Body(items)) + Jumpout(jump)
  }

  /** The patch over the target: alignment padding and a jump to the replacement. */
  function PatchCode(target: int, replacement: u32): seq<u16> {
    Flatten(if target % 4 == 0 then [] else [Half(NOP)]) + Jumpout(replacement)
  }

  // ----- structure -----

  lemma {:induction false} FlattenAppend(x: seq<Raw>, y: seq<Raw>)
    ensures Flatten(x + y) == Flatten(x) + Flatten(y)
  {
    if x == [] {
      assert x + y == y;
    } else {
      FlattenAppend(x[1..], y);
      assert (x + y)[1..] == x[1..] + y;
      ConcatAssoc(x[0].Halves(), Flatten(x[1..]), Flatten(y));
    }
  }

  lemma ImmediateFields(imm: u16)
    ensures imm == imm / 4096 * 4096 + imm / 2048 % 2 * 2048 + imm / 256 % 8 * 256 + imm % 256
  {
    assert imm / 2048 == imm / 4096 * 2 + imm / 2048 % 2;
    assert imm / 256 == imm / 2048 * 8 + imm / 256 % 8;
  }

  lemma FirstHalfword(op: int, i: int, imm4: int)
    requires op == 0xF24 || op == 0xF2C
    requires 0 <= i < 2 && 0 <= imm4 < 16
    ensures
      var h := op * 16 + i * 1024 + imm4;
      h / 16 == op + i * 64 && h % 16 == imm4 && h / 1024 % 2 == i && h / 2048 == 30
  {
  }

  lemma SecondHalfword(imm3: int, rd: int, imm8: int)
    requires 0 <= imm3 < 8 && 0 <= rd < 16 && 0 <= imm8 < 256
    ensures
      var h := imm3 * 4096 + rd * 256 + imm8;
      h < 0x8000 && h / 4096 == imm3 && h / 256 % 16 == rd && h % 256 == imm8
  {
  }

  /** Immediate materialisation, first half: the field layout round-trips for every register and immediate. */
  lemma MovRoundTrip(movt: bool, rd: nat, imm: u16)
    requires rd < 16
    ensures MovRaw(movt, rd, imm).WellFormed()
    ensures Decode(MovRaw(movt, rd, imm)) == if movt then Movt(rd, imm) else Movw(rd, imm)
  {
    var raw := MovRaw(movt, rd, imm);
    var imm4, i, imm3, imm8 := imm / 4096, imm / 2048 % 2, imm / 256 % 8, imm % 256;
    assert imm == imm4 * 4096 + i * 2048 + imm3 * 256 + imm8 by { ImmediateFields(imm); }
    FirstHalfword(if movt then 0xF2C else 0xF24, i, imm4);
    SecondHalfword(imm3, rd, imm8);
  }

  predicate ItemWellFormed(item: Item) {
    && item.raw.WellFormed()
    && match item
       case Keep(raw) => !Decode(raw).LdrLiteral?
       case Literal(_, rt, _) => rt < 16
  }

  predicate ItemsWellFormed(items: seq<Item>) {
    items == [] || (ItemWellFormed(items[0]) && ItemsWellFormed(items[1..]))
  }

  lemma ItemAtWellFormed(text: Mem, pc: int)
    ensures ItemWellFormed(ItemAt(text, pc))
  {
  }

  /** The items cover the prologue from offset `n` and stop at the first boundary past PATCH_SIZE. */
  predicate Covers(items: seq<Item>, n: nat) {
    if items == [] then n >= PATCH_SIZE else n < PATCH_SIZE && Covers(items[1..], n + items[0].raw.Size())
  }

  lemma {:induction false} ItemsCover(text: Mem, target: int, n: nat)
    ensures Covers(Items(text, target, n), n)
    ensures ItemsWellFormed(Items(text, target, n))
    decreases PATCH_SIZE + 4 - n
  {
    hide ItemAt, ItemWellFormed, Items;
    ItemsStep(text, target, n);
    if n < PATCH_SIZE {
      var item := ItemAt(text, target + n);
      ItemAtWellFormed(text, target + n);
      ItemsCover(text, target, n + item.raw.Size());
    }
  }

  lemma {:induction false} CoveredItems(items: seq<Item>, n: nat)
    requires n % 2 == 0 && n <= PATCH_SIZE && Covers(items, n)
    ensures n + ItemsSize(items) in {PATCH_SIZE, PATCH_SIZE + 2}
  {
    if items != [] {
      var n' := n + items[0].raw.Size();
      if n' <= PATCH_SIZE {
        CoveredItems(items[1..], n');
      } else {
        assert items[1..] == [];
      }
    }
  }

  function RoundUpWord(k: nat): nat {
    k + k % 2
  }

  lemma EmitStep(items: seq<Item>, k: nat)
    requires items != []
    ensures
      var k' := k + |Flatten(EmitItem(items[0], k))|;
      && k + |Flatten(Emit(items, k))| == k' + |Flatten(Emit(items[1..], k'))|
      && RoundUpWord(k') <= RoundUpWord(k) + 4
      && (items[0].raw.Size() == 2 || items[0].raw.Size() == 4)
  {
    hide MovRaw, Decode;
    var now := EmitItem(items[0], k);
    FlattenAppend(now, Emit(items[1..], k + |Flatten(now)|));
    EmitItemLength(items[0], k);
  }

  /** What has been written, rounded up to a word, grows by at most four bytes per prologue byte;
      `h` counts the prologue in halfwords. */
  lemma {:induction false} EmitBound(items: seq<Item>, h: nat, k: nat)
    requires Covers(items, 2 * h)
    ensures RoundUpWord(k + |Flatten(Emit(items, k))|)
         <= RoundUpWord(k) + 4 * (if 2 * h < PATCH_SIZE then PATCH_SIZE / 2 - h else 0)
  {
    hide EmitItem;
    if items != [] {
      var h' := h + |items[0].raw.Halves()|;
      var k' := k + |Flatten(EmitItem(items[0], k))|;
      assert Covers(items[1..], 2 * h');
      EmitBound(items[1..], h', k');
      EmitStep(items, k);
    }
  }

  lemma EmitItemLength(item: Item, k: nat)
    ensures |Flatten(EmitItem(item, k))| == if item.Keep? then |item.raw.Halves()| else k % 2 + 4
  {
    hide MovRaw, Decode;
    if item.Literal? {
      FlattenAppend(Pad(k), EmitItem(item, k)[|Pad(k)|..]);
      assert EmitItem(item, k) == Pad(k) + EmitItem(item, k)[|Pad(k)|..];
      var movs := EmitItem(item, k)[|Pad(k)|..];
      assert movs[1..] == [movs[1]] && movs[1..][1..] == [];
    }
  }

  lemma FlattenPad(k: nat)
    ensures |Flatten(Pad(k))| == k % 2
  {
  }

  /** Translation bounds: 10 or 12 bytes are relocated, the trampoline takes at most 48 of its 64
      bytes and ends its body on a word boundary, and the patch fits in the relocated bytes. */
  lemma TranslationBounds(text: Mem, target: int, jump: u32, replacement: u32)
    requires target % 2 == 0
    ensures
      var items := Items(text, target, 0);
      && RelocatedSize(text, target) in {10, 12}
      && 2 * |TrampolineCode(items, jump)| <= 48
      && |Flatten(Body(items))| % 2 == 0
      && 2 * |PatchCode(target, replacement)| == (if target % 4 == 0 then 8 else 10)
      && 2 * |PatchCode(target, replacement)| <= RelocatedSize(text, target)
  {
    hide Items, Emit, Covers, ItemsSize;
    var items := Items(text, target, 0);
    var raws := Emit(items, 0);
    ItemsCover(text, target, 0);
    CoveredItems(items, 0);
    EmitBound(items, 0, 0);
    FlattenAppend(raws, Pad(|Flatten(raws)|));
    FlattenPad(|Flatten(raws)|);
  }

  // ----- meaning -----

  /** Fall-through instructions whose effect does not depend on where they lie, and that leave literal
      loads and the jump at the end as they are. */
  ghost predicate Straight<R(!new)>(exec: Semantics<R>, raw: Raw) {
    match Decode(raw)
    case LdrLiteral(_, _) => false
    case SetEnd(big) => !big
    case Other(_) =>
      forall p, q, c :: exec.act(raw, p, c).Next? && exec.act(raw, p, c) == exec.act(raw, q, c)
    case _ => true
  }

  /** What an instruction makes of the conditions on those after it. */
  function Conditions(raw: Raw, it: seq<nat>): seq<nat> {
    if it == [] && Decode(raw).IfThen? then Decode(raw).conditions else Later(it)
  }

  function NextConditions(item: Item, it: seq<nat>): seq<nat> {
    match item
    case Keep(raw) => Conditions(raw, it)
    case Literal(_, _, _) => Later(it)
  }

  /** From where the conditions `it` are pending, no literal load lies in an IT block: in the trampoline it is
      more than one instruction. */
  predicate LoadsOutsideBlocks(items: seq<Item>, it: seq<nat>) {
    items == [] || ((items[0].Literal? ==> it == []) && LoadsOutsideBlocks(items[1..], NextConditions(items[0], it)))
  }

  /** The conditions pending after the prologue. */
  function Pending(items: seq<Item>, it: seq<nat>): seq<nat> {
    if items == [] then it else Pending(items[1..], NextConditions(items[0], it))
  }

  function Effect<R>(exec: Semantics<R>, raw: Raw, core: Core<R>): Option<Core<R>> {
    match Execute(exec, map[], raw, State(0, core))
    case None => None
    case Some(st) => Some(st.core)
  }

  function Effects<R>(exec: Semantics<R>, raws: seq<Raw>, core: Core<R>): Option<Core<R>> {
    if raws == [] then Some(core)
    else
      match Effect(exec, raws[0], core)
      case None => None
      case Some(core') => Effects(exec, raws[1..], core')
  }

  /** No literal load writes pc. */
  predicate NoPcLoad(items: seq<Item>) {
    items == [] || ((items[0].Literal? ==> items[0].rt < 15) && NoPcLoad(items[1..]))
  }

  /** No literal load writes sp. */
  predicate NoSpLoad(items: seq<Item>) {
    items == [] || ((items[0].Literal? ==> items[0].rt != 13) && NoSpLoad(items[1..]))
  }

  function ItemEffect<R>(exec: Semantics<R>, item: Item, core: Core<R>): Option<Core<R>>
    requires item.Literal? ==> item.rt < 15
  {
    match item
    case Keep(raw) => Effect(exec, raw, core)
    case Literal(_, rt, v) => Some(SetReg(core, rt, v))
  }

  /** The meaning of the prologue as a list: copied instructions act, literal loads set their register. */
  function Meaning<R>(exec: Semantics<R>, items: seq<Item>, core: Core<R>): Option<Core<R>>
    requires NoPcLoad(items)
  {
    if items == [] then Some(core)
    else
      match ItemEffect(exec, items[0], core)
      case None => None
      case Some(core') => Meaning(exec, items[1..], core')
  }

  /** A prologue the translator supports, leaving aside IT blocks and which registers its literal loads
      write: no PC-relative or branching instruction apart from literal loads. */
  ghost predicate Supported<R(!new)>(exec: Semantics<R>, items: seq<Item>) {
    items == [] || ((items[0].Keep? ==> Straight(exec, items[0].raw)) && Supported(exec, items[1..]))
  }

  lemma FetchAt(text: Mem, pc: int, raw: Raw)
    requires raw.WellFormed()
    requires HalvesAt(text, pc, raw.Halves())
    ensures Fetch(text, pc) == raw
  {
    assert Get16(text, pc + 2 * 0) == raw.Halves()[0];
    if raw.Wide? {
      assert Get16(text, pc + 2 * 1) == raw.Halves()[1];
    }
  }

  ghost predicate StraightCode<R(!new)>(exec: Semantics<R>, raws: seq<Raw>) {
    raws == [] || (raws[0].WellFormed() && Straight(exec, raws[0]) && StraightCode(exec, raws[1..]))
  }

  lemma {:induction false} StraightAppend<R(!new)>(exec: Semantics<R>, x: seq<Raw>, y: seq<Raw>)
    requires StraightCode(exec, x) && StraightCode(exec, y)
    ensures StraightCode(exec, x + y)
  {
    if x == [] {
      assert x + y == y;
    } else {
      StraightAppend(exec, x[1..], y);
      assert (x + y)[1..] == x[1..] + y;
    }
  }

  /** The state reached at `pc` with the given registers, unless execution got stuck before. */
  function At<R>(pc: int, core: Option<Core<R>>): Option<State<R>> {
    match core
    case None => None
    case Some(c) => Some(State(pc, c))
  }

  lemma StepStraight<R(!new)>(exec: Semantics<R>, text: Mem, pc: int, raw: Raw, core: Core<R>)
    requires Fetch(text, pc) == raw && Straight(exec, raw)
    ensures Step(exec, text, State(pc, core)) == At(pc + raw.Size(), Effect(exec, raw, core))
  {
    hide Is32Bit, Decode;
  }

  lemma EffectConditions<R>(exec: Semantics<R>, raw: Raw, core: Core<R>)
    ensures match Effect(exec, raw, core)
            case None => true
            case Some(core') => core'.it == Conditions(raw, core.it)
  {
    hide Decode, Get32;
  }

  /** Running straight-line code from memory is folding its effects. */
  lemma {:induction false} RunRaws<R(!new)>(exec: Semantics<R>, text: Mem, pc: int, raws: seq<Raw>, core: Core<R>)
    requires StraightCode(exec, raws)
    requires HalvesAt(text, pc, Flatten(raws))
    ensures Run(exec, text, |raws|, State(pc, core)) == At(pc + 2 * |Flatten(raws)|, Effects(exec, raws, core))
    decreases raws
  {
    hide Fetch, Step, Straight, Effect, HalvesAt;
    if raws != [] {
      var raw := raws[0];
      assert Flatten(raws) == raw.Halves() + Flatten(raws[1..]);
      HalvesAtSplit(text, pc, raw.Halves(), Flatten(raws[1..]));
      FetchAt(text, pc, raw);
      StepStraight(exec, text, pc, raw, core);
      var core' := Effect(exec, raw, core);
      if core'.Some? {
        RunRaws(exec, text, pc + raw.Size(), raws[1..], core'.value);
      }
    }
  }

  lemma StepItem<R(!new)>(exec: Semantics<R>, text: Mem, pc: int, core: Core<R>)
    requires var item := ItemAt(text, pc);
             if item.Keep? then Straight(exec, item.raw) else item.rt < 15 && core.it == []
    ensures
      var item := ItemAt(text, pc);
      Step(exec, text, State(pc, core)) == At(pc + item.raw.Size(), ItemEffect(exec, item, core))
  {
    hide Is32Bit;
  }

  lemma ItemsStep(text: Mem, target: int, n: nat)
    ensures
      var items := Items(text, target, n);
      if n >= PATCH_SIZE then items == []
      else
        && items != []
        && items[0] == ItemAt(text, target + n)
        && items[1..] == Items(text, target, n + items[0].raw.Size())
  {
  }

  lemma ItemConditions<R>(exec: Semantics<R>, item: Item, core: Core<R>)
    requires item.Literal? ==> item.rt < 15 && core.it == []
    ensures match ItemEffect(exec, item, core)
            case None => true
            case Some(core') => core'.it == NextConditions(item, core.it)
  {
    hide Effect, Conditions;
    if item.Keep? {
      EffectConditions(exec, item.raw, core);
    }
  }

  /** Running the original prologue is its meaning. */
  lemma {:induction false} RunPrologue<R(!new)>(exec: Semantics<R>, text: Mem, target: int, n: nat,
                                               items: seq<Item>, core: Core<R>)
    requires items == Items(text, target, n)
    requires NoPcLoad(items) && Supported(exec, items) && LoadsOutsideBlocks(items, core.it)
    ensures Run(exec, text, |items|, State(target + n, core)) ==
            At(target + n + ItemsSize(items), Meaning(exec, items, core))
    decreases items
  {
    hide Items, ItemAt, Step, Straight, ItemEffect;
    ItemsStep(text, target, n);
    if n < PATCH_SIZE {
      ItemConditions(exec, items[0], core);
      StepItem(exec, text, target + n, core);
      var core' := ItemEffect(exec, items[0], core);
      if core'.Some? {
        RunPrologue(exec, text, target, n + items[0].raw.Size(), items[1..], core'.value);
      }
    }
  }

  lemma {:induction false} EffectsAppend<R>(exec: Semantics<R>, x: seq<Raw>, y: seq<Raw>, core: Core<R>)
    ensures Effects(exec, x + y, core) ==
            match Effects(exec, x, core)
            case None => None
            case Some(core') => Effects(exec, y, core')
  {
    if x == [] {
      assert x + y == y;
    } else {
      assert (x + y)[1..] == x[1..] + y;
      match Effect(exec, x[0], core)
      case None =>
      case Some(core') => EffectsAppend(exec, x[1..], y, core');
    }
  }

  lemma PadEffects<R>(exec: Semantics<R>, k: nat, core: Core<R>)
    requires core.it == []
    ensures Effects(exec, Pad(k), core) == Some(core)
  {
  }

  /** Immediate materialisation, second half: MOVW of the low half and MOVT of the high half
      leave exactly the word, in every register MOVW may write. */
  lemma MovPairEffects<R>(exec: Semantics<R>, rd: nat, v: u32, core: Core<R>)
    requires rd < 16 && core.it == []
    ensures Effects(exec, [MovRaw(false, rd, v % 0x1_0000), MovRaw(true, rd, v / 0x1_0000)], core) ==
            if rd == 13 || rd == 15 then None else Some(SetReg(core, rd, v))
  {
    hide MovRaw, Decode, Is32Bit;
    var lo, hi := MovRaw(false, rd, v % 0x1_0000), MovRaw(true, rd, v / 0x1_0000);
    MovRoundTrip(false, rd, v % 0x1_0000);
    MovRoundTrip(true, rd, v / 0x1_0000);
    assert [lo, hi][1..] == [hi] && [hi][1..] == [];
    if rd != 13 && rd != 15 {
      var core' := SetReg(core, rd, v % 0x1_0000);
      assert Effect(exec, lo, core) == Some(core');
      assert v / 0x1_0000 * 0x1_0000 + core'.regs[rd] % 0x1_0000 == v;
      assert Effect(exec, hi, core') == Some(SetReg(core', rd, v));
      assert core'.regs[rd := v] == core.regs[rd := v];
      assert Effects(exec, [hi], core') == Some(SetReg(core', rd, v));
    }
  }

  lemma EmitItemEffects<R>(exec: Semantics<R>, item: Item, k: nat, core: Core<R>)
    requires item.Literal? ==> item.rt < 16 && core.it == []
    ensures Effects(exec, EmitItem(item, k), core) ==
            if item.Literal? && (item.rt == 13 || item.rt == 15) then None else ItemEffect(exec, item, core)
  {
    hide MovRaw, Decode, Effect;
    match item
    case Keep(raw) =>
      assert [raw][1..] == [];
    case Literal(_, rt, v) =>
      var movs := [MovRaw(false, rt, v % 0x1_0000), MovRaw(true, rt, v / 0x1_0000)];
      EffectsAppend(exec, Pad(k), movs, core);
      PadEffects(exec, k, core);
      MovPairEffects(exec, rt, v, core);
  }

  /** The emitted code has the meaning of the prologue as long as no literal load writes sp or pc or lies in an
      IT block. */
  lemma {:induction false} EmitEffects<R>(exec: Semantics<R>, items: seq<Item>, k: nat, core: Core<R>)
    requires NoPcLoad(items) && NoSpLoad(items) && LoadsOutsideBlocks(items, core.it)
    ensures Effects(exec, Emit(items, k), core) == Meaning(exec, items, core)
  {
    hide EmitItem, Effect, Flatten, ItemEffect, Conditions;
    if items != [] {
      ItemConditions(exec, items[0], core);
      var now := EmitItem(items[0], k);
      var rest := Emit(items[1..], k + |Flatten(now)|);
      EmitItemEffects(exec, items[0], k, core);
      EffectsAppend(exec, now, rest, core);
      var core' := ItemEffect(exec, items[0], core);
      if core'.Some? {
        EmitEffects(exec, items[1..], k + |Flatten(now)|, core'.value);
      }
    }
  }

  /** A literal load into sp or pc makes the emitted code unpredictable. */
  lemma {:induction false} EmitStuck<R>(exec: Semantics<R>, items: seq<Item>, k: nat, core: Core<R>)
    requires ItemsWellFormed(items) && LoadsOutsideBlocks(items, core.it)
    requires !NoPcLoad(items) || !NoSpLoad(items)
    ensures Effects(exec, Emit(items, k), core) == None
  {
    hide EmitItem, Effect, Flatten, Decode, Is32Bit, Conditions, ItemEffect;
    var now := EmitItem(items[0], k);
    var rest := Emit(items[1..], k + |Flatten(now)|);
    EmitItemEffects(exec, items[0], k, core);
    EffectsAppend(exec, now, rest, core);
    var core' := Effects(exec, now, core);
    if core'.Some? {
      ItemConditions(exec, items[0], core);
      EmitStuck(exec, items[1..], k + |Flatten(now)|, core'.value);
    }
  }

  /** Where the emitted code gets to its end, the conditions pending are those the prologue leaves. */
  lemma {:induction false} EmitPending<R>(exec: Semantics<R>, items: seq<Item>, k: nat, core: Core<R>)
    requires ItemsWellFormed(items) && LoadsOutsideBlocks(items, core.it)
    ensures match Effects(exec, Emit(items, k), core)
            case None => true
            case Some(core') => core'.it == Pending(items, core.it)
  {
    hide EmitItem, Effect, Flatten, Decode, Is32Bit, Conditions, ItemEffect;
    if items != [] {
      var now := EmitItem(items[0], k);
      var rest := Emit(items[1..], k + |Flatten(now)|);
      EmitItemEffects(exec, items[0], k, core);
      EffectsAppend(exec, now, rest, core);
      var core' := Effects(exec, now, core);
      if core'.Some? {
        ItemConditions(exec, items[0], core);
        EmitPending(exec, items[1..], k + |Flatten(now)|, core'.value);
      }
    }
  }

  lemma PadStraight<R(!new)>(exec: Semantics<R>, k: nat)
    ensures StraightCode(exec, Pad(k))
  {
  }

  lemma MovStraight<R(!new)>(exec: Semantics<R>, movt: bool, rd: nat, imm: u16)
    requires rd < 16
    ensures MovRaw(movt, rd, imm).WellFormed() && Straight(exec, MovRaw(movt, rd, imm))
  {
    MovRoundTrip(movt, rd, imm);
  }

  lemma EmitItemStraight<R(!new)>(exec: Semantics<R>, item: Item, k: nat)
    requires ItemWellFormed(item)
    requires item.Keep? ==> Straight(exec, item.raw)
    ensures StraightCode(exec, EmitItem(item, k))
  {
    hide MovRaw, Straight, Decode, Is32Bit;
    match item
    case Keep(raw) =>
      assert [raw][1..] == [];
    case Literal(_, rt, v) =>
      var lo, hi := MovRaw(false, rt, v % 0x1_0000), MovRaw(true, rt, v / 0x1_0000);
      MovStraight(exec, false, rt, v % 0x1_0000);
      MovStraight(exec, true, rt, v / 0x1_0000);
      assert [lo, hi][1..] == [hi] && [hi][1..] == [];
      assert StraightCode(exec, [hi]);
      PadStraight(exec, k);
      StraightAppend(exec, Pad(k), [lo, hi]);
  }

  lemma {:induction false} EmitStraight<R(!new)>(exec: Semantics<R>, items: seq<Item>, k: nat)
    requires Supported(exec, items) && ItemsWellFormed(items)
    ensures StraightCode(exec, Emit(items, k))
  {
    hide EmitItem, Straight, Flatten, ItemWellFormed;
    if items != [] {
      var now := EmitItem(items[0], k);
      EmitItemStraight(exec, items[0], k);
      EmitStraight(exec, items[1..], k + |Flatten(now)|);
      StraightAppend(exec, now, Emit(items[1..], k + |Flatten(now)|));
    }
  }
}
