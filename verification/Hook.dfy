/** What installing and removing a hook does to memory, and what running the result means. */
module Hook {
  import Bits
  import opened Bytes
  import opened Thumb
  import opened Translator

  /** Every literal the prologue loads lies in the address space and outside [lo, hi). */
  predicate LiteralsClear(text: Mem, target: int, n: nat, lo: int, hi: int)
    decreases PATCH_SIZE + 4 - n
  {
    n < PATCH_SIZE ==>
      var raw := Fetch(text, target + n);
      LiteralClear(raw, target + n, lo, hi) && LiteralsClear(text, target, n + raw.Size(), lo, hi)
  }

  predicate LiteralClear(raw: Raw, pc: int, lo: int, hi: int) {
    match Decode(raw)
    case LdrLiteral(_, offset) =>
      var a := LiteralAddress(pc, offset);
      0 <= a <= 0x1_0000_0000 - 4 && Disjoint(a, a + 4, lo, hi)
    case _ => true
  }

  /** The target is an even address, the trampoline a word-aligned buffer elsewhere in memory. */
  predicate CanHook(text: Mem, target: int, code: int) {
    && target % 2 == 0 && 0 <= target <= 0x1_0000_0000 - 16
    && code % 4 == 0 && 0 <= code <= 0x1_0000_0000 - TRAMPOLINE_SIZE
    && Disjoint(target, target + PATCH_SIZE + 2, code, code + TRAMPOLINE_SIZE)
    && LiteralsClear(text, target, 0, code, code + TRAMPOLINE_SIZE)
  }

  lemma HookFits(text: Mem, target: int, code: int)
    requires CanHook(text, target, code)
    ensures target % 2 == 0 && 0 <= target <= 0x1_0000_0000 - 16
    ensures code % 4 == 0 && 0 <= code <= 0x1_0000_0000 - TRAMPOLINE_SIZE
  {
  }

  /** Sets the Thumb bit (`| 1`). */
  function ThumbAddress(a: u32): (r: u32)
    ensures r % 2 == 1 && (r == a || r == a + 1)
  {
    Bits.SetLow(a);
    Mod2(a / 2, 1);
    Bits.Or(a, 1)
  }

  lemma RelocatedSizeBound(text: Mem, target: int)
    requires target % 2 == 0
    ensures RelocatedSize(text, target) == 10 || RelocatedSize(text, target) == 12
  {
    TranslationBounds(text, target, 0, 0);
  }

  /** The first address after the relocated bytes, with the Thumb bit set. */
  function JumpAddress(text: Mem, target: int): u32
    requires target % 2 == 0 && 0 <= target <= 0x1_0000_0000 - 16
  {
    RelocatedSizeBound(text, target);
    target + RelocatedSize(text, target) + 1
  }

  /** A hook: where it is, how many bytes it relocated, and the two pieces of code it needs in memory. */
  datatype HookInfo = HookInfo(target: int, code: int, size: nat, trampoline: seq<u16>, patch: seq<u16>)

  /** The hook that `replace` puts over `target`, from the memory it finds. */
  function MakeHook(text: Mem, target: int, code: int, replacement: u32): HookInfo
    requires target % 2 == 0 && 0 <= target <= 0x1_0000_0000 - 16
  {
    HookInfo(target, code, RelocatedSize(text, target),
             TrampolineCode(Items(text, target, 0), JumpAddress(text, target)),
             PatchCode(target, ThumbAddress(replacement)))
  }

  /** Memory after `replace`: the trampoline, then the patch. */
  function Install(text: Mem, h: HookInfo): Mem {
    PutHalves(PutHalves(text, h.code, h.trampoline), h.target, h.patch)
  }

  /** Memory after `revert`: the trampoline's bytes up to the odd jump address go back over the target. */
  function Remove(text: Mem, h: HookInfo): Mem {
    Overlay(text, h.target, Slice(text, h.code, h.size + 1))
  }

  predicate Shape(h: HookInfo) {
    && 10 <= h.size <= 12
    && 2 * |h.trampoline| <= 48
    && 2 * |h.patch| <= h.size
    && Disjoint(h.target, h.target + PATCH_SIZE + 2, h.code, h.code + TRAMPOLINE_SIZE)
  }

  /** A hook in force: its trampoline and its patch are in memory. */
  predicate Live(text: Mem, h: HookInfo) {
    Shape(h) && HalvesAt(text, h.code, h.trampoline) && HalvesAt(text, h.target, h.patch)
  }

  lemma MakeHookShape(text: Mem, target: int, code: int, replacement: u32)
    requires CanHook(text, target, code)
    ensures Shape(MakeHook(text, target, code, replacement))
  {
    hide Items, TrampolineCode, PatchCode, Body, LiteralsClear;
    TranslationBounds(text, target, JumpAddress(text, target), ThumbAddress(replacement));
  }

  /** Code outside the trampoline reads the same while the trampoline is being written. */
  lemma FetchOutside(text: Mem, m: Mem, pc: int, lo: int, hi: int)
    requires SameOutside(text, m, lo, hi) && Disjoint(pc, pc + 4, lo, hi)
    ensures Get16(m, pc) == Get16(text, pc) && Get16(m, pc + 2) == Get16(text, pc + 2)
    ensures Fetch(m, pc) == Fetch(text, pc)
  {
  }

  lemma LiteralOutside(text: Mem, m: Mem, target: int, n: nat, lo: int, hi: int)
    requires SameOutside(text, m, lo, hi) && n < PATCH_SIZE
    requires LiteralsClear(text, target, n, lo, hi)
    ensures
      match Decode(Fetch(text, target + n))
      case LdrLiteral(_, offset) =>
        var a := LiteralAddress(target + n, offset);
        0 <= a <= 0x1_0000_0000 - 4 && Get32(m, a) == Get32(text, a)
      case _ => true
  {
    hide Decode, Is32Bit;
  }

  /** What `replace` reads lies outside the trampoline's buffer. */
  lemma {:induction false} ItemsOutside(text: Mem, m: Mem, target: int, n: nat, lo: int, hi: int)
    requires SameOutside(text, m, lo, hi) && LiteralsClear(text, target, n, lo, hi)
    requires Disjoint(target, target + PATCH_SIZE + 2, lo, hi) && n % 2 == 0
    ensures LiteralsClear(m, target, n, lo, hi) && Items(m, target, n) == Items(text, target, n)
    decreases PATCH_SIZE + 4 - n
  {
    hide SameOutside, Fetch, ItemAt, LiteralClear, LiteralsClear, Items;
    LiteralsClearIs(text, target, n, lo, hi);
    LiteralsClearIs(m, target, n, lo, hi);
    ItemsStep(text, target, n);
    ItemsStep(m, target, n);
    if n < PATCH_SIZE {
      FetchOutside(text, m, target + n, lo, hi);
      ItemOutside(text, m, target, n, lo, hi);
      ItemRaw(text, target + n);
      ItemsOutside(text, m, target, n + Fetch(text, target + n).Size(), lo, hi);
    }
  }

  lemma LiteralsClearIs(text: Mem, target: int, n: nat, lo: int, hi: int)
    ensures LiteralsClear(text, target, n, lo, hi) <==>
              (n < PATCH_SIZE ==>
                 var raw := Fetch(text, target + n);
                 LiteralClear(raw, target + n, lo, hi) && LiteralsClear(text, target, n + raw.Size(), lo, hi))
  {
    hide Fetch, LiteralClear;
  }

  lemma ItemRaw(text: Mem, pc: int)
    ensures ItemAt(text, pc).raw == Fetch(text, pc)
  {
    hide Fetch, Decode;
  }

  lemma ItemOutside(text: Mem, m: Mem, target: int, n: nat, lo: int, hi: int)
    requires SameOutside(text, m, lo, hi) && LiteralsClear(text, target, n, lo, hi) && n < PATCH_SIZE
    requires Fetch(m, target + n) == Fetch(text, target + n)
    ensures ItemAt(m, target + n) == ItemAt(text, target + n)
  {
    hide SameOutside, Decode, Is32Bit, Get16, Get32, Fetch;
    LiteralOutside(text, m, target, n, lo, hi);
  }

  /** So the hook it makes does not depend on what that buffer held. */
  lemma MakeHookOutside(text: Mem, m: Mem, target: int, code: int, replacement: u32)
    requires CanHook(text, target, code) && SameOutside(text, m, code, code + TRAMPOLINE_SIZE)
    ensures CanHook(m, target, code)
    ensures MakeHook(m, target, code, replacement) == MakeHook(text, target, code, replacement)
  {
    hide SameOutside, Items, LiteralsClear, TrampolineCode, PatchCode, ItemsSize;
    ItemsOutside(text, m, target, 0, code, code + TRAMPOLINE_SIZE);
  }

  lemma HalvesAtFrame(m: Mem, m': Mem, a: int, hs: seq<u16>)
    requires HalvesAt(m, a, hs)
    requires SameOn(m, m', a, a + 2 * |hs|)
    ensures HalvesAt(m', a, hs)
  {
    forall i | 0 <= i < |hs|
      ensures Get16(m', a + 2 * i) == hs[i]
    {
      assert Get16(m, a + 2 * i) == hs[i];
    }
  }

  /** `replace` puts a live hook in memory and writes nothing outside 48 bytes of the trampoline
      and the relocated bytes of the target. */
  lemma InstallIsLive(text: Mem, h: HookInfo)
    requires Shape(h)
    ensures Live(Install(text, h), h)
    ensures forall x {:trigger Get(Install(text, h), x)} ::
              !(h.code <= x < h.code + 48) && !(h.target <= x < h.target + h.size)
              ==> Get(Install(text, h), x) == Get(text, x)
  {
    hide Get16;
    var mid := PutHalves(text, h.code, h.trampoline);
    PutHalvesAt(text, h.code, h.trampoline);
    PutHalvesAt(mid, h.target, h.patch);
    HalvesAtFrame(mid, Install(text, h), h.code, h.trampoline);
  }

  /** The bytes a hook occupies, and the one byte past them that `revert` writes, do not meet [lo, hi). */
  predicate HookClear(h: HookInfo, lo: int, hi: int) {
    Disjoint(h.target, h.target + PATCH_SIZE + 3, lo, hi) && Disjoint(h.code, h.code + TRAMPOLINE_SIZE, lo, hi)
  }

  predicate HooksApart(h: HookInfo, g: HookInfo) {
    HookClear(h, g.target, g.target + PATCH_SIZE + 3) && HookClear(h, g.code, g.code + TRAMPOLINE_SIZE)
  }

  /** A place for a new hook that no hook in `hooks` uses. */
  predicate FreePlace(hooks: seq<HookInfo>, h: HookInfo) {
    forall i :: 0 <= i < |hooks| ==> HooksApart(h, hooks[i]) && HooksApart(hooks[i], h)
  }

  lemma LiveFrame(m: Mem, m': Mem, h: HookInfo)
    requires Live(m, h)
    requires SameOn(m, m', h.code, h.code + TRAMPOLINE_SIZE)
    requires SameOn(m, m', h.target, h.target + PATCH_SIZE + 2)
    ensures Live(m', h)
  {
    hide Get16, HalvesAt;
    HalvesAtFrame(m, m', h.code, h.trampoline);
    HalvesAtFrame(m, m', h.target, h.patch);
  }

  /** Installing or removing one hook leaves every other hook in force. */
  lemma OtherHooksStayLive(text: Mem, h: HookInfo, g: HookInfo)
    requires Live(text, g) && Shape(h) && HooksApart(h, g)
    ensures Live(Install(text, h), g)
    ensures Live(Remove(text, h), g)
  {
    hide Get16, HalvesAt;
    InstallIsLive(text, h);
    LiveFrame(text, Install(text, h), g);
    LiveFrame(text, Remove(text, h), g);
  }
}
