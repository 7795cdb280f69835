/** What `revert` undoes. It copies the trampoline's first bytes back over the target, up to the jump
    address, whose Thumb bit makes the copy one byte longer than the relocated code. */
module Revert {
  import opened Bytes
  import opened Thumb
  import opened Translator
  import opened Hook

  /** No prologue instruction was rewritten. */
  predicate AllKept(items: seq<Item>) {
    items == [] || (items[0].Keep? && AllKept(items[1..]))
  }

  lemma ItemAtRaw(text: Mem, pc: int)
    ensures ItemAt(text, pc).raw == Fetch(text, pc)
    ensures HalvesAt(text, pc, ItemAt(text, pc).raw.Halves())
  {
    hide Decode, Is32Bit, Get16;
  }

  /** A prologue without literal loads is copied halfword for halfword. */
  lemma {:induction false} KeptIsCopied(text: Mem, target: int, n: nat, items: seq<Item>, k: nat)
    requires items == Items(text, target, n) && AllKept(items)
    ensures HalvesAt(text, target + n, Flatten(Emit(items, k)))
    ensures 2 * |Flatten(Emit(items, k))| == ItemsSize(items)
    decreases items
  {
    hide Items, ItemAt, HalvesAt;
    ItemsStep(text, target, n);
    if n < PATCH_SIZE {
      var raw := items[0].raw;
      ItemAtRaw(text, target + n);
      var k' := k + |raw.Halves()|;
      FlattenRaw(raw);
      assert EmitItem(items[0], k) == [raw];
      KeptIsCopied(text, target, n + raw.Size(), items[1..], k');
      FlattenAppend([raw], Emit(items[1..], k'));
      HalvesAtJoin(text, target + n, raw.Halves(), Flatten(Emit(items[1..], k')));
    } else {
      assert HalvesAt(text, target + n, []) by { HalvesAtEmpty(text, target + n); }
    }
  }

  lemma HalvesAtEmpty(m: Mem, a: int)
    ensures HalvesAt(m, a, [])
  {
  }

  lemma FlattenRaw(raw: Raw)
    ensures Flatten([raw]) == raw.Halves()
  {
    assert [raw][1..] == [];
  }

  lemma HalvesAtJoin(m: Mem, a: int, x: seq<u16>, y: seq<u16>)
    requires HalvesAt(m, a, x) && HalvesAt(m, a + 2 * |x|, y)
    ensures HalvesAt(m, a, x + y)
  {
    hide Get16;
    forall i | 0 <= i < |x + y|
      ensures Get16(m, a + 2 * i) == (x + y)[i]
    {
      if i < |x| {
        assert Get16(m, a + 2 * i) == x[i];
      } else {
        assert Get16(m, a + 2 * |x| + 2 * (i - |x|)) == y[i - |x|];
      }
    }
  }

  lemma LiteralEncoding(raw: Raw)
    requires Decode(raw).LdrLiteral?
    ensures match raw
            case Half(h) => h / 2048 == 9
            case Wide(h1, _) => h1 == 0xF8DF || h1 == 0xF85F
  {
    hide MovImmediate;
  }

  lemma MovwEncoding(raw: Raw)
    requires raw.Wide? && Decode(raw).Movw?
    ensures raw.h1 / 16 == 0xF24 || raw.h1 / 16 == 0xF64
  {
    hide MovImmediate;
  }

  /** The first halfword emitted for a literal load, whether padding or MOVW, is not the load's own. */
  lemma LiteralIsRewritten(item: Item, k: nat)
    requires ItemWellFormed(item) && item.Literal? && Decode(item.raw).LdrLiteral?
    ensures Flatten(EmitItem(item, k)) != []
    ensures Flatten(EmitItem(item, k))[0] != item.raw.Halves()[0]
  {
    hide MovRaw, Decode;
    var lo: u16 := item.value % 0x1_0000;
    var movw := MovRaw(false, item.rt, lo);
    LiteralEncoding(item.raw);
    MovRoundTrip(false, item.rt, lo);
    MovwEncoding(movw);
    assert EmitItem(item, k)[0] == (if k % 2 == 0 then movw else Half(NOP));
  }

  lemma ItemAtLiteral(text: Mem, pc: int)
    ensures ItemAt(text, pc).Literal? ==> Decode(ItemAt(text, pc).raw).LdrLiteral?
  {
    hide Is32Bit;
  }

  /** If some instruction was rewritten, the emitted code and the prologue differ within the first ten bytes. */
  lemma {:induction false} RewrittenDiffers(text: Mem, target: int, n: nat, items: seq<Item>, k: nat) returns (d: nat)
    requires items == Items(text, target, n) && !AllKept(items)
    ensures n + 2 * d < PATCH_SIZE && d < |Flatten(Emit(items, k))|
    ensures Flatten(Emit(items, k))[d] != Get16(text, target + n + 2 * d)
    decreases items
  {
    hide Items, ItemAt, Get16, Decode, HalvesAt, EmitItem, Is32Bit, ItemWellFormed, Flatten, Emit;
    ItemsStep(text, target, n);
    var item := items[0];
    var first := Flatten(EmitItem(item, k));
    var rest := Flatten(Emit(items[1..], k + |first|));
    EmitUnfold(items, k);
    if item.Literal? {
      d := 0;
      ItemAtRaw(text, target + n);
      ItemAtWellFormed(text, target + n);
      ItemAtLiteral(text, target + n);
      LiteralIsRewritten(item, k);
      HalvesAtFirst(text, target + n, item.raw.Halves());
    } else {
      EmitKept(item, k);
      var d' := RewrittenDiffers(text, target, n + item.raw.Size(), items[1..], k + |first|);
      d := |first| + d';
      assert (first + rest)[d] == rest[d'];
    }
  }

  lemma EmitUnfold(items: seq<Item>, k: nat)
    requires items != []
    ensures
      var first := Flatten(EmitItem(items[0], k));
      Flatten(Emit(items, k)) == first + Flatten(Emit(items[1..], k + |first|))
  {
    var now := EmitItem(items[0], k);
    FlattenAppend(now, Emit(items[1..], k + |Flatten(now)|));
  }

  lemma EmitKept(item: Item, k: nat)
    requires item.Keep?
    ensures Flatten(EmitItem(item, k)) == item.raw.Halves()
  {
    FlattenRaw(item.raw);
  }

  lemma HalvesAtFirst(m: Mem, a: int, hs: seq<u16>)
    requires hs != [] && HalvesAt(m, a, hs)
    ensures Get16(m, a) == hs[0]
  {
    assert Get16(m, a + 2 * 0) == hs[0];
  }

  /** The byte `revert` leaves after the relocated code: half of a padding nop, or of the final jump. */
  function SpillByte(size: nat): u8 {
    if size == 10 then 0x00 else 0xDF
  }

  lemma SpillByteIs(items: seq<Item>, jump: u32)
    requires AllKept(items) && (ItemsSize(items) == 10 || ItemsSize(items) == 12)
    requires 2 * |Flatten(Emit(items, 0))| == ItemsSize(items)
    ensures
      var hs := TrampolineCode(items, jump);
      ItemsSize(items) / 2 < |hs| && hs[ItemsSize(items) / 2] % 0x100 == SpillByte(ItemsSize(items))
    ensures TrampolineCode(items, jump)[..ItemsSize(items) / 2] == Flatten(Emit(items, 0))
  {
    hide Emit;
    var raws := Emit(items, 0);
    FlattenAppend(raws, Pad(|Flatten(raws)|));
    if ItemsSize(items) == 10 {
      assert Pad(|Flatten(raws)|)[1..] == [];
    }
  }

  /** Memory right after `replace` and `revert` of one hook. */
  function Reverted(text: Mem, target: int, code: int, replacement: u32): Mem
    requires target % 2 == 0 && 0 <= target <= 0x1_0000_0000 - 16
  {
    var h := MakeHook(text, target, code, replacement);
    Remove(Install(text, h), h)
  }

  /** Outside the trampoline, `revert` after `replace` differs from the original memory at most on
      the relocated bytes and the one byte that follows them, where the trampoline's bytes now lie. */
  lemma RevertedBytes(text: Mem, target: int, code: int, replacement: u32)
    requires CanHook(text, target, code)
    ensures
      var h := MakeHook(text, target, code, replacement);
      var text' := Reverted(text, target, code, replacement);
      && Shape(h)
      && (forall x {:trigger Get(text', x)} ::
            !(target <= x <= target + h.size) && !(code <= x < code + 48) ==> Get(text', x) == Get(text, x))
      && (forall i :: 0 <= i <= h.size && i < 2 * |h.trampoline| ==>
            Get(text', target + i) == LeBytes(h.trampoline)[i])
  {
    hide Items, TrampolineCode, PatchCode, LiteralsClear, MakeHook, Get16, LeBytes;
    var h := MakeHook(text, target, code, replacement);
    MakeHookShape(text, target, code, replacement);
    assert h.target == target && h.code == code by { MakeHookAt(text, target, code, replacement); }
    InstallIsLive(text, h);
    var text' := Reverted(text, target, code, replacement);
    var mid := PutHalves(text, h.code, h.trampoline);
    forall i | 0 <= i <= h.size && i < 2 * |h.trampoline|
      ensures Get(text', target + i) == LeBytes(h.trampoline)[i]
    {
      assert Get(text', target + i) == Slice(Install(text, h), code, h.size + 1)[i] == Get(Install(text, h), code + i);
      assert Get(Install(text, h), code + i) == Get(mid, code + i);
    }
  }

  lemma MakeHookAt(text: Mem, target: int, code: int, replacement: u32)
    requires target % 2 == 0 && 0 <= target <= 0x1_0000_0000 - 16
    ensures MakeHook(text, target, code, replacement).target == target
    ensures MakeHook(text, target, code, replacement).code == code
    ensures MakeHook(text, target, code, replacement).size == RelocatedSize(text, target)
    ensures MakeHook(text, target, code, replacement).trampoline
         == TrampolineCode(Items(text, target, 0), JumpAddress(text, target))
  {
  }

  /** Exactly when `revert` undoes `replace` (leaving the dead trampoline aside): the prologue must
      hold no literal load, and the byte after the relocated code must already be the byte spilled there. */
  lemma RevertExact(text: Mem, target: int, code: int, replacement: u32)
    requires CanHook(text, target, code)
    ensures
      var text' := Reverted(text, target, code, replacement);
      var size := RelocatedSize(text, target);
      && (SameOn(text, text', target, target + size) <==> AllKept(Items(text, target, 0)))
      && (SameOn(text, text', target, target + size + 1)
          <==> AllKept(Items(text, target, 0)) && Get(text, target + size) == SpillByte(size))
  {
    hide Items, ItemsSize, Emit, Flatten, TrampolineCode, MakeHook, Reverted, LiteralsClear, LeBytes, Get16, HalvesAt;
    var items := Items(text, target, 0);
    var size := RelocatedSize(text, target);
    var jump := JumpAddress(text, target);
    var h := MakeHook(text, target, code, replacement);
    var text' := Reverted(text, target, code, replacement);
    var hs := TrampolineCode(items, jump);
    MakeHookAt(text, target, code, replacement);
    RevertedBytes(text, target, code, replacement);
    RelocatedSizeBound(text, target);
    if AllKept(items) {
      KeptIsCopied(text, target, 0, items, 0);
      SpillByteIs(items, jump);
      assert Get(text', target + size) == SpillByte(size) by {
        LeBytesAt(hs, size / 2);
        assert LeBytes(hs)[size] == hs[size / 2] % 0x100;
      }
      forall x | target <= x < target + size
        ensures Get(text', x) == Get(text, x)
      {
        HalvesBytes(text, target, hs[..size / 2], x - target);
        assert hs[..size / 2][(x - target) / 2] == hs[(x - target) / 2];
        LeBytesAt(hs, (x - target) / 2);
      }
    } else {
      var d := RewrittenDiffers(text, target, 0, items, 0);
      TrampolineStarts(items, jump, d);
      LeBytesAt(hs, d);
      Get16Bytes(text, target + 2 * d);
      assert Get(text', target + 2 * d) == LeBytes(hs)[2 * d];
      assert Get(text', target + 2 * d + 1) == LeBytes(hs)[2 * d + 1];
    }
  }

  lemma Get16Bytes(m: Mem, a: int)
    ensures Get16(m, a) == Get(m, a) + 0x100 * Get(m, a + 1)
  {
  }

  lemma LeBytesAt(hs: seq<u16>, i: nat)
    requires i < |hs|
    ensures LeBytes(hs)[2 * i] == hs[i] % 0x100 && LeBytes(hs)[2 * i + 1] == hs[i] / 0x100
  {
  }

  /** Byte `i` of halfwords that lie in memory. */
  lemma HalvesBytes(m: Mem, a: int, hs: seq<u16>, i: nat)
    requires HalvesAt(m, a, hs) && i < 2 * |hs|
    ensures Get(m, a + i) == if i % 2 == 0 then hs[i / 2] % 0x100 else hs[i / 2] / 0x100
  {
    assert Get16(m, a + 2 * (i / 2)) == hs[i / 2];
    assert i == 2 * (i / 2) + i % 2;
  }

  lemma TrampolineStarts(items: seq<Item>, jump: u32, d: nat)
    requires d < |Flatten(Emit(items, 0))|
    ensures d < |TrampolineCode(items, jump)| && TrampolineCode(items, jump)[d] == Flatten(Emit(items, 0))[d]
  {
    hide Emit;
    FlattenAppend(Emit(items, 0), Pad(|Flatten(Emit(items, 0))|));
  }
}
