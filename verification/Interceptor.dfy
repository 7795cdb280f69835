/** The interceptor: translation loop, patching, and the pool of hooks in force. */
module Interceptor {
  import Bits
  import opened Bytes
  import opened Thumb
  import opened Translator
  import opened Hook
  import Cache
  import R = Ram
  import TR = Thumb2Reader
  import TW = Thumb2Writer

  datatype Error = UnsupportedMode | TrampolineNotFound

  datatype Outcome = Ok | Err(error: Error)

  datatype Trampoline = Trampoline(address: u32, jumpAddress: u32)

  /** The first index holding `x`. */
  function Position(s: seq<u32>, x: u32): (i: Option<nat>)
    ensures i.None? ==> x !in s
    ensures i.Some? ==> i.value < |s| && s[i.value] == x && x !in s[..i.value]
  {
    if s == [] then None
    else if s[0] == x then Some(0)
    else
      match Position(s[1..], x)
      case None => None
      case Some(i) => assert s[..i + 1] == [s[0]] + s[1..][..i]; Some(i + 1)
  }

  lemma CopiedHalves(m: Mem, a: int)
    ensures Slice(m, a, 4) == LeBytes([Get16(m, a), Get16(m, a + 2)])
  {
    hide Get;
    var hs := [Get16(m, a), Get16(m, a + 2)];
    var bs := LeBytes(hs);
    assert bs[0] == hs[0] % 0x100 && bs[1] == hs[0] / 0x100 && bs[2] == hs[1] % 0x100 && bs[3] == hs[1] / 0x100;
  }

  lemma FlattenPair(x: Raw, y: Raw)
    ensures Flatten([x, y]) == x.Halves() + y.Halves()
  {
    assert [x, y][1..] == [y] && [y][1..] == [];
    assert Flatten([y]) == y.Halves();
  }

  lemma MovHalvesLength(movt: bool, rd: nat, imm: u16)
    requires rd < 16
    ensures |MovRaw(movt, rd, imm).Halves()| == 2
  {
  }

  lemma PadIsPad(ptr: int, k: nat)
    requires ptr % 4 == 0 <==> k % 2 == 0
    ensures TW.PadAt(ptr) == if k % 2 == 0 then [] else [NOP]
  {
  }

  /** The three pieces a literal load becomes. */
  lemma LiteralHalves(raw: Raw, rt: nat, v: u32, k: nat)
    requires rt < 16
    ensures Flatten(EmitItem(Literal(raw, rt, v), k))
         == (if k % 2 == 0 then [] else [NOP])
            + MovRaw(false, rt, v % 0x1_0000).Halves() + MovRaw(true, rt, v / 0x1_0000).Halves()
  {
    hide MovRaw;
    var lo, hi := MovRaw(false, rt, v % 0x1_0000), MovRaw(true, rt, v / 0x1_0000);
    assert EmitItem(Literal(raw, rt, v), k) == Pad(k) + [lo, hi];
    FlattenAppend(Pad(k), [lo, hi]);
    FlattenPair(lo, hi);
    FlattenPad(k);
    assert Flatten(Pad(k)) == (if k % 2 == 0 then [] else [NOP]);
    var pad := Flatten(Pad(k));
    assert Flatten(EmitItem(Literal(raw, rt, v), k)) == pad + (lo.Halves() + hi.Halves());
    assert pad + (lo.Halves() + hi.Halves()) == pad + lo.Halves() + hi.Halves();
  }

  /** The two vectors of the pool are parallel and list hooks that do not overlap. */
  ghost predicate PoolInvariant(address: seq<u32>, trampoline: seq<Trampoline>, hooks: seq<HookInfo>) {
    && |address| == |trampoline| == |hooks|
    && (forall i :: 0 <= i < |hooks| ==> Entry(address[i], trampoline[i], hooks[i]))
    && (forall i, j :: 0 <= i < |hooks| && 0 <= j < |hooks| && i != j ==> HooksApart(hooks[i], hooks[j]))
  }

  ghost predicate Entry(address: u32, trampoline: Trampoline, h: HookInfo) {
    && address == h.target
    && trampoline.address == h.code
    && trampoline.jumpAddress == h.target + h.size + 1
    && Shape(h)
  }

  /** Nobody else has written over a hook's patch or trampoline. */
  ghost predicate AllLive(m: Mem, hooks: seq<HookInfo>) {
    forall i :: 0 <= i < |hooks| ==> Live(m, hooks[i])
  }

  lemma PoolAdd(address: seq<u32>, trampoline: seq<Trampoline>, hooks: seq<HookInfo>, h: HookInfo,
                a: u32, t: Trampoline)
    requires PoolInvariant(address, trampoline, hooks)
    requires FreePlace(hooks, h) && Shape(h)
    requires a == h.target && t.address == h.code && t.jumpAddress == h.target + h.size + 1
    ensures PoolInvariant(address + [a], trampoline + [t], hooks + [h])
  {
    hide HooksApart, Shape;
    var hooks' := hooks + [h];
    forall i | 0 <= i < |hooks'|
      ensures Entry((address + [a])[i], (trampoline + [t])[i], hooks'[i])
    {
      if i < |hooks| {
        assert Entry(address[i], trampoline[i], hooks[i]);
      }
    }
  }

  /** Installing a hook where no other is leaves the others in force. */
  lemma InstallKeepsLive(m: Mem, hooks: seq<HookInfo>, h: HookInfo)
    requires AllLive(m, hooks) && FreePlace(hooks, h) && Shape(h)
    ensures AllLive(Install(m, h), hooks + [h])
  {
    hide Live, HooksApart, Shape, Install;
    InstallIsLive(m, h);
    forall i | 0 <= i < |hooks|
      ensures Live(Install(m, h), hooks[i])
    {
      OtherHooksStayLive(m, h, hooks[i]);
    }
  }

  lemma PoolLengths(address: seq<u32>, trampoline: seq<Trampoline>, hooks: seq<HookInfo>)
    requires PoolInvariant(address, trampoline, hooks)
    ensures |address| == |trampoline| == |hooks|
  {
  }

  lemma PoolEntry(address: seq<u32>, trampoline: seq<Trampoline>, hooks: seq<HookInfo>, i: nat)
    requires PoolInvariant(address, trampoline, hooks) && i < |hooks|
    ensures Entry(address[i], trampoline[i], hooks[i]) && Shape(hooks[i])
  {
  }

  /** All but the `i`-th. */
  function Without<T>(s: seq<T>, i: nat): seq<T>
    requires i < |s|
  {
    s[..i] + s[i + 1..]
  }

  lemma PoolRemove(address: seq<u32>, trampoline: seq<Trampoline>, hooks: seq<HookInfo>, i: nat)
    requires PoolInvariant(address, trampoline, hooks) && i < |hooks|
    ensures PoolInvariant(Without(address, i), Without(trampoline, i), Without(hooks, i))
  {
    hide HooksApart, Shape;
    var hooks' := Without(hooks, i);
    forall j | 0 <= j < |hooks'|
      ensures Entry(Without(address, i)[j], Without(trampoline, i)[j], hooks'[j])
    {
      var k := if j < i then j else j + 1;
      assert Entry(address[k], trampoline[k], hooks[k]);
    }
    forall j, k | 0 <= j < |hooks'| && 0 <= k < |hooks'| && j != k
      ensures HooksApart(hooks'[j], hooks'[k])
    {
      assert HooksApart(hooks[if j < i then j else j + 1], hooks[if k < i then k else k + 1]);
    }
  }

  /** Taking one hook out leaves the others in force. */
  lemma RemoveKeepsLive(m: Mem, address: seq<u32>, trampoline: seq<Trampoline>, hooks: seq<HookInfo>, i: nat)
    requires PoolInvariant(address, trampoline, hooks) && AllLive(m, hooks) && i < |hooks|
    ensures AllLive(Remove(m, hooks[i]), Without(hooks, i))
  {
    hide Live, HooksApart, Remove, Shape;
    PoolEntry(address, trampoline, hooks, i);
    forall j | 0 <= j < |hooks| && j != i
      ensures Live(Remove(m, hooks[i]), hooks[j])
    {
      assert HooksApart(hooks[i], hooks[j]);
      OtherHooksStayLive(m, hooks[i], hooks[j]);
    }
    var hooks' := Without(hooks, i);
    forall j | 0 <= j < |hooks'|
      ensures Live(Remove(m, hooks[i]), hooks'[j])
    {
      assert hooks'[j] == hooks[if j < i then j else j + 1];
    }
  }

  /** The hook `replace` makes where it can. */
  function HookOver(text: Mem, target: int, code: int, replacement: u32): HookInfo
    requires CanHook(text, target, code)
  {
    HookFits(text, target, code);
    MakeHook(text, target, code, replacement)
  }

  lemma HookOverIs(text: Mem, target: int, code: int, replacement: u32)
    requires CanHook(text, target, code)
    ensures target % 2 == 0 && 0 <= target <= 0x1_0000_0000 - 16
    ensures HookOver(text, target, code, replacement) == MakeHook(text, target, code, replacement)
  {
    hide CanHook, MakeHook;
    HookFits(text, target, code);
  }

  class Interceptor {
    const ram: R.Ram
    const cache: Cache.Maintenance
    var address: seq<u32>
    var trampoline: seq<Trampoline>
    ghost var hooks: seq<HookInfo>

    ghost predicate Valid()
      reads this
    {
      PoolInvariant(address, trampoline, hooks)
    }

    constructor (ram: R.Ram, cache: Cache.Maintenance)
      ensures Valid() && hooks == [] && this.ram == ram && this.cache == cache
    {
      this.ram := ram;
      this.cache := cache;
      address, trampoline, hooks := [], [], [];
    }

    method EmitLiteral(writer: TW.Thumb2Writer, rt: nat, literalAddress: u32, ghost raw: Raw, ghost k: nat)
      requires writer.ram == ram && rt < 16
      requires writer.ptr % 4 == 0 <==> k % 2 == 0
      requires writer.ptr % 2 == 0
      modifies writer, ram
      ensures writer.Appended(Flatten(EmitItem(Literal(raw, rt, Get32(old(ram.bytes), literalAddress)), k)))
    {
      hide MovRaw, EmitItem, Flatten, PutHalves, Get32, Get16, Raw.Halves, TW.PadAt, Bits.And;
      var value := Get32(ram.bytes, literalAddress);
      Bits.LowMasks(value);
      var l: u16, u: u16 := Bits.And(value, 0xFFFF), value / 0x1_0000;
      ghost var lo, hi := MovRaw(false, rt, l).Halves(), MovRaw(true, rt, u).Halves();
      MovHalvesLength(false, rt, l);
      ghost var first := TW.PadAt(writer.ptr) + lo;
      LiteralHalves(raw, rt, value, k);
      PadIsPad(writer.ptr, k);
      TW.AlignedAfterWord(writer.ptr, lo);
      PutHalvesAppend(ram.bytes, writer.ptr, first, hi);
      assert [] + hi == hi;
      writer.Movw(rt, l);
      writer.Movt(rt, u);
    }

    /** One turn of the translation loop. */
    method TranslateInstruction(reader: TR.Thumb2Reader, writer: TW.Thumb2Writer, target: int, n: nat,
                                ghost text: Mem, ghost code: int, ghost k: nat)
      returns (n': nat)
      requires reader.ram == ram && writer.ram == ram
      requires reader.ptr == target + n && writer.ptr == code + 2 * k && code % 4 == 0
      requires n < PATCH_SIZE && n % 2 == 0 && 0 <= target <= 0x1_0000_0000 - 16
      requires SameOutside(text, ram.bytes, code, code + TRAMPOLINE_SIZE)
      requires Disjoint(target, target + PATCH_SIZE + 2, code, code + TRAMPOLINE_SIZE)
      requires LiteralsClear(text, target, n, code, code + TRAMPOLINE_SIZE)
      modifies reader, writer, ram
      ensures n' == n + ItemAt(text, target + n).raw.Size() && reader.ptr == target + n'
      ensures writer.Appended(Flatten(EmitItem(ItemAt(text, target + n), k)))
    {
      hide EmitItem, Flatten, ItemAt, Fetch, Decode, LiteralsClear, Is32Bit, Get16, Get32, SameOutside, LeBytes,
           Bits.And, TR.Thumb2Reader.Is32Bit, TR.Thumb2Reader.IsLdr, TR.Thumb2Reader.IsLdrW, LiteralClear, AlignDown;
      ghost var item := ItemAt(text, target + n);
      FetchOutside(text, ram.bytes, target + n, code, code + TRAMPOLINE_SIZE);
      ItemRead(text, ram.bytes, target, n, code, code + TRAMPOLINE_SIZE);
      Classify(text, target + n);
      KeptHalves(item, k);
      Parity(code, k);
      Bits.AlignMasks(target + n + 4);
      if reader.Is32Bit() {
        if reader.IsLdrW() {
          var r, imm, add := reader.ReadLdrW();
          var pcAligned := Bits.And(target + n + 4, 0xFFFF_FFFC);
          var literalAddress := if add then pcAligned + imm else pcAligned - imm;
          EmitLiteral(writer, r, literalAddress, item.raw, k);
        } else {
          CopiedHalves(ram.bytes, reader.ptr);
          writer.Copy(reader.ptr, 4);
          reader.Skip(2);
        }
        n' := n + 4;
      } else {
        if reader.IsLdr() {
          var r, imm := reader.ReadLdr();
          var pcAligned := Bits.And(target + n + 4, 0xFFFF_FFFC);
          var literalAddress := pcAligned + imm;
          EmitLiteral(writer, r, literalAddress, item.raw, k);
        } else {
          var h := reader.Read16();
          writer.Write16(h);
        }
        n' := n + 2;
      }
    }

    /** The translation loop: the whole prologue, rewritten at `code`. */
    method TranslatePrologue(reader: TR.Thumb2Reader, writer: TW.Thumb2Writer, target: int, size: nat, ghost code: int)
      requires reader.ram == ram && writer.ram == ram && size == PATCH_SIZE
      requires reader.ptr == target && writer.ptr == code
      requires CanHook(ram.bytes, target, code)
      modifies reader, writer, ram
      ensures reader.ptr == target + RelocatedSize(old(ram.bytes), target)
      ensures writer.Appended(Flatten(Emit(Items(old(ram.bytes), target, 0), 0)))
    {
      hide Items, Emit, EmitItem, Flatten, ItemAt, ItemsSize, Fetch, LiteralsClear, PutHalves, SameOutside, Raw.Size;
      ghost var text := ram.bytes;
      ghost var whole := Flatten(Emit(Items(text, target, 0), 0));
      ghost var done: seq<u16> := [];
      TrampolineLength(text, target);
      PutNothing(text, code);
      assert done + whole == whole;
      var n := 0;
      while n < size
        invariant n % 2 == 0
        invariant reader.ptr == target + n
        invariant writer.ptr == code + 2 * |done|
        invariant ram.bytes == PutHalves(text, code, done)
        invariant done + Flatten(Emit(Items(text, target, n), |done|)) == whole
        invariant n + ItemsSize(Items(text, target, n)) == RelocatedSize(text, target)
        invariant LiteralsClear(text, target, n, code, code + TRAMPOLINE_SIZE)
        decreases PATCH_SIZE + 4 - n
      {
        ghost var k := |done|;
        ghost var rest := Items(text, target, n);
        ghost var first := Flatten(EmitItem(ItemAt(text, target + n), k));
        assert |done| <= |whole|;
        PutHalvesOutside(text, code, done);
        ItemsStep(text, target, n);
        EmitHead(rest, k);
        LiteralsStep(text, target, n, code, code + TRAMPOLINE_SIZE);
        PutHalvesAppend(text, code, done, first);
        n := TranslateInstruction(reader, writer, target, n, text, code, k);
        ConcatAssoc(done, first, Flatten(Emit(rest[1..], k + |first|)));
        done := done + first;
      }
      ItemsStep(text, target, n);
      EmitNothing(|done|);
      ItemsSizeNothing();
      assert done + [] == done;
    }

    /** Alignment padding and a jump. */
    method PadAndJump(writer: TW.Thumb2Writer, addr: u32)
      requires writer.ram == ram && writer.ptr % 2 == 0
      modifies writer, ram
      ensures writer.Appended(TW.PadAt(old(writer.ptr)) + Translator.Jumpout(addr))
    {
      hide PutHalves, Translator.Jumpout, TW.PadAt;
      TW.PadAligns(writer.ptr);
      ghost var q := TW.EvenPointer(writer.ptr);
      Mod2(2 * q + 2, 0);
      if !writer.IsAligned32() {
        PutHalvesAppend(ram.bytes, writer.ptr, [NOP], Translator.Jumpout(addr));
        writer.Nop();
        assert [] + Translator.Jumpout(addr) == Translator.Jumpout(addr);
      }
      writer.Jumpout(addr);
    }

    /** The trampoline: the rewritten prologue, padding, and the jump back. */
    method WriteTrampoline(target: int, code: int, size: nat) returns (jump: u32)
      requires size == PATCH_SIZE
      requires CanHook(ram.bytes, target, code)
      modifies ram
      ensures jump == JumpAddress(old(ram.bytes), target)
      ensures ram.bytes
           == PutHalves(old(ram.bytes), code, TrampolineCode(Items(old(ram.bytes), target, 0), jump))
    {
      hide Items, Emit, Flatten, ItemsSize, LiteralsClear, PutHalves, Translator.Jumpout;
      ghost var text := ram.bytes;
      ghost var items := Items(text, target, 0);
      ghost var done := Flatten(Emit(items, 0));
      RelocatedSizeBound(text, target);
      TrampolineParts(items);
      var reader := new TR.Thumb2Reader(ram, target);
      var writer := new TW.Thumb2Writer(ram, code);
      if !writer.IsAligned32() {
        // the allocator's block is word-aligned, so the source's leading nop is never written
        assert false;
      }
      TranslatePrologue(reader, writer, target, size, code);
      Parity(code, |done|);
      Bits.SetLow(reader.ptr);
      jump := Bits.Or(reader.ptr, 1);
      ghost var ret := Flatten(Pad(|done|)) + Translator.Jumpout(jump);
      PutHalvesAppend(text, code, done, ret);
      ConcatAssoc(done, Flatten(Pad(|done|)), Translator.Jumpout(jump));
      PadHalves(|done|);
      PadAndJump(writer, jump);
    }

    /** The jump to the replacement over the target. */
    method WritePatch(target: int, replacement: u32)
      requires target % 2 == 0
      modifies ram
      ensures ram.bytes == PutHalves(old(ram.bytes), target, PatchCode(target, replacement))
    {
      hide PutHalves, Translator.Jumpout, Flatten;
      var writer := new TW.Thumb2Writer(ram, target);
      PatchParts(target, replacement);
      PadAndJump(writer, replacement);
    }

    /** `unmask_thumb2`. */
    static function Unmask(target: u32): (r: u32)
      ensures r == AlignDown(target, 2)
    {
      Bits.AlignMasks(target);
      Bits.And(target, 0xFFFF_FFFE)
    }

    /** Hooks `target` (an odd, Thumb address) with a trampoline in the 64 aligned bytes the
        allocator returned at `code`. */
    method Replace(target: u32, replacement: u32, code: u32) returns (outcome: Outcome)
      requires Valid()
      requires target % 2 == 1 ==>
                 && CanHook(ram.bytes, target - 1, code)
                 && FreePlace(hooks, HookOver(ram.bytes, target - 1, code, replacement))
      modifies this, ram, cache
      ensures Valid()
      ensures target % 2 == 0 ==>
                && outcome == Err(UnsupportedMode)
                && ram.bytes == old(ram.bytes) && hooks == old(hooks) && cache.cleaned == old(cache.cleaned)
      ensures target % 2 == 1 ==>
                var h := HookOver(old(ram.bytes), target - 1, code, replacement);
                && outcome == Ok
                && hooks == old(hooks) + [h]
                && ram.bytes == Install(old(ram.bytes), h)
                && cache.cleaned == old(cache.cleaned) + Cache.CacheLines(code, 64) + Cache.CacheLines(target, 64)
      ensures AllLive(old(ram.bytes), old(hooks)) ==> AllLive(ram.bytes, hooks)
    {
      hide PoolInvariant, FreePlace, CanHook, Items, TrampolineCode, PatchCode, PutHalves, Cache.CacheLines, Bits.And,
           AllLive, HookOver;
      Bits.LowMasks(target);
      if Bits.And(target, 1) == 0 {
        return Err(UnsupportedMode);
      }
      var targetPtr := Unmask(target);
      assert targetPtr == target - 1;
      var size := if target % 4 != 0 then 10 else 8;
      AlignedCaseNeverOccurs(target);
      HookFits(ram.bytes, targetPtr, code);
      ghost var text := ram.bytes;
      ghost var h := HookOver(text, targetPtr, code, replacement);
      HookOverIs(text, targetPtr, code, replacement);
      MakeHookShape(text, targetPtr, code, replacement);
      ghost var was := hooks;
      PoolAdd(address, trampoline, hooks, h, targetPtr, Trampoline(code, JumpAddress(text, targetPtr)));
      var jump := WriteTrampoline(targetPtr, code, size);
      cache.FlushCache(code, 64);
      trampoline := trampoline + [Trampoline(code, jump)];
      address := address + [targetPtr];
      WritePatch(targetPtr, ThumbAddress(replacement));
      cache.FlushCache(target, 64);
      hooks := hooks + [h];
      if AllLive(text, was) {
        InstallKeepsLive(text, was, h);
      }
      outcome := Ok;
    }

    /** Takes the first hook over `target` out again. */
    method Revert(target: u32) returns (outcome: Outcome)
      requires Valid()
      modifies this, ram, cache
      ensures Valid()
      ensures target % 2 == 0 ==> outcome == Err(UnsupportedMode)
      ensures target % 2 == 1 && Position(old(address), target - 1).None? ==> outcome == Err(TrampolineNotFound)
      ensures target % 2 == 1 && Position(old(address), target - 1).Some? ==>
                var i := Position(old(address), target - 1).value;
                && outcome == Ok && i < |old(hooks)| && old(hooks)[i].target == target - 1
                && hooks == Without(old(hooks), i)
                && ram.bytes == Remove(old(ram.bytes), old(hooks)[i])
                && old(hooks)[i].size <= 12
                && cache.cleaned == old(cache.cleaned) + Cache.CacheLines(target - 1, old(hooks)[i].size + 1)
      ensures outcome.Err? ==>
                ram.bytes == old(ram.bytes) && hooks == old(hooks) && cache.cleaned == old(cache.cleaned)
      ensures AllLive(old(ram.bytes), old(hooks)) ==> AllLive(ram.bytes, hooks)
    {
      hide PoolInvariant, Cache.CacheLines, Remove, Bits.And, AllLive;
      Bits.LowMasks(target);
      if Bits.And(target, 1) == 0 {
        return Err(UnsupportedMode);
      }
      var targetPtr := Unmask(target);
      assert targetPtr == target - 1;
      var found := Position(address, targetPtr);
      if found.None? {
        return Err(TrampolineNotFound);
      }
      RemoveAt(found.value);
      outcome := Ok;
    }

    /** Copies the start of trampoline `i` back over its target and drops the entry. */
    method RemoveAt(i: nat)
      requires Valid() && i < |address|
      modifies this, ram, cache
      ensures Valid() && |old(hooks)| == |old(address)| && old(hooks)[i].target == old(address)[i]
      ensures hooks == Without(old(hooks), i)
      ensures ram.bytes == Remove(old(ram.bytes), old(hooks)[i])
      ensures old(hooks)[i].size <= 12
      ensures cache.cleaned == old(cache.cleaned) + Cache.CacheLines(old(address)[i], old(hooks)[i].size + 1)
      ensures AllLive(old(ram.bytes), old(hooks)) ==> AllLive(ram.bytes, hooks)
    {
      hide PoolInvariant, Cache.CacheLines, Live, AllLive;
      PoolLengths(address, trampoline, hooks);
      PoolEntry(address, trampoline, hooks, i);
      PoolRemove(address, trampoline, hooks, i);
      if AllLive(ram.bytes, hooks) {
        RemoveKeepsLive(ram.bytes, address, trampoline, hooks, i);
      }
      var target := address[i];
      var size := trampoline[i].jumpAddress - target;
      ram.bytes := Overlay(ram.bytes, target, Slice(ram.bytes, trampoline[i].address, size));
      cache.FlushCache(target, size);
      address := Without(address, i);
      trampoline := Without(trampoline, i);
      hooks := Without(hooks, i);
    }

    /** The trampoline standing in for a hooked target. The pool acts as a map keyed by target. */
    method Original(target: u32) returns (r: Option<u32>)
      requires Valid()
      ensures r.Some? <==> exists i :: 0 <= i < |hooks| && hooks[i].target == AlignDown(target, 2)
      ensures forall i :: 0 <= i < |hooks| && hooks[i].target == AlignDown(target, 2) ==> r == Some(hooks[i].code)
    {
      var targetPtr := Unmask(target);
      match Position(address, targetPtr)
      case None =>
        r := None;
        assert forall i :: 0 <= i < |hooks| ==> Entry(address[i], trampoline[i], hooks[i]);
      case Some(k) =>
        r := Some(trampoline[k].address);
        forall i | 0 <= i < |hooks| && hooks[i].target == targetPtr
          ensures i == k
        {
          if i != k {
            TargetsDiffer(hooks, i, k);
          }
        }
    }
  }

  lemma TargetsDiffer(hooks: seq<HookInfo>, i: nat, k: nat)
    requires i < |hooks| && k < |hooks| && HooksApart(hooks[i], hooks[k])
    ensures hooks[i].target != hooks[k].target
  {
  }

  lemma PatchParts(target: int, replacement: u32)
    ensures PatchCode(target, replacement) == TW.PadAt(target) + Translator.Jumpout(replacement)
  {
    PadHalves(1);
  }

  lemma TrampolineLength(text: Mem, target: int)
    requires target % 2 == 0
    ensures 2 * |Flatten(Emit(Items(text, target, 0), 0))| <= 48
  {
    hide Items, Emit;
    TranslationBounds(text, target, 0, 0);
    TrampolineParts(Items(text, target, 0));
  }

  lemma TrampolineParts(items: seq<Item>)
    ensures
      var whole := Flatten(Emit(items, 0));
      Flatten(Body(items)) == whole + Flatten(Pad(|whole|))
  {
    hide Emit;
    FlattenAppend(Emit(items, 0), Pad(|Flatten(Emit(items, 0))|));
  }

  lemma PutNothing(m: Mem, a: int)
    ensures PutHalves(m, a, []) == m
  {
  }

  lemma EmitNothing(k: nat)
    ensures Flatten(Emit([], k)) == []
  {
  }

  lemma ItemsSizeNothing()
    ensures ItemsSize([]) == 0
  {
  }

  lemma PadHalves(k: nat)
    ensures Flatten(Pad(k)) == if k % 2 == 0 then [] else [NOP]
  {
    if k % 2 != 0 {
      assert [Half(NOP)][1..] == [];
    }
  }

  lemma PutHalvesOutside(m: Mem, a: int, hs: seq<u16>)
    requires 2 * |hs| <= TRAMPOLINE_SIZE
    ensures SameOutside(m, PutHalves(m, a, hs), a, a + TRAMPOLINE_SIZE)
  {
  }

  lemma EmitHead(items: seq<Item>, k: nat)
    requires items != []
    ensures
      var first := Flatten(EmitItem(items[0], k));
      && Flatten(Emit(items, k)) == first + Flatten(Emit(items[1..], k + |first|))
      && ItemsSize(items) == items[0].raw.Size() + ItemsSize(items[1..])
      && items[0].raw.Size() in {2, 4}
  {
    hide EmitItem;
    var now := EmitItem(items[0], k);
    FlattenAppend(now, Emit(items[1..], k + |Flatten(now)|));
  }

  lemma LiteralsStep(text: Mem, target: int, n: nat, lo: int, hi: int)
    requires n < PATCH_SIZE && LiteralsClear(text, target, n, lo, hi)
    ensures LiteralsClear(text, target, n + ItemAt(text, target + n).raw.Size(), lo, hi)
  {
    hide Decode, Is32Bit, Get16;
    Classify(text, target + n);
  }

  /** Halfword `k` of a word-aligned buffer is word-aligned itself when `k` is even. */
  lemma Parity(code: int, k: nat)
    requires code % 4 == 0
    ensures (code + 2 * k) % 4 == 0 <==> k % 2 == 0
    ensures (code + 2 * k) % 2 == 0
  {
    var q := code / 4 + k / 2;
    assert code + 2 * k == 4 * q + 2 * (k % 2);
    Mod4(q, 2 * (k % 2));
    Mod2(2 * q + k % 2, 0);
  }

  /** The reader's four cases are the item's four cases. */
  lemma Classify(text: Mem, pc: int)
    ensures
      var h, raw := Get16(text, pc), Fetch(text, pc);
      && raw == (if Is32Bit(h) then Wide(h, Get16(text, pc + 2)) else Half(h))
      && (Decode(raw).LdrLiteral? <==> if Is32Bit(h) then h == 0xF85F || h == 0xF8DF else h / 2048 == 9)
    ensures
      var h := Get16(text, pc);
      Is32Bit(h) <==> h / 2048 == 0x1D || h / 2048 == 0x1E || h / 2048 == 0x1F
  {
    hide Get16, MovImmediate, IfThenConditions;
  }

  /** What the translation makes of an instruction, read in the memory the loop reads. */
  lemma ItemRead(text: Mem, m: Mem, target: int, n: nat, lo: int, hi: int)
    requires SameOutside(text, m, lo, hi) && n < PATCH_SIZE
    requires LiteralsClear(text, target, n, lo, hi)
    ensures
      var raw, item := Fetch(text, target + n), ItemAt(text, target + n);
      match Decode(raw)
      case LdrLiteral(rt, offset) =>
        var a := AlignDown(target + n + 4, 4) + offset;
        0 <= a <= 0x1_0000_0000 - 4 && item == Literal(raw, rt, Get32(m, a))
      case _ => item == Keep(raw)
  {
    hide Decode, Is32Bit, Get16, Get32, SameOutside, Fetch;
    LiteralOutside(text, m, target, n, lo, hi);
  }

  lemma KeptHalves(item: Item, k: nat)
    ensures item.Keep? ==> Flatten(EmitItem(item, k)) == item.raw.Halves()
  {
    if item.Keep? {
      assert [item.raw][1..] == [];
    }
  }
}
