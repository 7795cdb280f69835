/** The writer that emits halfwords and word-aligned instructions. Each method says which halfwords
    it appends at the pointer. */
module Thumb2Writer {
  import opened Bits
  import opened Bytes
  import opened Ram
  import opened Thumb
  import opened Translator

  /** A padding nop in front of a word at an unaligned pointer. */
  function PadAt(ptr: int): seq<u16> {
    if ptr % 4 == 0 then [] else [NOP]
  }

  /** An even pointer is at a word or in the middle of one. */
  lemma EvenPointer(ptr: int) returns (q: int)
    requires ptr % 2 == 0
    ensures ptr == 4 * q + (if ptr % 4 == 0 then 0 else 2)
  {
    q := ptr / 4;
    var r := ptr % 4;
    Mod2(2 * q + r / 2, r % 2);
  }

  lemma PadAligns(ptr: int)
    requires ptr % 2 == 0
    ensures if ptr % 4 == 0 then PadAt(ptr) == [] else PadAt(ptr) == [NOP] && (ptr + 2) % 4 == 0 && PadAt(ptr + 2) == []
  {
    var q := EvenPointer(ptr);
    Mod4(q + 1, 0);
  }

  lemma AlignedAfterWord(ptr: int, word: seq<u16>)
    requires ptr % 2 == 0 && |word| == 2
    ensures PadAt(ptr + 2 * |PadAt(ptr) + word|) == []
  {
    var q := EvenPointer(ptr);
    Mod4(q + 1, 0);
    Mod4(q + 2, 0);
    if ptr % 4 == 0 {
      assert PadAt(ptr) == [] && ptr + 2 * |PadAt(ptr) + word| == 4 * (q + 1);
    } else {
      assert PadAt(ptr) == [NOP] && ptr + 2 * |PadAt(ptr) + word| == 4 * (q + 2);
    }
  }

  function WordHalves(v: u32): seq<u16> {
    [v % 0x1_0000, v / 0x1_0000]
  }

  class Thumb2Writer {
    const ram: Ram
    var ptr: int

    constructor (ram: Ram, ptr: int)
      ensures this.ram == ram && this.ptr == ptr
    {
      this.ram := ram;
      this.ptr := ptr;
    }

    /** `hs` has been appended since the old state. */
    twostate predicate Appended(hs: seq<u16>)
      reads this, ram
    {
      ram.bytes == PutHalves(old(ram.bytes), old(ptr), hs) && ptr == old(ptr) + 2 * |hs|
    }

    method Write16(v: u16)
      modifies this, ram
      ensures Appended([v])
    {
      ram.bytes := PutHalves(ram.bytes, ptr, [v]);
      ptr := ptr + 2;
    }

    /** Copies `size` bytes from elsewhere in memory. */
    method Copy(src: int, size: nat)
      requires size % 2 == 0
      modifies this, ram
      ensures ram.bytes == Overlay(old(ram.bytes), old(ptr), Slice(old(ram.bytes), src, size))
      ensures ptr == old(ptr) + size
    {
      ram.bytes := Overlay(ram.bytes, ptr, Slice(ram.bytes, src, size));
      ptr := ptr + size / 2 * 2;
    }

    predicate IsAligned32()
      reads this
    {
      ptr % 4 == 0
    }

    method Write32(v: u32)
      modifies this, ram
      ensures Appended(PadAt(old(ptr)) + WordHalves(v))
    {
      if !IsAligned32() {
        Nop();
      }
      PutHalvesAppend(old(ram.bytes), old(ptr), PadAt(old(ptr)), WordHalves(v));
      ram.bytes := PutHalves(ram.bytes, ptr, WordHalves(v));
      ptr := ptr + 4;
    }

    method Nop()
      modifies this, ram
      ensures Appended([NOP])
    {
      Write16(NOP);
    }

    /** The 32-bit encoding of MOVW or MOVT, first halfword in the low half. */
    static function Movtw(movt: bool, r: nat, imm: u16): (word: u32)
      requires r < 16
      ensures word == MovRaw(movt, r, imm).h2 * 0x1_0000 + MovRaw(movt, r, imm).h1
    {
      var imm4, i, imm3, imm8 := And(imm / 0x1000, 0xF), And(imm / 0x800, 1), And(imm / 0x100, 7), And(imm, 0xFF);
      var hw1 := Or(Or(if movt then 0xF2C0 else 0xF240, i * 0x400), imm4);
      var hw2 := Or(Or(imm3 * 0x1000, r * 0x100), imm8);
      MovtwFields(movt, r, imm);
      Or(hw2 * 0x1_0000, hw1)
    }

    method Movt(r: nat, imm: u16)
      requires r < 16
      modifies this, ram
      ensures Appended(PadAt(old(ptr)) + MovRaw(true, r, imm).Halves())
    {
      MovtwHalves(true, r, imm);
      Write32(Movtw(true, r, imm));
    }

    method Movw(r: nat, imm: u16)
      requires r < 16
      modifies this, ram
      ensures Appended(PadAt(old(ptr)) + MovRaw(false, r, imm).Halves())
    {
      MovtwHalves(false, r, imm);
      Write32(Movtw(false, r, imm));
    }

    /** `ldr.w pc, [pc]` and the word it loads. */
    method Jumpout(addr: u32)
      requires ptr % 2 == 0
      modifies this, ram
      ensures Appended(PadAt(old(ptr)) + Translator.Jumpout(addr))
    {
      var loader := PadAt(ptr) + WordHalves(0xF000_F8DF);
      PutHalvesAppend(ram.bytes, ptr, loader, WordHalves(addr));
      assert loader + WordHalves(addr) == PadAt(ptr) + Translator.Jumpout(addr);
      Write32(0xF000_F8DF);
      assert PadAt(ptr) == [];
      assert [] + WordHalves(addr) == WordHalves(addr);
      Write32(addr);
    }
  }

  /** The or-ed fields do not overlap, so they add up to the encoding's two halfwords. */
  lemma MovtwFields(movt: bool, r: nat, imm: u16)
    requires r < 16
    ensures
      var raw := MovRaw(movt, r, imm);
      var imm4, i, imm3, imm8 := And(imm / 0x1000, 0xF), And(imm / 0x800, 1), And(imm / 0x100, 7), And(imm, 0xFF);
      && Or(Or(if movt then 0xF2C0 else 0xF240, i * 0x400), imm4) == raw.h1
      && Or(Or(imm3 * 0x1000, r * 0x100), imm8) == raw.h2
      && Or(raw.h2 * 0x1_0000, raw.h1) == raw.h2 * 0x1_0000 + raw.h1
  {
    hide And, Or, Pow2;
    var raw := MovRaw(movt, r, imm);
    Powers();
    LowMasks(imm / 0x1000);
    LowMasks(imm / 0x800);
    LowMasks(imm / 0x100);
    LowMasks(imm);
    var imm4, i, imm3, imm8 := imm / 0x1000, imm / 0x800 % 2, imm / 0x100 % 8, imm % 0x100;
    FirstField(movt, i);
    OrApart((if movt then 0xF2C + i * 0x40 else 0xF24 + i * 0x40), imm4, 4);
    OrApart(imm3, r * 0x100, 12);
    OrApart(imm3 * 0x10 + r, imm8, 8);
    OrApart(raw.h2, raw.h1, 16);
  }

  lemma FirstField(movt: bool, i: nat)
    requires i < 2
    ensures Or(if movt then 0xF2C0 else 0xF240, i * 0x400) == (if movt then 0xF2C0 else 0xF240) + i * 0x400
  {
    hide Or, Pow2;
    Powers();
    OrSplit(60, if movt then 0x2C0 else 0x240, i, 0, 10);
    OrZero(if movt then 0x2C0 else 0x240);
    OrApart(30, i, 1);
  }

  lemma MovtwHalves(movt: bool, r: nat, imm: u16)
    requires r < 16
    ensures WordHalves(Thumb2Writer.Movtw(movt, r, imm)) == MovRaw(movt, r, imm).Halves()
  {
    var raw := MovRaw(movt, r, imm);
    SplitWord(raw.h2, raw.h1);
  }

  lemma SplitWord(hi: u16, lo: u16)
    ensures (hi * 0x1_0000 + lo) % 0x1_0000 == lo && (hi * 0x1_0000 + lo) / 0x1_0000 == hi
  {
  }
}
