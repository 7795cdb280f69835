/** The reader that walks a prologue halfword by halfword. */
module Thumb2Reader {
  import opened Bits
  import opened Bytes
  import opened Ram
  import opened Thumb

  class Thumb2Reader {
    const ram: Ram
    var ptr: int

    constructor (ram: Ram, ptr: int)
      ensures this.ram == ram && this.ptr == ptr
    {
      this.ram := ram;
      this.ptr := ptr;
    }

    /** The halfword at the pointer, without consuming it. */
    function Poke16(): u16
      reads this, ram
    {
      Get16(ram.bytes, ptr)
    }

    method Read16() returns (v: u16)
      modifies this
      ensures v == Get16(ram.bytes, old(ptr)) && ptr == old(ptr) + 2
    {
      v := Poke16();
      Skip(1);
    }

    method Skip(v: nat)
      modifies this
      ensures ptr == old(ptr) + 2 * v
    {
      ptr := ptr + 2 * v;
    }

    predicate Is32Bit(): (b: bool)
      reads this, ram
      ensures b <==> Thumb.Is32Bit(Poke16())
    {
      var v := Poke16() / 0x800;
      v == 0x1D || v == 0x1E || v == 0x1F
    }

    predicate IsLdr(): (b: bool)
      reads this, ram
      ensures b <==> Poke16() / 0x800 == 9
    {
      hide And;
      TopFive(Poke16());
      And(Poke16(), 0xF800) == 0x4800
    }

    method ReadLdr() returns (r: nat, imm: u32)
      requires IsLdr()
      modifies this
      ensures Decode(Half(Get16(ram.bytes, old(ptr)))) == LdrLiteral(r, imm)
      ensures r < 8 && ptr == old(ptr) + 2
    {
      hide And;
      var v := Read16();
      LowMasks(v);
      LowMasks(v / 0x100);
      r := And(v / 0x100, 7);
      imm := And(v, 0xFF) * 4;
    }

    /** Bit 7, the add flag, may be either. */
    predicate IsLdrW(): (b: bool)
      reads this, ram
      ensures b <==> Poke16() == 0xF85F || Poke16() == 0xF8DF
    {
      hide And;
      AllButSeven(Poke16());
      And(Poke16(), 0xFF7F) == 0xF85F
    }

    method ReadLdrW() returns (r: nat, imm: u32, add: bool)
      requires IsLdrW()
      modifies this
      ensures Decode(Wide(Get16(ram.bytes, old(ptr)), Get16(ram.bytes, old(ptr) + 2)))
           == LdrLiteral(r, if add then imm else -(imm as int))
      ensures r < 16 && ptr == old(ptr) + 4
    {
      hide And;
      var hw1 := Read16();
      var hw2 := Read16();
      BitSeven(hw1);
      LowMasks(hw2);
      LowMasks(hw2 / 0x1000);
      add := And(hw1, 0x80) != 0;
      r := And(hw2 / 0x1000, 0xF);
      imm := And(hw2, 0xFFF);
    }
  }
}
