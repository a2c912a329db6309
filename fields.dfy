/**
 * The bitfield extractor: `get_bits`, the fixed field layout of an
 * instruction word (`get_inst_seg`) and the sign extension of the 16-bit
 * immediate (`read_imm`).
 */
module Fields {
  import opened Bits

  /** Cuts `length` bits starting at bit `start` (0 = least significant) out
      of `inst`, right-justified, the way the simulator does it: shift the
      field up against bit 31, then shift it down to bit 0. */
  function GetBits(inst: u32, start: nat, length: nat): (r: u32)
    requires 1 <= length && start + length <= 32
  {
    Shr32(Shl32(inst, 32 - (length + start)), 32 - length)
  }

  /** `get_bits` extracts the field arithmetically: the word divided by
      `2^start`, reduced modulo `2^length`. */
  lemma GetBitsExtracts(inst: u32, start: nat, length: nat)
    requires 1 <= length && start + length <= 32
    ensures GetBits(inst, start, length) == (inst / Pow2(start)) % Pow2(length)
    ensures GetBits(inst, start, length) < Pow2(length)
  {
    ShiftPairIsDivMod(inst, start, length);
  }

  /** The named fields of an instruction word. */
  datatype Field = Op | Rs | Rt | Rd | Sh | Fn | Im | Ad

  /** The layout table: the first bit of each field. */
  function Start(f: Field): (r: nat)
  {
    match f
    case Op => 26
    case Rs => 21
    case Rt => 16
    case Rd => 11
    case Sh => 6
    case Fn => 0
    case Im => 0
    case Ad => 0
  }

  /** The layout table: the width of each field in bits. */
  function Width(f: Field): (r: nat)
  {
    match f
    case Op => 6
    case Rs => 5
    case Rt => 5
    case Rd => 5
    case Sh => 5
    case Fn => 6
    case Im => 16
    case Ad => 26
  }

  /** The value of field `f` of `inst`. */
  function GetInstSeg(inst: u32, f: Field): (r: u32)
  {
    GetBits(inst, Start(f), Width(f))
  }

  /** Each field extracts exactly its span of the word. */
  lemma FieldValues(w: u32)
    ensures GetInstSeg(w, Op) == w / 0x400_0000
    ensures GetInstSeg(w, Rs) == (w / 0x20_0000) % 32
    ensures GetInstSeg(w, Rt) == (w / 0x1_0000) % 32
    ensures GetInstSeg(w, Rd) == (w / 0x800) % 32
    ensures GetInstSeg(w, Sh) == (w / 64) % 32
    ensures GetInstSeg(w, Fn) == w % 64
    ensures GetInstSeg(w, Im) == w % 0x1_0000
    ensures GetInstSeg(w, Ad) == w % 0x400_0000
  {
    GetBitsExtracts(w, 26, 6);
    GetBitsExtracts(w, 21, 5);
    GetBitsExtracts(w, 16, 5);
    GetBitsExtracts(w, 11, 5);
    GetBitsExtracts(w, 6, 5);
    GetBitsExtracts(w, 0, 6);
    GetBitsExtracts(w, 0, 16);
    GetBitsExtracts(w, 0, 26);
    var q := w / 0x400_0000;
    assert q < 64 && q % 64 == q by {
      assert q * 0x400_0000 <= w;
      DivModUnique(q, 64, 0, q);
    }
    assert w / 1 == w;
    Pow2Values();
  }

  /** `read_imm`: the 16-bit immediate widened to an `i32`.  Bit 15 is
      tested by shifting it up to bit 31 and back down; a negative value
      is built by complementing the low half and negating one more than
      that. */
  function ReadImm(x: u32): (r: i32)
  {
    Pow2Values();
    if Shr32(Shl32(x, 16), 31) == 0 then
      AsI32(x)
    else
      var a := Xor32(Or32(x, 0xFFFF_0000), 0xFFFF_FFFF);
      if a == 0xFFFF_FFFF then 0 else WrapI32(-1 * AsI32(a + 1))
  }

  /** The shift pair in `read_imm` tests bit 15. */
  lemma Bit15(x: u32)
    requires x < 0x1_0000
    ensures Shr32(Shl32(x, 16), 31) == if x < 0x8000 then 0 else 1
  {
    assert Shr32(Shl32(x, 16), 31) == (x / 0x8000) % 2 by {
      Pow2Values();
      ShiftPairIsDivMod(x, 15, 1);
    }
    if x < 0x8000 {
      DivModUnique(x, 0x8000, 0, x);
    } else {
      DivModUnique(x, 0x8000, 1, x - 0x8000);
    }
  }

  /** Setting the upper half and flipping every bit leaves the complement
      of the lower half. */
  lemma ComplementLowHalf(x: u32)
    requires x < 0x1_0000
    ensures Xor32(Or32(x, 0xFFFF_0000), 0xFFFF_FFFF) == 0xFFFF - x
  {
    Pow2Values();
    assert Or32(x, 0xFFFF_0000) == x + 0xFFFF_0000 by {
      OrDisjoint(x, 0xFFFF, 16, 32);
    }
    XorAllOnes(x + 0xFFFF_0000, 32);
  }

  /** `read_imm` is 16-bit two's-complement sign extension. */
  lemma ReadImmSignExtends(x: u32)
    requires x < 0x1_0000
    ensures ReadImm(x) == if x < 0x8000 then x else x - 0x1_0000
    ensures -0x8000 <= ReadImm(x) < 0x8000
  {
    Bit15(x);
    ComplementLowHalf(x);
  }

  lemma ReadImmExamples()
    ensures ReadImm(0x0001) == 1
    ensures ReadImm(0x7FFF) == 0x7FFF
    ensures ReadImm(0xFFFF) == -1
    ensures ReadImm(0x8000) == -0x8000
  {
    ReadImmSignExtends(0x0001);
    ReadImmSignExtends(0x7FFF);
    ReadImmSignExtends(0xFFFF);
    ReadImmSignExtends(0x8000);
  }
}
