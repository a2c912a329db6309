/**
 * The instruction decoder (`construct_inst`): a word is classified by its
 * opcode into one of three forms, and the form's fields are cut out of it
 * per the layout table.  `Encode` packs fields back into a word by the
 * same layout; the two are mutually inverse.
 */
module Decoder {
  import opened Bits
  import opened Fields
  import opened Faults

  /** A decoded instruction.  Every form keeps its opcode, as each of the
      simulator's three instruction records does. */
  datatype Inst =
    | RType(op: u32, rs: u32, rt: u32, rd: u32, sh: u32, fun: u32)
    | IType(op: u32, rs: u32, rt: u32, im: u32)
    | JType(op: u32, ad: u32)

  /** The opcodes decoded to the jump form. */
  const JOpcodes: set<u32> := {0x2, 0x3}

  /** The opcodes decoded to the immediate form. */
  const IOpcodes: set<u32> := {0x4, 0x8, 0x9, 0xC, 0x5, 0x23, 0xD, 0xA, 0x2B}

  /** Every field fits the width the layout gives it. */
  predicate InRange(i: Inst)
  {
    match i
    case RType(op, rs, rt, rd, sh, fun) =>
      op < 64 && rs < 32 && rt < 32 && rd < 32 && sh < 32 && fun < 64
    case IType(op, rs, rt, im) => op < 64 && rs < 32 && rt < 32 && im < 0x1_0000
    case JType(op, ad) => op < 64 && ad < 0x400_0000
  }

  /** The instructions `Decode` can produce: fields in range and an opcode
      that selects the instruction's own form. */
  predicate Decodable(i: Inst)
  {
    && InRange(i)
    && (i.RType? ==> i.op == 0)
    && (i.JType? ==> i.op in JOpcodes)
    && (i.IType? ==> i.op in IOpcodes)
  }

  /** `construct_inst`. */
  function Decode(w: u32): (r: Result<Inst>)
    ensures r.Ok? ==> Decodable(r.value)
    ensures r.Err? ==> r == Err(UnknownOpcode(GetInstSeg(w, Op)))
  {
    FieldValues(w);
    match GetInstSeg(w, Op)
    case 0 =>
      Ok(RType(GetInstSeg(w, Op), GetInstSeg(w, Rs), GetInstSeg(w, Rt),
               GetInstSeg(w, Rd), GetInstSeg(w, Sh), GetInstSeg(w, Fn)))
    case 2 | 3 =>
      Ok(JType(GetInstSeg(w, Op), GetInstSeg(w, Ad)))
    case 0x4 | 0x8 | 0x9 | 0xC | 0x5 | 0x23 | 0xD | 0xA | 0x2B =>
      Ok(IType(GetInstSeg(w, Op), GetInstSeg(w, Rs), GetInstSeg(w, Rt), GetInstSeg(w, Im)))
    case _ =>
      Err(UnknownOpcode(GetInstSeg(w, Op)))
  }

  /** Packs the fields of an instruction into a word by the layout table. */
  function Encode(i: Inst): (w: u32)
    requires InRange(i)
  {
    match i
    case RType(op, rs, rt, rd, sh, fun) =>
      op * 0x400_0000 + rs * 0x20_0000 + rt * 0x1_0000 + rd * 0x800 + sh * 64 + fun
    case IType(op, rs, rt, im) =>
      op * 0x400_0000 + rs * 0x20_0000 + rt * 0x1_0000 + im
    case JType(op, ad) =>
      op * 0x400_0000 + ad
  }

  /** The form is decided by the opcode (the top six bits) alone: register
      form for opcode 0, jump form for 2 and 3, immediate form for the nine
      listed opcodes, and a decode failure for every other opcode. */
  lemma DecodeClassifies(w: u32)
    ensures Decode(w).Ok? && Decode(w).value.RType? <==> w / 0x400_0000 == 0
    ensures Decode(w).Ok? && Decode(w).value.JType? <==> w / 0x400_0000 in JOpcodes
    ensures Decode(w).Ok? && Decode(w).value.IType? <==> w / 0x400_0000 in IOpcodes
    ensures Decode(w).Err? <==> w / 0x400_0000 !in {0} + JOpcodes + IOpcodes
    ensures Decode(w).Ok? ==> Decode(w).value.op == w / 0x400_0000
  {
    FieldValues(w);
  }

  /** Digit `f` of a number written `(hi * c + f) * b + lo`, with `lo < b`
      and `f < c`, is `(w / b) % c`. */
  lemma Digit(w: int, b: int, c: int, hi: int, f: int, lo: int)
    requires b > 0 && c > 0 && hi >= 0
    requires 0 <= lo < b && 0 <= f < c && w == (hi * c + f) * b + lo
    ensures (w / b) % c == f
  {
    DivModUnique(w, b, hi * c + f, lo);
    DivModUnique(hi * c + f, c, hi, f);
  }

  /** The fields of a packed register-form word are the packed fields. */
  lemma FieldsOfPackedR(i: Inst)
    requires i.RType? && InRange(i)
    ensures var w := Encode(i);
      && GetInstSeg(w, Op) == i.op && GetInstSeg(w, Rs) == i.rs && GetInstSeg(w, Rt) == i.rt
      && GetInstSeg(w, Rd) == i.rd && GetInstSeg(w, Sh) == i.sh && GetInstSeg(w, Fn) == i.fun
  {
    var w := Encode(i);
    var RType(op, rs, rt, rd, sh, fun) := i;
    FieldValues(w);
    var low := rd * 0x800 + sh * 64 + fun;
    Digit(w, 0x400_0000, 64, 0, op, w - op * 0x400_0000);
    Digit(w, 0x20_0000, 32, op, rs, rt * 0x1_0000 + low);
    Digit(w, 0x1_0000, 32, op * 32 + rs, rt, low);
    Digit(w, 0x800, 32, (op * 32 + rs) * 32 + rt, rd, sh * 64 + fun);
    Digit(w, 64, 32, ((op * 32 + rs) * 32 + rt) * 32 + rd, sh, fun);
    DivModUnique(w, 64, (((op * 32 + rs) * 32 + rt) * 32 + rd) * 32 + sh, fun);
  }

  /** The fields of a packed immediate-form word are the packed fields. */
  lemma FieldsOfPackedI(i: Inst)
    requires i.IType? && InRange(i)
    ensures var w := Encode(i);
      && GetInstSeg(w, Op) == i.op && GetInstSeg(w, Rs) == i.rs && GetInstSeg(w, Rt) == i.rt
      && GetInstSeg(w, Im) == i.im
  {
    var w := Encode(i);
    var IType(op, rs, rt, im) := i;
    FieldValues(w);
    Digit(w, 0x400_0000, 64, 0, op, w - op * 0x400_0000);
    Digit(w, 0x20_0000, 32, op, rs, rt * 0x1_0000 + im);
    Digit(w, 0x1_0000, 32, op * 32 + rs, rt, im);
    DivModUnique(w, 0x1_0000, (op * 32 + rs) * 32 + rt, im);
  }

  /** The fields of a packed jump-form word are the packed fields. */
  lemma FieldsOfPackedJ(i: Inst)
    requires i.JType? && InRange(i)
    ensures GetInstSeg(Encode(i), Op) == i.op && GetInstSeg(Encode(i), Ad) == i.ad
  {
    var w := Encode(i);
    FieldValues(w);
    Digit(w, 0x400_0000, 64, 0, i.op, i.ad);
    DivModUnique(w, 0x400_0000, i.op, i.ad);
  }

  /** Packing fields and decoding the word gives back the same fields. */
  lemma DecodeEncode(i: Inst)
    requires Decodable(i)
    ensures Decode(Encode(i)) == Ok(i)
  {
    match i
    case RType(_, _, _, _, _, _) => FieldsOfPackedR(i);
    case IType(_, _, _, _) => FieldsOfPackedI(i);
    case JType(_, _) => FieldsOfPackedJ(i);
  }

  /** A decoded word is exactly the packing of its fields: decoding loses
      no bit. */
  lemma EncodeDecode(w: u32)
    requires Decode(w).Ok?
    ensures Encode(Decode(w).value) == w
  {
    FieldValues(w);
    ModDiv(w, 0x400_0000, 64);
    ModDiv(w, 0x20_0000, 32);
    ModDiv(w, 0x1_0000, 32);
    ModDiv(w, 0x800, 32);
    ModDiv(w, 64, 32);
  }
}
