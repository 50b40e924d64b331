/** Operand decoding: how each encoding class slices an instruction word into
    register names and immediates (`*_Insn.gen_instr_assembly` in
    custominsn.py, before template expansion). Slices are written with the
    source's own Python slice numbers through `RawBits.Slice`/`BitAt`. */
module Operands {
  import opened Wrappers
  import opened Bits
  import opened Text
  import opened RawBits
  import opened Encoding

  /** `_x_reg_names`: ABI names of x0..x31. */
  const XRegNames: seq<string> := [
    "zero", "ra", "sp", "gp", "tp", "t0", "t1", "t2",
    "fp", "s1", "a0", "a1", "a2", "a3", "a4", "a5",
    "a6", "a7", "s2", "s3", "s4", "s5", "s6", "s7",
    "s8", "s9", "s10", "s11", "t3", "t4", "t5", "t6"]

  /** `_cx_reg_names`: the eight registers x8..x15 a 3-bit field can name. */
  const CxRegNames: seq<string> := ["fp", "s1", "a0", "a1", "a2", "a3", "a4", "a5"]

  /** A field value: a Python `str` (register name, hex target) or `int`. */
  datatype Value = Str(s: string) | Int(i: int)

  /** The `fields` dict, in insertion order. */
  type Fields = seq<(string, Value)>

  function Keys(fs: Fields): seq<string>
  {
    seq(|fs|, k requires 0 <= k < |fs| => fs[k].0)
  }

  /** `fields[key]`, or `None` when the key is absent. */
  function Get(fs: Fields, key: string): Option<Value>
    decreases |fs|
  {
    if |fs| == 0 then None
    else if fs[0].0 == key then Some(fs[0].1)
    else Get(fs[1..], key)
  }

  function XReg(i: nat): string
    requires i < 32
  {
    XRegNames[i]
  }

  function CxReg(i: nat): string
    requires i < 8
  {
    CxRegNames[i]
  }

  /** `(uimm & (2^k - 1)) - (uimm & 2^k)`: bit `k` taken as the sign. */
  function SignExtend(u: nat, k: nat): int
  {
    And(u, Pow2(k) - 1) - And(u, Pow2(k))
  }

  /** Classes whose decoder builds `uimm`/`imm`. */
  predicate HasImmediate(c: Class)
  {
    c != R && c != CR
  }

  /** The unsigned immediate each decoder assembles, before any address is
      added; for U this is the `uimm >> 12` the fields receive. */
  function Uimm(c: Class, w: nat): nat
    requires HasImmediate(c)
  {
    match c
    case I => Slice(w, 31, 19)
    case S => Or(Slice(w, 11, 6), Shl(Slice(w, 31, 24), 5))
    case B =>
      Or(Or(Or(Shl(Slice(w, 11, 7), 1), Shl(Slice(w, 30, 24), 5)), Shl(BitAt(w, 7), 11)), Shl(BitAt(w, 31), 12))
    case U => Shr(Shl(Slice(w, 31, 11), 12), 12)
    case J =>
      Or(Or(Or(Shl(Slice(w, 19, 11), 12), Shl(BitAt(w, 20), 11)), Shl(Slice(w, 30, 20), 1)), Shl(BitAt(w, 31), 20))
    case CI => Or(Slice(w, 6, 1), Shl(BitAt(w, 12), 5))
    case CSS => Or(Shl(Slice(w, 12, 8), 2), Shl(Slice(w, 8, 6), 6))
    case CIW =>
      Or(Or(Or(Shl(BitAt(w, 5), 3), Shl(BitAt(w, 6), 2)), Shl(Slice(w, 12, 10), 4)), Shl(Slice(w, 10, 6), 6))
    case CL => Or(Or(Shl(BitAt(w, 5), 2), Shl(BitAt(w, 6), 6)), Shl(Slice(w, 12, 10), 3))
    case CS => Or(Shl(Slice(w, 6, 4), 0), Shl(Slice(w, 12, 9), 2))
    case CB => Or(Or(Shl(BitAt(w, 2), 5), Shl(Slice(w, 6, 2), 1)), Shl(Slice(w, 12, 9), 6))
    case CJ => Or(Or(Shl(BitAt(w, 2), 5), Shl(Slice(w, 6, 2), 1)), Shl(Slice(w, 12, 6), 6))
  }

  /** The bit `mask1 = 1 << k` each sign-extending decoder treats as sign. */
  function SignBit(c: Class): nat
    requires HasImmediate(c) && c != U
  {
    match c
    case I | S => 11
    case B => 12
    case J => 20
    case CI => 5
    case CSS => 7
    case CIW => 9
    case CL => 6
    case CS => 4
    case CB => 8
    case CJ => 10
  }

  /** The operand fields of word `w` at `address`, keys in insertion order.
      `w` is the word as fetched, below 2^32 for a four-byte class and
      below 2^16 for a compressed one: only then do the open-ended slices
      such as `raw_bits[:19:-1]` stop at the word's top bit. */
  function Decode(c: Class, w: nat, address: int): Fields
  {
    match c
    case R =>
      [("rd", Str(XReg(Slice(w, 11, 6)))), ("rs1", Str(XReg(Slice(w, 19, 14)))),
       ("rs2", Str(XReg(Slice(w, 24, 19))))]
    case I =>
      var u := Uimm(I, w);
      [("rd", Str(XReg(Slice(w, 11, 6)))), ("rs1", Str(XReg(Slice(w, 19, 14)))),
       ("uimm", Int(u)), ("imm", Int(SignExtend(u, 11)))]
    case S =>
      var u := Uimm(S, w);
      [("rs1", Str(XReg(Slice(w, 19, 14)))), ("rs2", Str(XReg(Slice(w, 24, 19)))),
       ("uimm", Int(u)), ("imm", Int(SignExtend(u, 11)))]
    case B =>
      var u := Uimm(B, w);
      [("rs1", Str(XReg(Slice(w, 19, 14)))), ("rs2", Str(XReg(Slice(w, 24, 19)))),
       ("uimm", Str(Hex(address + u))), ("imm", Str(Hex(address + SignExtend(u, 12))))]
    case U =>
      var u := Uimm(U, w);
      [("rd", Str(XReg(Slice(w, 11, 6)))), ("uimm", Int(u)), ("imm", Int(u))]
    case J =>
      var u := Uimm(J, w);
      [("rd", Str(XReg(Slice(w, 11, 6)))),
       ("uimm", Str(Hex(address + u))), ("imm", Str(Hex(address + SignExtend(u, 20))))]
    case CR =>
      var rds1 := Slice(w, 11, 6);
      [("rs2", Str(XReg(Slice(w, 6, 1)))), ("rs1", Str(XReg(rds1))), ("rd", Str(XReg(rds1)))]
    case CI =>
      var rd := Slice(w, 11, 6);
      var u := Uimm(CI, w);
      [("rd", Str(XReg(rd))), ("rs1", Str(XReg(rd))), ("uimm", Int(u)), ("imm", Int(SignExtend(u, 5)))]
    case CSS =>
      var rd := Slice(w, 11, 6);
      var u := Uimm(CSS, w);
      [("rd", Str(XReg(rd))), ("rs2", Str(XReg(rd))), ("rs1", Str(XReg(rd))),
       ("uimm", Int(u)), ("imm", Int(SignExtend(u, 7)))]
    case CIW =>
      var u := Uimm(CIW, w);
      [("rd", Str(CxReg(Slice(w, 4, 1)))), ("uimm", Int(u)), ("imm", Int(SignExtend(u, 9)))]
    case CL =>
      var u := Uimm(CL, w);
      [("rd", Str(CxReg(Slice(w, 4, 1)))), ("rs1", Str(CxReg(Slice(w, 9, 6)))),
       ("uimm", Int(u)), ("imm", Int(SignExtend(u, 6)))]
    case CS =>
      var rd := Slice(w, 4, 1);
      var u := Uimm(CS, w);
      [("rd", Str(CxReg(rd))), ("rs1", Str(CxReg(rd))), ("rs2", Str(CxReg(Slice(w, 9, 6)))),
       ("uimm", Int(u)), ("imm", Int(SignExtend(u, 4)))]
    case CB =>
      var u := Uimm(CB, w);
      [("rs1", Str(CxReg(Slice(w, 9, 6)))), ("uimm", Int(u)), ("imm", Int(SignExtend(u, 8)))]
    case CJ =>
      var u := Uimm(CJ, w);
      [("uimm", Int(u)), ("imm", Int(SignExtend(u, 10)))]
  }

  // ---------------------------------------------------------------------
  // Reference: where each immediate bit comes from

  /** The instruction bit that supplies bit `j` of the class's immediate,
      read off the format diagrams in the class doc comments and, where the
      code departs from them, off the code's slices. */
  function UimmSource(c: Class, j: nat): Option<nat>
    requires HasImmediate(c)
  {
    match c
    case I => if j <= 11 then Some(20 + j) else None
    case S => if j <= 4 then Some(7 + j) else if j <= 11 then Some(20 + j) else None
    case B =>
      if 1 <= j <= 4 then Some(7 + j) else if 5 <= j <= 10 then Some(20 + j)
      else if j == 11 then Some(7) else if j == 12 then Some(31) else None
    case U => if j <= 19 then Some(12 + j) else None
    case J =>
      if 1 <= j <= 10 then Some(20 + j) else if j == 11 then Some(20)
      else if 12 <= j <= 19 then Some(j) else if j == 20 then Some(31) else None
    case CI => if j <= 4 then Some(2 + j) else if j == 5 then Some(12) else None
    case CSS => if 2 <= j <= 5 then Some(7 + j) else if 6 <= j <= 7 then Some(j + 1) else None
    case CIW =>
      if j == 2 then Some(6) else if j == 3 then Some(5)
      else if 4 <= j <= 5 then Some(j + 7) else if 6 <= j <= 9 then Some(j + 1) else None
    case CL =>
      if j == 2 then Some(5) else if 3 <= j <= 4 then Some(j + 8) else if j == 6 then Some(6) else None
    case CS => if j <= 1 then Some(j + 5) else if 2 <= j <= 4 then Some(j + 8) else None
    case CB =>
      if 1 <= j <= 4 then Some(j + 2) else if j == 5 then Some(2) else if 6 <= j <= 8 then Some(j + 4) else None
    case CJ =>
      if 1 <= j <= 4 then Some(j + 2) else if j == 5 then Some(2) else if 6 <= j <= 11 then Some(j + 1) else None
  }

  /** Bit `j` of the immediate as the reference map gives it. */
  function SourcedBit(c: Class, w: nat, j: nat): nat
    requires HasImmediate(c)
  {
    if UimmSource(c, j).Some? then Bit(w, UimmSource(c, j).value) else 0
  }

  /** The highest immediate bit a class fills. */
  function TopBit(c: Class): nat
    requires HasImmediate(c)
  {
    match c
    case I | S => 11
    case B => 12
    case U => 19
    case J => 20
    case CI => 5
    case CSS => 7
    case CIW => 9
    case CL => 6
    case CS => 4
    case CB => 8
    case CJ => 11
  }
}
