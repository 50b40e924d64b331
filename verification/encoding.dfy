/** The fourteen encoding classes of the custom-instruction catalog and what
    each one contributes to matching: the fixed-bit pattern built from the
    entry's opcode and funct attributes, the select mask, and the length in
    bytes (`Insn.gen_*_instr`, `Insn.gen_*_mask`, `self.len` in
    custominsn.py). */
module Encoding {
  import opened Wrappers
  import opened Bits

  datatype Class = R | I | S | B | U | J | CR | CI | CSS | CIW | CL | CS | CB | CJ

  /** The C-extension classes. */
  predicate Compressed(c: Class)
  {
    c.CR? || c.CI? || c.CSS? || c.CIW? || c.CL? || c.CS? || c.CB? || c.CJ?
  }

  /** `self.len`: bytes per instruction. */
  function Length(c: Class): nat
  {
    if Compressed(c) then 2 else 4
  }

  /** The funct attributes each class's constructor reads, in reading order. */
  function FunctNames(c: Class): seq<string>
  {
    match c
    case R => ["funct3", "funct7"]
    case U | J => []
    case CR => ["funct4"]
    case _ => ["funct3"]
  }

  /** One catalog entry. `typeName` is the `type` attribute as written (it
      may be an alias such as `SB`); funct values a class does not read stay
      `None`, as in `Insn.__init__`. */
  datatype Insn = Insn(
    cls: Class,
    opcode: nat,
    template: string,
    typeName: string,
    funct3: Option<nat>,
    funct4: Option<nat>,
    funct7: Option<nat>)

  /** The funct values present are exactly those the class reads. */
  predicate Valid(e: Insn)
  {
    && e.funct3.Some? == ("funct3" in FunctNames(e.cls))
    && e.funct4.Some? == ("funct4" in FunctNames(e.cls))
    && e.funct7.Some? == ("funct7" in FunctNames(e.cls))
  }

  /** `self.insn`: the fixed bits an instruction word must carry. */
  function Fixed(e: Insn): nat
    requires Valid(e)
  {
    match e.cls
    case R => Or(Or(e.opcode, Shl(e.funct3.value, 12)), Shl(e.funct7.value, 25))
    case I | S | B => Or(e.opcode, Shl(e.funct3.value, 12))
    case U | J => e.opcode
    case CR => Or(e.opcode, Shl(e.funct4.value, 12))
    case _ => Or(e.opcode, Shl(e.funct3.value, 13))
  }

  /** `self.mask`: the bits of the word the fixed pattern constrains. */
  function Mask(c: Class): nat
  {
    match c
    case R => Or(Or(0x7f, Shl(0x7, 12)), Shl(0x7f, 25))
    case I | S | B => Or(0x7f, Shl(0x7, 12))
    case U | J => 0x7f
    case CR => Or(0x3, Shl(0xf, 12))
    case _ => Or(0x3, Shl(0x7, 13))
  }

  /** `compare_with_insn`: the request length must equal the entry's, and
      the masked word must equal the fixed bits. */
  predicate Matches(e: Insn, word: nat, len: nat)
    requires Valid(e)
  {
    len == Length(e.cls) && And(word, Mask(e.cls)) == Fixed(e)
  }

  // ---------------------------------------------------------------------
  // Reference: the instruction formats' opcode and funct positions

  /** Width of the opcode field: bits 6..0, or 1..0 for compressed classes. */
  function OpcodeWidth(c: Class): nat
  {
    if Compressed(c) then 2 else 7
  }

  /** Lowest bit of funct3: 12 (bits 14..12), or 13 for compressed (15..13). */
  function Funct3Low(c: Class): nat
  {
    if Compressed(c) then 13 else 12
  }

  /** Attribute values fit their fields. */
  predicate WellSized(e: Insn)
  {
    && e.opcode < Pow2(OpcodeWidth(e.cls))
    && (e.funct3.Some? ==> e.funct3.value < 8)
    && (e.funct4.Some? ==> e.funct4.value < 16)
    && (e.funct7.Some? ==> e.funct7.value < 128)
  }

  /** The word carries the entry's opcode and funct values in the fields the
      format diagrams give them. */
  predicate FieldsAgree(e: Insn, word: nat)
  {
    && Field(word, OpcodeWidth(e.cls) - 1, 0) == e.opcode
    && (e.funct3.Some? ==> Field(word, Funct3Low(e.cls) + 2, Funct3Low(e.cls)) == e.funct3.value)
    && (e.funct4.Some? ==> Field(word, 15, 12) == e.funct4.value)
    && (e.funct7.Some? ==> Field(word, 31, 25) == e.funct7.value)
  }

  // ---------------------------------------------------------------------
  // Lemmas

  /** The masks as constants. */
  lemma MaskValue(c: Class)
    ensures Mask(c) == (match c
      case R => 0xfe00707f
      case I | S | B => 0x707f
      case U | J => 0x7f
      case CR => 0xf003
      case _ => 0xe003)
  {
    Pow2Values();
    match c
    case R =>
      OrPlaced(0x7f, 0x7, 12);
      OrPlaced(0x707f, 0x7f, 25);
    case I | S | B =>
      OrPlaced(0x7f, 0x7, 12);
    case U | J =>
    case CR =>
      OrPlaced(0x3, 0xf, 12);
    case CI | CSS | CIW | CL | CS | CB | CJ =>
      OrPlaced(0x3, 0x7, 13);
  }

  lemma LowMatch(w: nat, n: nat, op: nat)
    requires n >= 1
    ensures And(w, Pow2(n) - 1) == op <==> Field(w, n - 1, 0) == op
  {
    AndLowMask(w, n);
  }

  /** Adding a run of `n` mask ones at bit `k` adds one field comparison. */
  lemma PieceMatch(w: nat, m0: nat, f0: nat, n: nat, k: nat, v: nat)
    requires m0 < Pow2(k) && f0 < Pow2(k) && 1 <= n && v < Pow2(n)
    ensures And(w, Or(m0, Shl(Pow2(n) - 1, k))) == Or(f0, Shl(v, k)) <==>
      And(w, m0) == f0 && Field(w, k + n - 1, k) == v
  {
    AndOrDistrib(w, m0, Shl(Pow2(n) - 1, k));
    AndShiftedOnes(w, n, k);
    AndLe(w, m0);
    OrPlaced(And(w, m0), Field(w, k + n - 1, k), k);
    OrPlaced(f0, v, k);
    SplitUnique(And(w, m0), Field(w, k + n - 1, k), f0, v, k);
  }

  lemma BaseMaskLow()
    ensures Or(0x7f, Shl(0x7, 12)) == 0x707f
  {
    OrPlaced(0x7f, 0x7, 12);
  }

  lemma FixedLowBound(op: nat, f3: nat)
    requires op < 0x80 && f3 < 8
    ensures Or(op, Shl(f3, 12)) < Pow2(25)
  {
    Pow2Values();
    OrPlaced(op, f3, 12);
  }

  /** The funct7 run of the R mask adds the comparison of bits 31..25. */
  lemma Funct7Piece(w: nat, op: nat, f3: nat, f7: nat)
    requires op < 0x80 && f3 < 8 && f7 < 0x80
    ensures And(w, Or(0x707f, Shl(0x7f, 25))) == Or(Or(op, Shl(f3, 12)), Shl(f7, 25)) <==>
      And(w, 0x707f) == Or(op, Shl(f3, 12)) && Field(w, 31, 25) == f7
  {
    FixedLowBound(op, f3);
    Pow2Values();
    assert Pow2(7) - 1 == 0x7f;
    PieceMatch(w, 0x707f, Or(op, Shl(f3, 12)), 7, 25, f7);
  }

  /** The funct3 run of the base masks adds the comparison of bits 14..12. */
  lemma Funct3Piece(w: nat, op: nat, f3: nat)
    requires op < 0x80 && f3 < 8
    ensures And(w, Or(0x7f, Shl(0x7, 12))) == Or(op, Shl(f3, 12)) <==>
      Field(w, 6, 0) == op && Field(w, 14, 12) == f3
  {
    assert Pow2(7) - 1 == 0x7f && Pow2(3) - 1 == 0x7;
    PieceMatch(w, 0x7f, op, 3, 12, f3);
    LowMatch(w, 7, op);
  }

  lemma MatchesIffR(e: Insn, word: nat, len: nat)
    requires Valid(e) && WellSized(e) && e.cls == R
    ensures Matches(e, word, len) <==> len == Length(e.cls) && FieldsAgree(e, word)
  {
    var op, f3, f7 := e.opcode, e.funct3.value, e.funct7.value;
    BaseMaskLow();
    assert Mask(e.cls) == Or(0x707f, Shl(0x7f, 25));
    assert Fixed(e) == Or(Or(op, Shl(f3, 12)), Shl(f7, 25));
    assert FieldsAgree(e, word) <==>
      Field(word, 6, 0) == op && Field(word, 14, 12) == f3 && Field(word, 31, 25) == f7;
    Funct7Piece(word, op, f3, f7);
    Funct3Piece(word, op, f3);
  }

  lemma MatchesIffFunct3(e: Insn, word: nat, len: nat)
    requires Valid(e) && WellSized(e) && (e.cls == I || e.cls == S || e.cls == B)
    ensures Matches(e, word, len) <==> len == Length(e.cls) && FieldsAgree(e, word)
  {
    var op, f3 := e.opcode, e.funct3.value;
    assert Mask(e.cls) == Or(0x7f, Shl(0x7, 12));
    assert Fixed(e) == Or(op, Shl(f3, 12));
    assert FieldsAgree(e, word) <==> Field(word, 6, 0) == op && Field(word, 14, 12) == f3;
    Funct3Piece(word, op, f3);
  }

  lemma MatchesIffOpcodeOnly(e: Insn, word: nat, len: nat)
    requires Valid(e) && (e.cls == U || e.cls == J)
    ensures Matches(e, word, len) <==> len == Length(e.cls) && FieldsAgree(e, word)
  {
    assert Pow2(7) - 1 == 0x7f;
    LowMatch(word, 7, e.opcode);
  }

  lemma MatchesIffCompressed(e: Insn, word: nat, len: nat)
    requires Valid(e) && WellSized(e) && Compressed(e.cls)
    ensures Matches(e, word, len) <==> len == Length(e.cls) && FieldsAgree(e, word)
  {
    assert Pow2(2) - 1 == 0x3;
    LowMatch(word, 2, e.opcode);
    if e.cls == CR {
      assert Pow2(4) - 1 == 0xf;
      PieceMatch(word, 0x3, e.opcode, 4, 12, e.funct4.value);
    } else {
      assert Pow2(3) - 1 == 0x7;
      PieceMatch(word, 0x3, e.opcode, 3, 13, e.funct3.value);
    }
  }

  /** For entries whose attributes fit their fields, matching is exactly:
      the right length, and the word's opcode and funct fields hold the
      entry's values. */
  lemma MatchesIff(e: Insn, word: nat, len: nat)
    requires Valid(e) && WellSized(e)
    ensures Matches(e, word, len) <==> len == Length(e.cls) && FieldsAgree(e, word)
  {
    if e.cls == R {
      MatchesIffR(e, word, len);
    } else if e.cls == I || e.cls == S || e.cls == B {
      MatchesIffFunct3(e, word, len);
    } else if e.cls == U || e.cls == J {
      MatchesIffOpcodeOnly(e, word, len);
    } else {
      MatchesIffCompressed(e, word, len);
    }
  }

  /** A fixed bit outside the mask can never be produced by masking, so
      such an entry matches no word. */
  lemma NeverMatchesOutsideMask(e: Insn, word: nat, len: nat, i: nat)
    requires Valid(e) && Bit(Fixed(e), i) == 1 && Bit(Mask(e.cls), i) == 0
    ensures !Matches(e, word, len)
  {
    AndEqualsIff(word, Mask(e.cls), Fixed(e));
  }

  /** A U or J entry whose opcode does not fit seven bits matches nothing. */
  lemma WideOpcodeNeverMatches(e: Insn, word: nat, len: nat)
    requires Valid(e) && (e.cls == U || e.cls == J) && e.opcode >= 0x80
    ensures !Matches(e, word, len)
  {
    assert Pow2(7) - 1 == 0x7f;
    AndLowMask(word, 7);
  }

  /** An I-type entry with `funct3 = 8` sets fixed bit 15, outside the mask. */
  lemma OversizeFunct3NeverMatches(opcode: nat, word: nat, len: nat)
    requires opcode < 0x80
    ensures !Matches(Insn(I, opcode, "", "I", Some(8), None, None), word, len)
  {
    var e := Insn(I, opcode, "", "I", Some(8), None, None);
    Pow2Values();
    OrPlaced(opcode, 8, 12);
    assert Fixed(e) == opcode + 8 * Pow2(12);
    BitPlaced(opcode, 8, 12, 15);
    assert Bit(8, 3) == 1;
    MaskValue(I);
    assert Bit(0x707f, 15) == 0;
    NeverMatchesOutsideMask(e, word, len, 15);
  }

  /** A request of the other length never matches. */
  lemma LengthGate(e: Insn, word: nat, len: nat)
    requires Valid(e) && Compressed(e.cls) != (len == 2)
    requires len == 2 || len == 4
    ensures !Matches(e, word, len)
  {
  }
}
