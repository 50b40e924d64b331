/** Properties of the operand decoders: each immediate is exactly the bits
    the reference map names, which bounds it, fixes its low zero bits and
    shows which instruction bits it ignores; sign extension yields the
    two's-complement value; register fields name table entries. */
module OperandFacts {
  import opened Wrappers
  import opened Bits
  import opened Text
  import opened RawBits
  import opened Encoding
  import opened Operands

  /** `Get` finds the first entry with the key. */
  lemma {:induction false} GetAt(fs: Fields, i: nat, key: string)
    requires i < |fs| && fs[i].0 == key
    requires forall j :: 0 <= j < i ==> fs[j].0 != key
    ensures Get(fs, key) == Some(fs[i].1)
    decreases i
  {
    if i > 0 {
      GetAt(fs[1..], i - 1, key);
    }
  }

  // ---------------------------------------------------------------------
  // Bits of shifted slices

  lemma BitShlSlice(w: nat, start: nat, stop: nat, k: nat, j: nat)
    requires stop < start
    ensures Bit(Shl(Slice(w, start, stop), k), j) ==
      (if k <= j < k + start - stop then Bit(w, stop + 1 + j - k) else 0)
  {
    BitShiftedField(w, start, stop + 1, k, j);
  }

  lemma BitShlBitAt(w: nat, p: nat, k: nat, j: nat)
    ensures Bit(Shl(BitAt(w, p), k), j) == (if j == k then Bit(w, p) else 0)
  {
    assert BitAt(w, p) == Field(w, p, p);
    BitShiftedField(w, p, p, k, j);
  }

  // ---------------------------------------------------------------------
  // Each decoder's immediate follows the reference map

  lemma UimmBitsI(w: nat, j: nat)
    ensures Bit(Uimm(I, w), j) == SourcedBit(I, w, j)
  {
    BitShlSlice(w, 31, 19, 0, j);
  }

  lemma UimmBitsS(w: nat, j: nat)
    ensures Bit(Uimm(S, w), j) == SourcedBit(S, w, j)
  {
    BitOr(Slice(w, 11, 6), Shl(Slice(w, 31, 24), 5), j);
    BitShlSlice(w, 11, 6, 0, j);
    BitShlSlice(w, 31, 24, 5, j);
  }

  lemma UimmBitsB(w: nat, j: nat)
    ensures Bit(Uimm(B, w), j) == SourcedBit(B, w, j)
  {
    var a, b, c, d := Shl(Slice(w, 11, 7), 1), Shl(Slice(w, 30, 24), 5), Shl(BitAt(w, 7), 11), Shl(BitAt(w, 31), 12);
    BitOr(Or(Or(a, b), c), d, j);
    BitOr(Or(a, b), c, j);
    BitOr(a, b, j);
    BitShlSlice(w, 11, 7, 1, j);
    BitShlSlice(w, 30, 24, 5, j);
    BitShlBitAt(w, 7, 11, j);
    BitShlBitAt(w, 31, 12, j);
  }

  lemma UimmBitsU(w: nat, j: nat)
    ensures Bit(Uimm(U, w), j) == SourcedBit(U, w, j)
  {
    var x := Slice(w, 31, 11);
    DivUnique(Shl(x, 12), Pow2(12), x, 0);
    assert Uimm(U, w) == x;
    BitShlSlice(w, 31, 11, 0, j);
  }

  lemma UimmBitsJ(w: nat, j: nat)
    ensures Bit(Uimm(J, w), j) == SourcedBit(J, w, j)
  {
    var a, b, c, d := Shl(Slice(w, 19, 11), 12), Shl(BitAt(w, 20), 11), Shl(Slice(w, 30, 20), 1), Shl(BitAt(w, 31), 20);
    BitOr(Or(Or(a, b), c), d, j);
    BitOr(Or(a, b), c, j);
    BitOr(a, b, j);
    BitShlSlice(w, 19, 11, 12, j);
    BitShlBitAt(w, 20, 11, j);
    BitShlSlice(w, 30, 20, 1, j);
    BitShlBitAt(w, 31, 20, j);
  }

  lemma UimmBitsCI(w: nat, j: nat)
    ensures Bit(Uimm(CI, w), j) == SourcedBit(CI, w, j)
  {
    BitOr(Slice(w, 6, 1), Shl(BitAt(w, 12), 5), j);
    BitShlSlice(w, 6, 1, 0, j);
    BitShlBitAt(w, 12, 5, j);
  }

  lemma UimmBitsCSS(w: nat, j: nat)
    ensures Bit(Uimm(CSS, w), j) == SourcedBit(CSS, w, j)
  {
    BitOr(Shl(Slice(w, 12, 8), 2), Shl(Slice(w, 8, 6), 6), j);
    BitShlSlice(w, 12, 8, 2, j);
    BitShlSlice(w, 8, 6, 6, j);
  }

  lemma UimmBitsCIW(w: nat, j: nat)
    ensures Bit(Uimm(CIW, w), j) == SourcedBit(CIW, w, j)
  {
    var a, b, c, d := Shl(BitAt(w, 5), 3), Shl(BitAt(w, 6), 2), Shl(Slice(w, 12, 10), 4), Shl(Slice(w, 10, 6), 6);
    BitOr(Or(Or(a, b), c), d, j);
    BitOr(Or(a, b), c, j);
    BitOr(a, b, j);
    BitShlBitAt(w, 5, 3, j);
    BitShlBitAt(w, 6, 2, j);
    BitShlSlice(w, 12, 10, 4, j);
    BitShlSlice(w, 10, 6, 6, j);
  }

  lemma UimmBitsCL(w: nat, j: nat)
    ensures Bit(Uimm(CL, w), j) == SourcedBit(CL, w, j)
  {
    var a, b, c := Shl(BitAt(w, 5), 2), Shl(BitAt(w, 6), 6), Shl(Slice(w, 12, 10), 3);
    BitOr(Or(a, b), c, j);
    BitOr(a, b, j);
    BitShlBitAt(w, 5, 2, j);
    BitShlBitAt(w, 6, 6, j);
    BitShlSlice(w, 12, 10, 3, j);
  }

  lemma UimmBitsCS(w: nat, j: nat)
    ensures Bit(Uimm(CS, w), j) == SourcedBit(CS, w, j)
  {
    BitOr(Shl(Slice(w, 6, 4), 0), Shl(Slice(w, 12, 9), 2), j);
    BitShlSlice(w, 6, 4, 0, j);
    BitShlSlice(w, 12, 9, 2, j);
  }

  lemma UimmBitsCB(w: nat, j: nat)
    ensures Bit(Uimm(CB, w), j) == SourcedBit(CB, w, j)
  {
    var a, b, c := Shl(BitAt(w, 2), 5), Shl(Slice(w, 6, 2), 1), Shl(Slice(w, 12, 9), 6);
    BitOr(Or(a, b), c, j);
    BitOr(a, b, j);
    BitShlBitAt(w, 2, 5, j);
    BitShlSlice(w, 6, 2, 1, j);
    BitShlSlice(w, 12, 9, 6, j);
  }

  lemma UimmBitsCJ(w: nat, j: nat)
    ensures Bit(Uimm(CJ, w), j) == SourcedBit(CJ, w, j)
  {
    var a, b, c := Shl(BitAt(w, 2), 5), Shl(Slice(w, 6, 2), 1), Shl(Slice(w, 12, 6), 6);
    BitOr(Or(a, b), c, j);
    BitOr(a, b, j);
    BitShlBitAt(w, 2, 5, j);
    BitShlSlice(w, 6, 2, 1, j);
    BitShlSlice(w, 12, 6, 6, j);
  }

  /** Every bit of every decoder's immediate is the instruction bit the
      reference map names, and 0 where the map names none. */
  lemma UimmBits(c: Class, w: nat, j: nat)
    requires HasImmediate(c)
    ensures Bit(Uimm(c, w), j) == SourcedBit(c, w, j)
  {
    match c
    case I => UimmBitsI(w, j);
    case S => UimmBitsS(w, j);
    case B => UimmBitsB(w, j);
    case U => UimmBitsU(w, j);
    case J => UimmBitsJ(w, j);
    case CI => UimmBitsCI(w, j);
    case CSS => UimmBitsCSS(w, j);
    case CIW => UimmBitsCIW(w, j);
    case CL => UimmBitsCL(w, j);
    case CS => UimmBitsCS(w, j);
    case CB => UimmBitsCB(w, j);
    case CJ => UimmBitsCJ(w, j);
  }

  // ---------------------------------------------------------------------
  // Consequences of the map

  /** The immediate fits in `TopBit(c) + 1` bits. */
  lemma UimmBound(c: Class, w: nat)
    requires HasImmediate(c)
    ensures Uimm(c, w) < Pow2(TopBit(c) + 1)
  {
    forall i: nat | TopBit(c) + 1 <= i
      ensures Bit(Uimm(c, w), i) == 0
    {
      UimmBits(c, w, i);
    }
    BoundFromBits(Uimm(c, w), TopBit(c) + 1);
  }

  /** Bit 0 of an immediate is bit 0 of the number, so no source for
      it makes the immediate even. */
  lemma UimmEven(c: Class, w: nat)
    requires HasImmediate(c) && UimmSource(c, 0).None?
    ensures Uimm(c, w) % 2 == 0
  {
    UimmBits(c, w, 0);
  }

  /** B and J offsets and the CB, CJ, CSS, CIW and CL immediates are even. */
  lemma UimmEvenClasses(c: Class, w: nat)
    requires c == B || c == J || c == CB || c == CJ || c == CSS || c == CIW || c == CL
    ensures Uimm(c, w) % 2 == 0
  {
    UimmEven(c, w);
  }

  lemma LowTwoBitsClear(u: nat)
    requires Bit(u, 0) == 0 && Bit(u, 1) == 0
    ensures u % 4 == 0
  {
    assert u % 2 == 0;
    assert (u / 2) % 2 == 0;
    var q := (u / 2) / 2;
    assert u == 4 * q;
    DivUnique(u, 4, q, 0);
  }

  /** CSS, CIW and CL immediates are multiples of four; CL also has bit 5
      clear. */
  lemma UimmScaled(c: Class, w: nat)
    requires c == CSS || c == CIW || c == CL
    ensures Uimm(c, w) % 4 == 0
    ensures c == CL ==> Bit(Uimm(c, w), 5) == 0
  {
    if c == CSS {
      UimmBitsCSS(w, 0);
      UimmBitsCSS(w, 1);
    } else if c == CIW {
      UimmBitsCIW(w, 0);
      UimmBitsCIW(w, 1);
    } else {
      UimmBitsCL(w, 0);
      UimmBitsCL(w, 1);
      UimmBitsCL(w, 5);
    }
    LowTwoBitsClear(Uimm(c, w));
  }

  /** Two words that agree on every source bit give the same immediate. */
  lemma UimmFromSources(c: Class, w: nat, w': nat)
    requires HasImmediate(c)
    requires forall p: nat :: (exists j: nat :: UimmSource(c, j) == Some(p)) ==> Bit(w, p) == Bit(w', p)
    ensures Uimm(c, w) == Uimm(c, w')
  {
    forall j: nat
      ensures Bit(Uimm(c, w), j) == Bit(Uimm(c, w'), j)
    {
      UimmBits(c, w, j);
      UimmBits(c, w', j);
      if UimmSource(c, j).Some? {
        var p := UimmSource(c, j).value;
        assert UimmSource(c, j) == Some(p);
      }
    }
    BitExt(Uimm(c, w), Uimm(c, w'));
  }

  /** CL assembles bits 12..11 for `uimm[4:3]` and never reads bit 10,
      although the format diagram gives the field as 12:10. */
  lemma ClIgnoresBit10(w: nat, w': nat)
    requires forall p: nat :: p != 10 ==> Bit(w, p) == Bit(w', p)
    ensures Uimm(CL, w) == Uimm(CL, w')
  {
    forall p: nat | exists j: nat :: UimmSource(CL, j) == Some(p)
      ensures Bit(w, p) == Bit(w', p)
    {
      var j: nat :| UimmSource(CL, j) == Some(p);
    }
    UimmFromSources(CL, w, w');
  }

  // ---------------------------------------------------------------------
  // Sign extension

  /** Sign extension keeps the low `k` bits and subtracts bit `k`'s weight. */
  lemma SignExtendValue(u: nat, k: nat)
    ensures SignExtend(u, k) == u % Pow2(k) - Bit(u, k) * Pow2(k)
  {
    AndLowMask(u, k);
    AndPow2(u, k);
  }

  /** The result always lies in `[-2^k, 2^k - 1]`. */
  lemma SignExtendRange(u: nat, k: nat)
    ensures -(Pow2(k) as int) <= SignExtend(u, k) <= Pow2(k) - 1
  {
    SignExtendValue(u, k);
  }

  /** On a `k + 1`-bit value this is the two's-complement reading. */
  lemma SignExtendTwosComplement(u: nat, k: nat)
    requires u < Pow2(k + 1)
    ensures SignExtend(u, k) == (if u < Pow2(k) then u else u - Pow2(k + 1))
  {
    SignExtendValue(u, k);
    var p := Pow2(k);
    assert Pow2(k + 1) == 2 * p;
    if u < p {
      DivUnique(u, p, 0, u);
    } else {
      DivUnique(u, p, 1, u - p);
    }
  }

  /** Sign extension only looks at bits `0..k`. */
  lemma SignExtendLowBits(u: nat, u': nat, k: nat)
    requires forall i: nat :: i <= k ==> Bit(u, i) == Bit(u', i)
    ensures SignExtend(u, k) == SignExtend(u', k)
  {
    SignExtendValue(u, k);
    SignExtendValue(u', k);
    forall i: nat
      ensures Bit(u % Pow2(k), i) == Bit(u' % Pow2(k), i)
    {
      BitMod(u, k, i);
      BitMod(u', k, i);
    }
    BitExt(u % Pow2(k), u' % Pow2(k));
  }

  /** For every sign-extending class except CJ the sign bit is the top
      immediate bit, so `imm` is the two's-complement value of `uimm`. */
  lemma ImmIsTwosComplement(c: Class, w: nat)
    requires HasImmediate(c) && c != U && c != CJ
    ensures SignBit(c) == TopBit(c)
    ensures var u := Uimm(c, w); var k := SignBit(c);
      SignExtend(u, k) == (if u < Pow2(k) then u else u - Pow2(k + 1))
  {
    UimmBound(c, w);
    SignExtendTwosComplement(Uimm(c, w), SignBit(c));
  }

  /** CJ's bit 12 lands in `uimm[11]`, above the sign bit 10, so the signed
      immediate does not depend on it. */
  lemma CjImmIgnoresBit12(w: nat, w': nat)
    requires forall p: nat :: p != 12 ==> Bit(w, p) == Bit(w', p)
    ensures SignExtend(Uimm(CJ, w), 10) == SignExtend(Uimm(CJ, w'), 10)
  {
    forall i: nat | i <= 10
      ensures Bit(Uimm(CJ, w), i) == Bit(Uimm(CJ, w'), i)
    {
      UimmBits(CJ, w, i);
      UimmBits(CJ, w', i);
    }
    SignExtendLowBits(Uimm(CJ, w), Uimm(CJ, w'), 10);
  }

  /** The word with only bit 12 set: `uimm` is 2048 but `imm` is 0. */
  lemma CjBit12Example()
    ensures Uimm(CJ, 0x1000) == 0x800 && SignExtend(Uimm(CJ, 0x1000), 10) == 0
  {
    Pow2Values();
    var w := 0x1000;
    forall j: nat
      ensures Bit(Uimm(CJ, w), j) == Bit(0x800, j)
    {
      UimmBits(CJ, w, j);
      assert w == 0 + 1 * Pow2(12);
      BitPlaced(0, 1, 12, j + 1);
      BitPow2(11, j);
      BitPow2(12, j + 1);
      assert Pow2(11) == 0x800;
      if UimmSource(CJ, j).Some? {
        BitPow2(12, UimmSource(CJ, j).value);
      }
    }
    BitExt(Uimm(CJ, w), 0x800);
    SignExtendValue(0x800, 10);
    BitPow2(11, 10);
    assert Pow2(10) == 0x400;
    DivUnique(0x800, 0x400, 2, 0);
  }

  /** The I-type immediate: raw `0x800` reads as -2048 and `0x7ff` as 2047. */
  lemma IImmExamples()
    ensures SignExtend(0x800, 11) == -2048
    ensures SignExtend(0x7ff, 11) == 2047
  {
    SignExtendTwosComplement(0x800, 11);
    SignExtendTwosComplement(0x7ff, 11);
  }

  // ---------------------------------------------------------------------
  // Branch and jump targets

  /** Sign extension of an even value is even and at most `2^k - 2`. */
  lemma SignExtendEven(u: nat, k: nat)
    requires u % 2 == 0 && k >= 1
    ensures SignExtend(u, k) % 2 == 0
    ensures -(Pow2(k) as int) <= SignExtend(u, k) <= Pow2(k) - 2
  {
    SignExtendValue(u, k);
    var p, h := Pow2(k), Pow2(k - 1);
    assert p == 2 * h;
    var m := u % p;
    assert m % 2 == 0 by {
      BitMod(u, k, 0);
      assert Bit(m, 0) == m % 2 && Bit(u, 0) == u % 2;
    }
    var t := m / 2;
    assert m == 2 * t && t < h;
    var e := if Bit(u, k) == 0 then t else t - h;
    assert SignExtend(u, k) == 2 * e;
    Twice(e);
  }

  lemma Twice(e: int)
    ensures (2 * e) % 2 == 0
  {
  }

  /** B and J: the signed offset is even and within `[-2^k, 2^k - 2]`. */
  lemma TargetOffset(c: Class, w: nat)
    requires c == B || c == J
    ensures var off := SignExtend(Uimm(c, w), SignBit(c));
      off % 2 == 0 && -(Pow2(SignBit(c)) as int) <= off <= Pow2(SignBit(c)) - 2
  {
    if c == B {
      UimmBitsB(w, 0);
      SignExtendEven(Uimm(B, w), 12);
    } else {
      UimmBitsJ(w, 0);
      SignExtendEven(Uimm(J, w), 20);
    }
  }

  /** Where B keeps its hex fields. */
  lemma TargetEntriesB(c: Class, w: nat, address: int)
    requires c == B
    ensures var u := Uimm(c, w);
      && Get(Decode(c, w, address), "imm") == Some(Str(Hex(address + SignExtend(u, SignBit(c)))))
      && Get(Decode(c, w, address), "uimm") == Some(Str(Hex(address + u)))
  {
    var fs := Decode(B, w, address);
    assert fs[0].0[0] == 'r' && fs[1].0[0] == 'r';
    GetAt(fs, 2, "uimm");
    GetAt(fs, 3, "imm");
  }

  /** Where J keeps its hex fields. */
  lemma TargetEntriesJ(c: Class, w: nat, address: int)
    requires c == J
    ensures var u := Uimm(c, w);
      && Get(Decode(c, w, address), "imm") == Some(Str(Hex(address + SignExtend(u, SignBit(c)))))
      && Get(Decode(c, w, address), "uimm") == Some(Str(Hex(address + u)))
  {
    var fs := Decode(J, w, address);
    assert fs[0].0[0] == 'r';
    GetAt(fs, 1, "uimm");
    GetAt(fs, 2, "imm");
  }

  /** Where B and J keep their hex fields. */
  lemma TargetEntries(c: Class, w: nat, address: int)
    requires c == B || c == J
    ensures var u := Uimm(c, w);
      && Get(Decode(c, w, address), "imm") == Some(Str(Hex(address + SignExtend(u, SignBit(c)))))
      && Get(Decode(c, w, address), "uimm") == Some(Str(Hex(address + u)))
  {
    if c == B {
      TargetEntriesB(c, w, address);
    } else {
      TargetEntriesJ(c, w, address);
    }
  }

  /** B and J: `imm` is the hex text of `address + offset` and `uimm` that
      of `address + uimm`; both parse back with `int(_, 16)`. */
  lemma TargetFields(c: Class, w: nat, address: int)
    requires c == B || c == J
    ensures Get(Decode(c, w, address), "imm") == Some(Str(Hex(address + SignExtend(Uimm(c, w), SignBit(c)))))
    ensures Get(Decode(c, w, address), "uimm") == Some(Str(Hex(address + Uimm(c, w))))
    ensures ParseHexInt(Hex(address + SignExtend(Uimm(c, w), SignBit(c)))) ==
      Some(address + SignExtend(Uimm(c, w), SignBit(c)))
    ensures ParseHexInt(Hex(address + Uimm(c, w))) == Some(address + Uimm(c, w))
  {
    TargetEntries(c, w, address);
    ParseHexIntOfHex(address + SignExtend(Uimm(c, w), SignBit(c)));
    ParseHexIntOfHex(address + Uimm(c, w));
  }

  // ---------------------------------------------------------------------
  // Registers

  /** CSS takes its register from bits 11..7, which also feed the
      immediate: the register number is `uimm[7:6] + 4 * uimm[4:2]`. */
  lemma CssRegisterIndex(w: nat)
    ensures var u := Uimm(CSS, w); Slice(w, 11, 6) == Field(u, 7, 6) + 4 * Field(u, 4, 2)
  {
    var u := Uimm(CSS, w);
    var lo, hi := Field(u, 7, 6), Field(u, 4, 2);
    FieldBound(u, 7, 6);
    forall j: nat
      ensures Bit(Slice(w, 11, 6), j) == Bit(lo + hi * Pow2(2), j)
    {
      BitField(w, 11, 7, j);
      BitPlaced(lo, hi, 2, j);
      BitField(u, 7, 6, j);
      UimmBitsCSS(w, 6 + j);
      if j >= 2 {
        BitField(u, 4, 2, j - 2);
        UimmBitsCSS(w, j);
      }
    }
    BitExt(Slice(w, 11, 6), lo + hi * Pow2(2));
  }

  /** So the CSS register name is fixed by the immediate. */
  lemma CssRegisterFromImmediate(w: nat, address: int)
    ensures var u := Uimm(CSS, w);
      Decode(CSS, w, address)[0] == ("rd", Str(XReg(Field(u, 7, 6) + 4 * Field(u, 4, 2))))
  {
    CssRegisterIndex(w);
  }

  lemma CssTestWordFields(w: nat)
    requires w == 0xc792
    ensures Slice(w, 11, 6) == 15 && Uimm(CSS, w) == 204
  {
    Pow2Values();
    assert Slice(w, 11, 6) == 15;
    assert Slice(w, 12, 8) == 3 && Slice(w, 8, 6) == 3;
    OrPlaced(12, 3, 6);
  }

  /** The test word for `.insn css 0x2, 0x6, x4, 15`: register a5 (not the
      `x4` written as rs2) and `uimm` 204. */
  lemma XRegA5()
    ensures XReg(15) == "a5"
  {
  }

  lemma CssTestWord(w: nat)
    requires w == 0xc792
    ensures Decode(CSS, w, 0) ==
      [("rd", Str("a5")), ("rs2", Str("a5")), ("rs1", Str("a5")), ("uimm", Int(204)), ("imm", Int(-52))]
  {
    CssTestWordFields(w);
    var r, u := Slice(w, 11, 6), Uimm(CSS, w);
    assert Decode(CSS, w, 0) ==
      [("rd", Str(XReg(r))), ("rs2", Str(XReg(r))), ("rs1", Str(XReg(r))),
       ("uimm", Int(u)), ("imm", Int(SignExtend(u, 7)))];
    assert Pow2(7) == 128 && Pow2(8) == 256;
    SignExtendTwosComplement(u, 7);
    assert SignExtend(u, 7) == -52;
    XRegA5();
    assert XReg(r) == "a5";
  }

  /** CR and CI put one register in rd and rs1, CS in rd and rs1, CSS in
      rd, rs2 and rs1. */
  lemma SharedRegisters(c: Class, w: nat, address: int)
    ensures var fs := Decode(c, w, address);
      && (c == CR || c == CI || c == CSS || c == CS ==> Get(fs, "rd") == Get(fs, "rs1"))
      && (c == CSS ==> Get(fs, "rd") == Get(fs, "rs2"))
  {
    var fs := Decode(c, w, address);
    if c == CR {
      GetAt(fs, 2, "rd");
      GetAt(fs, 1, "rs1");
    } else if c == CI || c == CS {
      GetAt(fs, 0, "rd");
      GetAt(fs, 1, "rs1");
    } else if c == CSS {
      GetAt(fs, 0, "rd");
      GetAt(fs, 1, "rs2");
      GetAt(fs, 2, "rs1");
    }
  }
}
