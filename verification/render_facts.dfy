/** What expansion does to decoded fields: `int(imm, 16)` never fails on
    them, `dest` is the wrapped immediate (the branch or jump target for B
    and J), and a template renders as its placeholders filled. */
module RenderFacts {
  import opened Wrappers
  import opened Bits
  import opened Text
  import opened RawBits
  import opened Encoding
  import opened Operands
  import opened OperandFacts
  import opened Render

  /** Every key a decoder or the `dest` step can write. */
  const FieldNames: seq<string> := ["rd", "rs1", "rs2", "uimm", "imm", "dest"]

  /** The integer behind `imm`: the target address for B and J, the shifted
      immediate for U, the sign-extended immediate otherwise. */
  function ImmOf(c: Class, w: nat, address: int): int
    requires HasImmediate(c)
  {
    match c
    case B => address + SignExtend(Uimm(B, w), 12)
    case J => address + SignExtend(Uimm(J, w), 20)
    case U => Uimm(U, w)
    case I | S | CI | CSS | CIW | CL | CS | CB | CJ => SignExtend(Uimm(c, w), SignBit(c))
  }

  /** The fields the substitution loop sees for a decoded word. */
  function Rendered(c: Class, w: nat, address: int, arch: string, formatAddress: int -> string): Fields
  {
    Decode(c, w, address) +
      (if HasImmediate(c) then [("dest", Str(formatAddress(Wrap(ImmOf(c, w, address), arch))))] else [])
  }

  lemma {:induction false} GetAbsent(fs: Fields, key: string)
    requires forall j :: 0 <= j < |fs| ==> fs[j].0 != key
    ensures Get(fs, key) == None
    decreases |fs|
  {
    if |fs| > 0 {
      GetAbsent(fs[1..], key);
    }
  }

  /** The decoders never write `dest`, and R and CR write no `imm`. */
  lemma DecodedNoDest(c: Class, w: nat, address: int)
    ensures Get(Decode(c, w, address), "dest") == None
    ensures !HasImmediate(c) ==> Get(Decode(c, w, address), "imm") == None
  {
    var fs := Decode(c, w, address);
    GetAbsent(fs, "dest");
    if !HasImmediate(c) {
      GetAbsent(fs, "imm");
    }
  }

  /** The `imm` value each decoder writes. */
  function ImmField(c: Class, w: nat, address: int): Value
    requires HasImmediate(c)
  {
    match c
    case B => Str(Hex(address + SignExtend(Uimm(B, w), 12)))
    case J => Str(Hex(address + SignExtend(Uimm(J, w), 20)))
    case U => Int(Uimm(U, w))
    case I | S | CI | CSS | CIW | CL | CS | CB | CJ => Int(SignExtend(Uimm(c, w), SignBit(c)))
  }

  lemma DecodedImmFieldTarget(c: Class, w: nat, address: int)
    requires c == B || c == J
    ensures Get(Decode(c, w, address), "imm") == Some(ImmField(c, w, address))
  {
    var fs := Decode(c, w, address);
    if c == B {
      GetAt(fs, 3, "imm");
    } else {
      GetAt(fs, 2, "imm");
    }
  }

  lemma DecodedImmFieldBase(c: Class, w: nat, address: int)
    requires c == I || c == S || c == U
    ensures Get(Decode(c, w, address), "imm") == Some(ImmField(c, w, address))
  {
    var fs := Decode(c, w, address);
    match c
    case I => GetAt(fs, 3, "imm");
    case S => GetAt(fs, 3, "imm");
    case U => GetAt(fs, 2, "imm");
  }

  lemma DecodedImmFieldWide(c: Class, w: nat, address: int)
    requires c == CI || c == CSS || c == CIW
    ensures Get(Decode(c, w, address), "imm") == Some(ImmField(c, w, address))
  {
    var fs := Decode(c, w, address);
    match c
    case CI => GetAt(fs, 3, "imm");
    case CSS => GetAt(fs, 4, "imm");
    case CIW => GetAt(fs, 2, "imm");
  }

  lemma DecodedImmFieldNarrow(c: Class, w: nat, address: int)
    requires c == CL || c == CS || c == CB || c == CJ
    ensures Get(Decode(c, w, address), "imm") == Some(ImmField(c, w, address))
  {
    var fs := Decode(c, w, address);
    match c
    case CL => GetAt(fs, 3, "imm");
    case CS => GetAt(fs, 4, "imm");
    case CB => GetAt(fs, 2, "imm");
    case CJ => GetAt(fs, 1, "imm");
  }

  /** `int(imm, 16)`, or the int itself, recovers `ImmOf`. */
  lemma ImmFieldReads(c: Class, w: nat, address: int)
    requires HasImmediate(c)
    ensures ImmAddress(ImmField(c, w, address)) == Some(ImmOf(c, w, address))
  {
    if c == B || c == J {
      var x := ImmOf(c, w, address);
      assert ImmField(c, w, address) == Str(Hex(x));
      ParseHexIntOfHex(x);
    } else {
      assert ImmField(c, w, address) == Int(ImmOf(c, w, address));
    }
  }

  /** `imm` reads back, through `int(imm, 16)` or as an int, as `ImmOf`. */
  lemma DecodedImm(c: Class, w: nat, address: int)
    requires HasImmediate(c)
    ensures Get(Decode(c, w, address), "imm").Some?
    ensures ImmAddress(Get(Decode(c, w, address), "imm").value) == Some(ImmOf(c, w, address))
  {
    if c == B || c == J {
      DecodedImmFieldTarget(c, w, address);
    } else if c == I || c == S || c == U {
      DecodedImmFieldBase(c, w, address);
    } else if c == CI || c == CSS || c == CIW {
      DecodedImmFieldWide(c, w, address);
    } else {
      DecodedImmFieldNarrow(c, w, address);
    }
    ImmFieldReads(c, w, address);
  }

  /** The `dest` step never raises on decoded fields and appends exactly the
      wrapped immediate, and only for classes that decode one. */
  lemma DecodedDest(c: Class, w: nat, address: int, arch: string, formatAddress: int -> string)
    ensures WithDest(Decode(c, w, address), arch, formatAddress) ==
      Some(Rendered(c, w, address, arch, formatAddress))
  {
    DecodedNoDest(c, w, address);
    var fs := Decode(c, w, address);
    var r := WithDest(fs, arch, formatAddress);
    if HasImmediate(c) {
      DecodedImm(c, w, address);
      assert r.Some?;
      assert r.value == fs + [("dest", Str(formatAddress(Wrap(ImmOf(c, w, address), arch))))];
    } else {
      assert fs + [] == fs;
    }
  }

  /** A branch eight bytes ahead at the kernel address 0xffffffff80000000,
      which Python reads as -0x80000000: `imm` is the negative target
      -0x7ffffff8, and on `riscv:rv64` `dest` is 0xffffffff80000007, one
      below the true target 0xffffffff80000008. */
  lemma KernelBranch(w: nat, formatAddress: int -> string)
    requires SignExtend(Uimm(B, w), 12) == 8
    ensures Get(Decode(B, w, -0x8000_0000), "imm") == Some(Str(Hex(-0x7fff_fff8)))
    ensures ParseHexInt(Hex(-0x7fff_fff8)) == Some(-0x7fff_fff8)
    ensures WithDest(Decode(B, w, -0x8000_0000), Rv64Name, formatAddress) ==
      Some(Decode(B, w, -0x8000_0000) + [("dest", Str(formatAddress(0xffff_ffff_8000_0007)))])
  {
    DecodedImmFieldTarget(B, w, -0x8000_0000);
    ParseHexIntOfHex(-0x7fff_fff8);
    DecodedDest(B, w, -0x8000_0000, Rv64Name, formatAddress);
  }

  lemma HexPlain()
    ensures forall i :: '$' !in Hex(i)
  {
    forall i ensures '$' !in Hex(i) {
      var s := Hex(i);
      forall k | 0 <= k < |s| ensures s[k] != '$' {
        if i < 0 && k < 3 {
          assert s[..3][k] == s[k];
        } else if i >= 0 && k < 2 {
          assert s[..2][k] == s[k];
        }
      }
    }
  }

  lemma RegNamesPlain()
    ensures forall i :: 0 <= i < 32 ==> '$' !in XRegNames[i]
    ensures forall i :: 0 <= i < 8 ==> '$' !in CxRegNames[i]
  {
  }

  lemma NamesAreNames()
    ensures forall i :: 0 <= i < |FieldNames| ==> IsName(FieldNames[i])
  {
  }

  lemma {:induction false} PlainBeforeLastFrom(fs: Fields)
    requires forall j :: 0 <= j < |fs| - 1 ==> '$' !in Show(fs[j].1)
    ensures PlainBeforeLast(fs)
    decreases |fs|
  {
    if |fs| > 1 {
      assert '$' !in Show(fs[0].1);
      assert forall j :: 0 <= j < |fs| - 2 ==> fs[1..][j] == fs[j + 1];
      PlainBeforeLastFrom(fs[1..]);
    }
  }

  lemma {:induction false} KeyClearFrom(k: string, ps: seq<Piece>)
    requires forall i :: 0 <= i < |ps| && ps[i].Hole? && IsPrefix(k, ps[i].name) ==> k == ps[i].name
    ensures KeyClear(k, ps)
    decreases |ps|
  {
    if |ps| > 0 {
      assert ps[0].Hole? && IsPrefix(k, ps[0].name) ==> k == ps[0].name;
      KeyClearFrom(k, ps[1..]);
    }
  }

  lemma {:induction false} KeysClearFrom(fs: Fields, ps: seq<Piece>)
    requires forall j :: 0 <= j < |fs| ==> fs[j].0 in FieldNames
    requires forall i :: 0 <= i < |FieldNames| ==> KeyClear(FieldNames[i], ps)
    ensures KeysClear(fs, ps)
    decreases |fs|
  {
    if |fs| > 0 {
      NamesAreNames();
      assert fs[0].0 in FieldNames;
      KeysClearFrom(fs[1..], ps);
    }
  }

  lemma DecimalPlain()
    ensures forall i :: '$' !in Decimal(i)
  {
    forall i ensures '$' !in Decimal(i) {
      var s := Decimal(i);
      forall k | 0 <= k < |s| ensures s[k] != '$' {
      }
    }
  }

  /** Every decoded value is a register name, a `hex()` string or an int. */
  lemma DecodedPlain(c: Class, w: nat, address: int)
    ensures forall j :: 0 <= j < |Decode(c, w, address)| ==> '$' !in Show(Decode(c, w, address)[j].1)
  {
    RegNamesPlain();
    DecimalPlain();
    HexPlain();
    var fs := Decode(c, w, address);
    match c
    case R =>
    case I =>
    case S =>
    case B =>
    case U =>
    case J =>
    case CR =>
    case CI =>
    case CSS =>
    case CIW =>
    case CL =>
    case CS =>
    case CB =>
    case CJ =>
  }

  /** Every decoded key is one of `FieldNames`. */
  lemma DecodedNames(c: Class, w: nat, address: int)
    ensures forall j :: 0 <= j < |Decode(c, w, address)| ==> Decode(c, w, address)[j].0 in FieldNames
  {
  }

  /** Expanding a template over a decoded word fills each placeholder with
      its field: registers by ABI name, immediates in decimal, B and J
      targets in hex, `dest` with the formatted wrapped immediate, and every
      other placeholder left as written. */
  lemma DecodedRenders(ps: seq<Piece>, c: Class, w: nat, address: int, arch: string,
                       formatAddress: int -> string)
    requires Delimited(ps, FieldNames)
    requires forall i :: 0 <= i < |FieldNames| ==> KeyClear(FieldNames[i], ps)
    ensures Expand(TemplateOf(ps), Decode(c, w, address), arch, formatAddress) ==
      Some(Fill(ps, Rendered(c, w, address, arch, formatAddress)))
  {
    DecodedDest(c, w, address, arch, formatAddress);
    DecodedPlain(c, w, address);
    DecodedNames(c, w, address);
    var full := Rendered(c, w, address, arch, formatAddress);
    var fs := Decode(c, w, address);
    forall j | 0 <= j < |full|
      ensures (j < |full| - 1 ==> '$' !in Show(full[j].1)) && full[j].0 in FieldNames
    {
      if j >= |fs| {
        assert full[j] == ("dest", Str(formatAddress(Wrap(ImmOf(c, w, address), arch))));
      } else {
        assert full[j] == fs[j];
      }
    }
    PlainBeforeLastFrom(full);
    KeysClearFrom(full, ps);
    ExpandFills(ps, Decode(c, w, address), arch, formatAddress, FieldNames);
  }

  // ---------------------------------------------------------------------
  // The R-type example: opcode 0x0b, template `$opcode fake $rd,$rs1,$rs2`

  const FakeTemplate: seq<Piece> :=
    [Hole("opcode"), Lit(" fake "), Hole("rd"), Lit(","), Hole("rs1"), Lit(","), Hole("rs2")]

  lemma FakeTemplateText()
    ensures TemplateOf(FakeTemplate) == "$opcode fake $rd,$rs1,$rs2"
  {
  }

  lemma DifferAt(k: string, n: string, j: nat)
    requires j < |k| && j < |n| && k[j] != n[j]
    ensures !IsPrefix(k, n)
  {
    if |k| <= |n| {
      assert n[..|k|][j] != k[j];
    }
  }

  /** The placeholders of the example template are `opcode`, `rd`, `rs1`
      and `rs2`, and no field name starts another. */
  lemma FakeTemplateClear()
    ensures Delimited(FakeTemplate, FieldNames)
    ensures forall i :: 0 <= i < |FieldNames| ==> KeyClear(FieldNames[i], FakeTemplate)
  {
    var ps := FakeTemplate;
    assert Delimited(ps[6..], FieldNames);
    assert Delimited(ps[5..], FieldNames);
    assert Delimited(ps[4..], FieldNames);
    assert Delimited(ps[3..], FieldNames);
    assert Delimited(ps[2..], FieldNames);
    assert Delimited(ps[1..], FieldNames);
    assert forall j :: 0 <= j < |ps| && ps[j].Hole? ==> ps[j].name in RegisterHoles;
    RegisterHolesClear(ps);
  }

  /** The placeholder names of the examples. */
  const RegisterHoles: seq<string> := ["opcode", "rd", "rs1", "rs2"]

  /** A field name and another register placeholder name differ within
      the shorter one's length. */
  lemma NamesApart(k: string, n: string)
    requires k in FieldNames && n in RegisterHoles && k != n
    ensures !IsPrefix(k, n) && !IsPrefix(n, k)
  {
    if k[0] != n[0] {
      DifferAt(k, n, 0);
      DifferAt(n, k, 0);
    } else if |k| > |n| {
      DifferAt(n, k, |n| - 1);
    } else if k[1] != n[1] {
      DifferAt(k, n, 1);
      DifferAt(n, k, 1);
    } else {
      DifferAt(k, n, 2);
      DifferAt(n, k, 2);
    }
  }

  /** No field name starts or extends another of these names, so templates
      that use only them need no delimiters and are clear of every key. */
  lemma RegisterHolesClear(ps: seq<Piece>)
    requires forall j :: 0 <= j < |ps| && ps[j].Hole? ==> ps[j].name in RegisterHoles
    ensures forall n :: n in RegisterHoles ==> !Extended(n, FieldNames)
    ensures forall i :: 0 <= i < |FieldNames| ==> KeyClear(FieldNames[i], ps)
  {
    forall i, n | 0 <= i < |FieldNames| && n in RegisterHoles && FieldNames[i] != n
      ensures !IsPrefix(FieldNames[i], n) && !IsPrefix(n, FieldNames[i])
    {
      NamesApart(FieldNames[i], n);
    }
    forall i | 0 <= i < |FieldNames|
      ensures KeyClear(FieldNames[i], ps)
    {
      KeyClearFrom(FieldNames[i], ps);
    }
  }

  lemma FakeWordFields(w: nat)
    requires w == 5374347
    ensures Slice(w, 11, 6) == 3 && Slice(w, 19, 14) == 4 && Slice(w, 24, 19) == 5
  {
    Pow2Values();
  }

  lemma FakeDecode(w: nat, address: int)
    requires w == 5374347
    ensures Decode(R, w, address) == [("rd", Str("gp")), ("rs1", Str("tp")), ("rs2", Str("t0"))]
  {
    FakeWordFields(w);
  }

  lemma FakeFieldsFacts(fs: Fields)
    requires fs == [("rd", Str("gp")), ("rs1", Str("tp")), ("rs2", Str("t0"))]
    ensures PlainBeforeLast(fs) && KeysIn(fs, FieldNames) && KeysClear(fs, FakeTemplate)
    ensures Get(fs, "imm") == None && Get(fs, "opcode") == None
    ensures Get(fs, "rd") == Some(Str("gp")) && Get(fs, "rs1") == Some(Str("tp"))
    ensures Get(fs, "rs2") == Some(Str("t0"))
  {
    assert PlainBeforeLast(fs) by {
      PlainBeforeLastFrom(fs);
    }
    assert KeysClear(fs, FakeTemplate) by {
      FakeTemplateClear();
      KeysClearFrom(fs, FakeTemplate);
    }
    assert Get(fs, "rd") == Some(Str("gp")) by {
      GetAt(fs, 0, "rd");
    }
    assert Get(fs, "rs1") == Some(Str("tp")) by {
      GetAt(fs, 1, "rs1");
    }
    assert Get(fs, "rs2") == Some(Str("t0")) by {
      GetAt(fs, 2, "rs2");
    }
    GetAbsent(fs, "opcode");
    GetAbsent(fs, "imm");
  }

  /** Word 5374347 (rd 3, rs1 4, rs2 5) renders as `$opcode fake gp,tp,t0`:
      the registers by ABI name, `$opcode` untouched since no field has
      that name. */
  lemma FakeExample(w: nat, address: int, arch: string, formatAddress: int -> string)
    requires w == 5374347
    ensures Expand("$opcode fake $rd,$rs1,$rs2", Decode(R, w, address), arch, formatAddress) ==
      Some("$opcode fake gp,tp,t0")
  {
    FakeTemplateText();
    FakeDecode(w, address);
    var fs: Fields := [("rd", Str("gp")), ("rs1", Str("tp")), ("rs2", Str("t0"))];
    FakeFieldsFacts(fs);
    FakeTemplateClear();
    assert WithDest(fs, arch, formatAddress) == Some(fs);
    ExpandFills(FakeTemplate, fs, arch, formatAddress, FieldNames);
    FakeFill(fs);
  }

  const AdjacentTemplate: seq<Piece> := [Hole("rd"), Hole("rs1")]

  /** `$rd$rs1` is delimited: no field name extends `rd`, so `$rs1` may
      follow it directly. */
  lemma AdjacentTemplateFacts(fs: Fields)
    requires fs == [("rd", Str("gp")), ("rs1", Str("tp")), ("rs2", Str("t0"))]
    ensures TemplateOf(AdjacentTemplate) == "$rd$rs1"
    ensures Delimited(AdjacentTemplate, FieldNames) && KeysClear(fs, AdjacentTemplate)
  {
    var ps := AdjacentTemplate;
    assert TemplateOf(ps[1..]) == "$rs1";
    RegisterHolesClear(ps);
    assert Delimited(ps[1..], FieldNames);
    KeysClearFrom(fs, ps);
  }

  lemma AdjacentFill(fs: Fields)
    requires Get(fs, "rd") == Some(Str("gp")) && Get(fs, "rs1") == Some(Str("tp"))
    ensures Fill(AdjacentTemplate, fs) == "gptp"
  {
    var ps := AdjacentTemplate;
    assert Fill(ps[1..], fs) == "tp";
  }

  /** Placeholders may touch: `$rd$rs1` on the same word renders `gptp`,
      each placeholder filled in turn. */
  lemma AdjacentExample(w: nat, address: int, arch: string, formatAddress: int -> string)
    requires w == 5374347
    ensures Expand("$rd$rs1", Decode(R, w, address), arch, formatAddress) == Some("gptp")
  {
    FakeDecode(w, address);
    var fs: Fields := [("rd", Str("gp")), ("rs1", Str("tp")), ("rs2", Str("t0"))];
    FakeFieldsFacts(fs);
    AdjacentTemplateFacts(fs);
    assert WithDest(fs, arch, formatAddress) == Some(fs);
    ExpandFills(AdjacentTemplate, fs, arch, formatAddress, FieldNames);
    AdjacentFill(fs);
  }

  const DollarTemplate: seq<Piece> := [Lit("$ "), Hole("rd"), Lit(" $")]

  /** A `$` that no name character follows is literal text: `$ $rd $` is
      delimited. */
  lemma DollarTemplateFacts(fs: Fields)
    requires fs == [("rd", Str("gp")), ("rs1", Str("tp")), ("rs2", Str("t0"))]
    ensures TemplateOf(DollarTemplate) == "$ $rd $"
    ensures Delimited(DollarTemplate, FieldNames) && KeysClear(fs, DollarTemplate)
  {
    var ps := DollarTemplate;
    assert TemplateOf(ps[2..]) == " $";
    assert TemplateOf(ps[1..]) == "$rd $";
    RegisterHolesClear(ps);
    DollarTemplateDelimited();
    KeysClearFrom(fs, ps);
  }

  /** Each literal's `$` is followed by a blank or ends the template. */
  lemma DollarTemplateDelimited()
    ensures Delimited(DollarTemplate, FieldNames)
  {
    var ps := DollarTemplate;
    assert !Extended("rd", FieldNames) by {
      RegisterHolesClear(ps);
    }
    assert LitStops(" $", []);
    assert Delimited(ps[2..], FieldNames);
    assert Delimited(ps[1..], FieldNames);
    assert LitStops("$ ", ps[1..]);
  }

  lemma DollarFill(fs: Fields)
    requires Get(fs, "rd") == Some(Str("gp"))
    ensures Fill(DollarTemplate, fs) == "$ gp $"
  {
    var ps := DollarTemplate;
    assert Fill(ps[2..], fs) == " $";
    assert Fill(ps[1..], fs) == "gp $";
  }

  /** Literal dollars survive: `$ $rd $` on the same word renders `$ gp $`. */
  lemma DollarExample(w: nat, address: int, arch: string, formatAddress: int -> string)
    requires w == 5374347
    ensures Expand("$ $rd $", Decode(R, w, address), arch, formatAddress) == Some("$ gp $")
  {
    FakeDecode(w, address);
    var fs: Fields := [("rd", Str("gp")), ("rs1", Str("tp")), ("rs2", Str("t0"))];
    FakeFieldsFacts(fs);
    DollarTemplateFacts(fs);
    assert WithDest(fs, arch, formatAddress) == Some(fs);
    ExpandFills(DollarTemplate, fs, arch, formatAddress, FieldNames);
    DollarFill(fs);
  }

  lemma FillStep(ps: seq<Piece>, fs: Fields, i: nat)
    requires i < |ps|
    ensures Fill(ps[i..], fs) == FillPiece(ps[i], fs) + Fill(ps[i + 1..], fs)
  {
    assert ps[i..][1..] == ps[i + 1..];
  }

  /** A seven-piece template fills piece by piece. */
  lemma FillSeven(ps: seq<Piece>, fs: Fields)
    requires |ps| == 7
    ensures Fill(ps, fs) == FillPiece(ps[0], fs) + FillPiece(ps[1], fs) + FillPiece(ps[2], fs) +
      FillPiece(ps[3], fs) + FillPiece(ps[4], fs) + FillPiece(ps[5], fs) + FillPiece(ps[6], fs)
  {
    FillStep(ps, fs, 0);
    FillStep(ps, fs, 1);
    FillStep(ps, fs, 2);
    FillStep(ps, fs, 3);
    FillStep(ps, fs, 4);
    FillStep(ps, fs, 5);
    FillStep(ps, fs, 6);
    assert ps[0..] == ps;
    assert Fill(ps[7..], fs) == "";
  }

  lemma FakeFill(fs: Fields)
    requires Get(fs, "opcode") == None
    requires Get(fs, "rd") == Some(Str("gp")) && Get(fs, "rs1") == Some(Str("tp"))
    requires Get(fs, "rs2") == Some(Str("t0"))
    ensures Fill(FakeTemplate, fs) == "$opcode fake gp,tp,t0"
  {
    var ps := FakeTemplate;
    FillSeven(ps, fs);
    UnboundHole(fs, "opcode");
    FakeConcat();
    assert ps[0] == Hole("opcode") && ps[1] == Lit(" fake ") && ps[2] == Hole("rd");
    assert ps[3] == Lit(",") && ps[4] == Hole("rs1") && ps[5] == Lit(",") && ps[6] == Hole("rs2");
  }

  lemma UnboundHole(fs: Fields, n: string)
    requires Get(fs, n) == None
    ensures FillPiece(Hole(n), fs) == "$" + n
  {
  }

  lemma FakeConcat()
    ensures "$" + "opcode" + " fake " + "gp" + "," + "tp" + "," + "t0" == "$opcode fake gp,tp,t0"
  {
  }
}
