/** The instruction catalog (`CustomInstructionHandler` in custominsn.py):
    loading entries from the `instruction` elements of the description
    file, matching a word against them in catalog order, and rendering the
    first entry that matches. */
module Catalog {
  import opened Wrappers
  import opened Bits
  import opened Text
  import opened Encoding
  import opened Operands
  import opened Render
  import opened RenderFacts

  /** An XML element as `ElementTree` presents a child of the root. */
  datatype Element = Element(tag: string, attrib: map<string, string>)

  predicate IsInstruction(el: Element)
  {
    el.tag == "instruction"
  }

  /** The class's own name in the `gen_insn` table. */
  function ClassName(c: Class): string
  {
    match c
    case R => "R"
    case I => "I"
    case S => "S"
    case B => "B"
    case U => "U"
    case J => "J"
    case CR => "CR"
    case CI => "CI"
    case CSS => "CSS"
    case CIW => "CIW"
    case CL => "CL"
    case CS => "CS"
    case CB => "CB"
    case CJ => "CJ"
  }

  /** The `gen_insn` table: each class under its own name, and the aliases
      `SB` for B and `UJ` for J. */
  function ClassOf(t: string): (r: Option<Class>)
    ensures forall c :: r == Some(c) <==> (t == ClassName(c) || (c == B && t == "SB") || (c == J && t == "UJ"))
  {
    if t == "R" then Some(R)
    else if t == "I" then Some(I)
    else if t == "S" then Some(S)
    else if t == "B" || t == "SB" then Some(B)
    else if t == "U" then Some(U)
    else if t == "J" || t == "UJ" then Some(J)
    else if t == "CR" then Some(CR)
    else if t == "CI" then Some(CI)
    else if t == "CSS" then Some(CSS)
    else if t == "CIW" then Some(CIW)
    else if t == "CL" then Some(CL)
    else if t == "CS" then Some(CS)
    else if t == "CB" then Some(CB)
    else if t == "CJ" then Some(CJ)
    else None
  }

  /** The loader reads the funct attributes `names` in order, stopping at
      the first that is missing or that `int(_, 16)` rejects; every one it
      reaches has a known outcome. */
  predicate FunctsDecided(attrib: map<string, string>, names: seq<string>)
    decreases |names|
  {
    || |names| == 0
    || names[0] !in attrib
    || Unparsable(attrib[names[0]])
    || (IsHexNat(attrib[names[0]]) && FunctsDecided(attrib, names[1..]))
  }

  /** Every `int(_, 16)` the constructor of `el`'s class reaches, in its
      order (`opcode`, then `str`, then the funct attributes), has a known
      outcome. Entries the loader skips or aborts on before reading a
      number need nothing. */
  predicate NumbersDecided(el: Element)
  {
    || "type" !in el.attrib
    || ClassOf(el.attrib["type"]).None?
    || "opcode" !in el.attrib
    || Unparsable(el.attrib["opcode"])
    || (IsHexNat(el.attrib["opcode"]) &&
        ("str" !in el.attrib || FunctsDecided(el.attrib, FunctNames(ClassOf(el.attrib["type"]).value))))
  }

  /** Every `instruction` element has known numbers. */
  predicate AllNumbersDecided(children: seq<Element>)
  {
    forall i :: 0 <= i < |children| && IsInstruction(children[i]) ==> NumbersDecided(children[i])
  }

  /** How reading the funct attributes ends: all read, a missing one (the
      `KeyError` the loader catches), or the text of the first one
      `int(_, 16)` rejects. */
  datatype FunctsRead = AllRead | Missing | BadFunct(text: string)

  function ReadFuncts(attrib: map<string, string>, names: seq<string>): (r: FunctsRead)
    requires FunctsDecided(attrib, names)
    ensures r.AllRead? <==> forall k :: 0 <= k < |names| ==> names[k] in attrib && IsHexNat(attrib[names[k]])
    ensures r.Missing? ==>
      exists k :: 0 <= k < |names| && names[k] !in attrib &&
        forall j :: 0 <= j < k ==> names[j] in attrib && IsHexNat(attrib[names[j]])
    ensures r.BadFunct? ==>
      exists k :: 0 <= k < |names| && names[k] in attrib && attrib[names[k]] == r.text &&
        Unparsable(r.text) && forall j :: 0 <= j < k ==> names[j] in attrib && IsHexNat(attrib[names[j]])
    decreases |names|
  {
    if |names| == 0 then AllRead
    else if names[0] !in attrib then Missing
    else if Unparsable(attrib[names[0]]) then
      UnparsableIsNotHex(attrib[names[0]]);
      BadFunct(attrib[names[0]])
    else
      var r := ReadFuncts(attrib, names[1..]);
      assert forall k :: 1 <= k < |names| ==> names[k] == names[1..][k - 1];
      r
  }

  /** The outcome for one `instruction` element: an entry, a skip with the
      message printed for it, the `KeyError` that escapes the handler when
      the element has no `type` (the handler itself reads `type`), or the
      `ValueError` of `int(text, 16)`, which nothing catches. */
  datatype Built = Built(insn: Insn) | Skipped(message: string) | Aborted | BadNumber(text: string)

  /** The element carries everything its class's constructor reads. */
  predicate Buildable(el: Element)
  {
    && "type" in el.attrib
    && ClassOf(el.attrib["type"]).Some?
    && "opcode" in el.attrib && "str" in el.attrib
    && forall k :: 0 <= k < |FunctNames(ClassOf(el.attrib["type"]).value)| ==>
         FunctNames(ClassOf(el.attrib["type"]).value)[k] in el.attrib
  }

  /** The numbers a buildable element carries are all unsigned hex. */
  predicate HexNumbers(el: Element)
    requires Buildable(el)
  {
    && IsHexNat(el.attrib["opcode"])
    && forall k :: 0 <= k < |FunctNames(ClassOf(el.attrib["type"]).value)| ==>
         IsHexNat(el.attrib[FunctNames(ClassOf(el.attrib["type"]).value)[k]])
  }

  /** The value `int(el.attrib[name], 16)` stores for a funct attribute the
      class reads, `None` for one it does not. */
  function Funct(el: Element, c: Class, name: string): Option<nat>
    requires name in FunctNames(c) && name in el.attrib ==> IsHexNat(el.attrib[name])
  {
    if name in FunctNames(c) && name in el.attrib then Some(ParseHexNat(el.attrib[name]).value) else None
  }

  /** `e` holds exactly what the constructor reads from `el`. */
  predicate Describes(e: Insn, el: Element)
    requires Buildable(el) && HexNumbers(el)
  {
    var c := ClassOf(el.attrib["type"]).value;
    && e.cls == c
    && e.opcode == ParseHexNat(el.attrib["opcode"]).value
    && e.template == el.attrib["str"]
    && e.typeName == el.attrib["type"]
    && e.funct3 == (if "funct3" in FunctNames(c) then Some(ParseHexNat(el.attrib["funct3"]).value) else None)
    && e.funct4 == (if "funct4" in FunctNames(c) then Some(ParseHexNat(el.attrib["funct4"]).value) else None)
    && e.funct7 == (if "funct7" in FunctNames(c) then Some(ParseHexNat(el.attrib["funct7"]).value) else None)
  }

  /** `text` is a number the constructor of `el`'s class reads. */
  predicate ReadsNumber(el: Element, text: string)
  {
    && "type" in el.attrib && ClassOf(el.attrib["type"]).Some?
    && (|| ("opcode" in el.attrib && el.attrib["opcode"] == text)
        || exists k :: 0 <= k < |FunctNames(ClassOf(el.attrib["type"]).value)| &&
             FunctNames(ClassOf(el.attrib["type"]).value)[k] in el.attrib &&
             el.attrib[FunctNames(ClassOf(el.attrib["type"]).value)[k]] == text)
  }

  /** One pass of the loader's `try` block. */
  function BuildInsn(el: Element): (r: Built)
    requires NumbersDecided(el)
    ensures r.Aborted? <==> "type" !in el.attrib
    ensures r.Built? <==> Buildable(el) && HexNumbers(el)
    ensures r.Built? ==> Valid(r.insn) && Describes(r.insn, el)
    ensures r.Skipped? ==> r.message == "Unknown Instruction Type: " + el.attrib["type"]
    ensures r.BadNumber? ==> Unparsable(r.text) && ReadsNumber(el, r.text)
    ensures ("type" in el.attrib && ClassOf(el.attrib["type"]).Some? && "opcode" in el.attrib &&
             Unparsable(el.attrib["opcode"])) ==> r == BadNumber(el.attrib["opcode"])
  {
    if "type" !in el.attrib then Aborted
    else
      var t := el.attrib["type"];
      var skip := Skipped("Unknown Instruction Type: " + t);
      match ClassOf(t)
      case None => skip
      case Some(c) =>
        if "opcode" !in el.attrib then skip
        else if Unparsable(el.attrib["opcode"]) then
          UnparsableIsNotHex(el.attrib["opcode"]);
          BadNumber(el.attrib["opcode"])
        else if "str" !in el.attrib then skip
        else
          match ReadFuncts(el.attrib, FunctNames(c))
          case Missing => skip
          case BadFunct(text) => BadNumber(text)
          case AllRead =>
            Built(Insn(c, ParseHexNat(el.attrib["opcode"]).value, el.attrib["str"], t,
                       Funct(el, c, "funct3"), Funct(el, c, "funct4"), Funct(el, c, "funct7")))
  }

  /** An attribute the constructor never reads may hold anything: `funct7`
      on an I entry. */
  lemma UnreadFunctIgnored()
    ensures var el := Element("instruction", map["type" := "I", "opcode" := "0x13", "str" := "addi",
                                                 "funct3" := "0", "funct7" := "n/a"]);
      NumbersDecided(el) && BuildInsn(el).Built? && BuildInsn(el).insn.funct7 == None
  {
    var el := Element("instruction", map["type" := "I", "opcode" := "0x13", "str" := "addi",
                                          "funct3" := "0", "funct7" := "n/a"]);
    assert ParseHexNat("0x13") == Some(0x13) by {
      assert "0x13"[2..] == "13";
      assert "13"[..1] == "1";
    }
    assert ParseHexNat("0") == Some(0);
    assert FunctNames(I) == ["funct3"];
    assert ReadFuncts(el.attrib, ["funct3"]) == AllRead by {
      assert ["funct3"][1..] == [];
    }
  }

  /** An entry of unknown type is skipped before its numbers are read. */
  lemma UnknownTypeSkipped()
    ensures var el := Element("instruction", map["type" := "X", "opcode" := "zz"]);
      NumbersDecided(el) && BuildInsn(el) == Skipped("Unknown Instruction Type: X")
  {
  }

  /** `int("zz", 16)` raises, and the `ValueError` escapes the loader. */
  lemma BadOpcodeRaises()
    ensures var el := Element("instruction", map["type" := "I", "opcode" := "zz", "str" := "addi"]);
      NumbersDecided(el) && CreateInsns([el]) == Failure(LoadAbort([], NotANumber("zz")))
  {
    assert Stray("zz"[0]);
    var el := Element("instruction", map["type" := "I", "opcode" := "zz", "str" := "addi"]);
    assert BuildInsn(el) == BadNumber("zz");
  }

  /** Only `instruction` elements are read: another child's numbers do not
      matter. */
  lemma OtherChildIgnored()
    ensures var el := Element("feature", map["opcode" := "zz"]);
      AllNumbersDecided([el]) && CreateInsns([el]) == Success(Loaded([], []))
  {
    var el := Element("feature", map["opcode" := "zz"]);
    assert !IsInstruction(el);
    assert [el][1..] == [];
  }

  /** The entries `create_insns` returns and the messages it prints. */
  datatype Loaded = Loaded(insns: seq<Insn>, messages: seq<string>)

  /** The exception that escapes `create_insns`: the `KeyError` of an
      element without `type`, or the `ValueError` of `int(text, 16)`. */
  datatype LoadRaise = NoType | NotANumber(text: string)

  /** A load that raised, with the messages printed before it. */
  datatype LoadAbort = LoadAbort(printed: seq<string>, raised: LoadRaise)

  type Load = Result<Loaded, LoadAbort>

  /** Loading `el` raises out of the loader. */
  predicate Raises(el: Element)
    requires NumbersDecided(el)
  {
    BuildInsn(el).Aborted? || BuildInsn(el).BadNumber?
  }

  /** `e` is what some `instruction` element of `children` builds. */
  predicate BuiltFrom(children: seq<Element>, e: Insn)
    requires AllNumbersDecided(children)
  {
    exists i :: 0 <= i < |children| && IsInstruction(children[i]) && BuildInsn(children[i]) == Built(e)
  }

  lemma AllNumbersDecidedTail(children: seq<Element>)
    requires |children| > 0 && AllNumbersDecided(children)
    ensures AllNumbersDecided(children[1..])
  {
    assert forall i :: 0 <= i < |children[1..]| ==> children[1..][i] == children[i + 1];
  }

  lemma BuiltFromTail(children: seq<Element>, insns: seq<Insn>)
    requires |children| > 0 && AllNumbersDecided(children)
    requires AllNumbersDecided(children[1..])
    requires forall k :: 0 <= k < |insns| ==> BuiltFrom(children[1..], insns[k])
    ensures forall k :: 0 <= k < |insns| ==> BuiltFrom(children, insns[k])
  {
    forall k | 0 <= k < |insns|
      ensures BuiltFrom(children, insns[k])
    {
      var i :| 0 <= i < |children[1..]| && IsInstruction(children[1..][i]) &&
        BuildInsn(children[1..][i]) == Built(insns[k]);
      assert children[i + 1] == children[1..][i];
    }
  }

  /** An entry the first element builds, put before entries built from
      `children`, keeps every entry valid and built from `children`. */
  lemma EntriesCons(children: seq<Element>, e: Insn, ys: seq<Insn>)
    requires AllNumbersDecided(children) && |children| > 0
    requires IsInstruction(children[0]) && BuildInsn(children[0]) == Built(e)
    requires forall k :: 0 <= k < |ys| ==> Valid(ys[k]) && BuiltFrom(children, ys[k])
    ensures forall k :: 0 <= k < |[e] + ys| ==> Valid(([e] + ys)[k]) && BuiltFrom(children, ([e] + ys)[k])
  {
    forall k | 0 <= k < |[e] + ys|
      ensures Valid(([e] + ys)[k]) && BuiltFrom(children, ([e] + ys)[k])
    {
      if k > 0 {
        assert ([e] + ys)[k] == ys[k - 1];
      }
    }
  }

  /** One element's effect on what the loader does with the rest. */
  function Step(el: Element, rest: Load): Load
    requires IsInstruction(el) ==> NumbersDecided(el)
  {
    if !IsInstruction(el) then rest
    else
      match BuildInsn(el)
      case Aborted => Failure(LoadAbort([], NoType))
      case BadNumber(text) => Failure(LoadAbort([], NotANumber(text)))
      case Skipped(m) =>
        (match rest
         case Success(l) => Success(Loaded(l.insns, [m] + l.messages))
         case Failure(f) => Failure(f.(printed := [m] + f.printed)))
      case Built(e) =>
        (match rest
         case Success(l) => Success(Loaded([e] + l.insns, l.messages))
         case Failure(f) => Failure(f))
  }

  /** `create_insns` over the root's children. */
  function CreateInsns(children: seq<Element>): (r: Load)
    requires AllNumbersDecided(children)
    ensures r.Failure? <==> exists i :: 0 <= i < |children| && IsInstruction(children[i]) && Raises(children[i])
    decreases |children|
  {
    if |children| == 0 then Success(Loaded([], []))
    else
      var el := children[0];
      AllNumbersDecidedTail(children);
      var rest := CreateInsns(children[1..]);
      assert forall i :: 1 <= i < |children| ==> children[i] == children[1..][i - 1];
      Step(el, rest)
  }

  /** The exception an element that raises makes the loader raise. */
  function RaiseOf(b: Built): LoadRaise
    requires b.Aborted? || b.BadNumber?
  {
    if b.Aborted? then NoType else NotANumber(b.text)
  }

  /** A load that raises raises what the first raising element does. */
  lemma {:induction false} CreateInsnsRaisesFirst(children: seq<Element>)
    requires AllNumbersDecided(children)
    ensures CreateInsns(children).Failure? ==>
      exists i :: 0 <= i < |children| && IsInstruction(children[i]) && Raises(children[i]) &&
        CreateInsns(children).error.raised == RaiseOf(BuildInsn(children[i])) &&
        forall j :: 0 <= j < i && IsInstruction(children[j]) ==> !Raises(children[j])
    decreases |children|
  {
    if |children| > 0 && CreateInsns(children).Failure? {
      var el := children[0];
      var tail := children[1..];
      AllNumbersDecidedTail(children);
      if IsInstruction(el) && Raises(el) {
        assert CreateInsns(children).error.raised == RaiseOf(BuildInsn(el));
      } else {
        CreateInsnsRaisesFirst(tail);
        assert CreateInsns(tail).Failure?;
        var i :| 0 <= i < |tail| && IsInstruction(tail[i]) && Raises(tail[i]) &&
          CreateInsns(tail).error.raised == RaiseOf(BuildInsn(tail[i])) &&
          forall j :: 0 <= j < i && IsInstruction(tail[j]) ==> !Raises(tail[j]);
        assert CreateInsns(children).error.raised == CreateInsns(tail).error.raised;
        assert children[i + 1] == tail[i];
        assert forall j :: 1 <= j < i + 1 ==> children[j] == tail[j - 1];
      }
    }
  }

  /** Every entry the loader keeps is valid and is what some `instruction`
      element builds. */
  lemma {:induction false} CreateInsnsEntries(children: seq<Element>)
    requires AllNumbersDecided(children)
    ensures CreateInsns(children).Success? ==>
      forall k :: 0 <= k < |CreateInsns(children).value.insns| ==>
        Valid(CreateInsns(children).value.insns[k]) && BuiltFrom(children, CreateInsns(children).value.insns[k])
    decreases |children|
  {
    if |children| > 0 && CreateInsns(children).Success? {
      var el := children[0];
      var tail := children[1..];
      AllNumbersDecidedTail(children);
      CreateInsnsEntries(tail);
      var rest := CreateInsns(tail);
      assert rest.Success?;
      BuiltFromTail(children, rest.value.insns);
      var out := CreateInsns(children).value.insns;
      if IsInstruction(el) && BuildInsn(el).Built? {
        assert out == [BuildInsn(el).insn] + rest.value.insns;
        EntriesCons(children, BuildInsn(el).insn, rest.value.insns);
      } else {
        assert out == rest.value.insns;
      }
    }
  }

  /** The loader's result on two consecutive runs of elements: entries and
      messages in document order, and the first run's messages kept when the
      second run raises. */
  function Combine(ra: Load, rb: Load): Load
  {
    match ra
    case Failure(f) => Failure(f)
    case Success(la) =>
      match rb
      case Success(lb) => Success(Loaded(la.insns + lb.insns, la.messages + lb.messages))
      case Failure(f) => Failure(f.(printed := la.messages + f.printed))
  }

  lemma StepCombine(el: Element, rt: Load, rb: Load)
    requires IsInstruction(el) ==> NumbersDecided(el)
    ensures Step(el, Combine(rt, rb)) == Combine(Step(el, rt), rb)
  {
    if IsInstruction(el) && rt.Success? {
      var lt := rt.value;
      match BuildInsn(el)
      case Aborted =>
      case BadNumber(_) =>
      case Skipped(m) =>
        if rb.Success? {
          assert [m] + (lt.messages + rb.value.messages) == ([m] + lt.messages) + rb.value.messages;
        } else {
          assert [m] + (lt.messages + rb.error.printed) == ([m] + lt.messages) + rb.error.printed;
        }
      case Built(e) =>
        if rb.Success? {
          assert [e] + (lt.insns + rb.value.insns) == ([e] + lt.insns) + rb.value.insns;
        }
    }
  }

  /** `create_insns` walks the children in document order: loading `a + b`
      is loading `a`, then `b`. */
  lemma {:induction false} CreateInsnsAppend(a: seq<Element>, b: seq<Element>)
    requires AllNumbersDecided(a) && AllNumbersDecided(b) && AllNumbersDecided(a + b)
    ensures CreateInsns(a + b) == Combine(CreateInsns(a), CreateInsns(b))
    decreases |a|
  {
    if |a| == 0 {
      assert a + b == b;
      match CreateInsns(b) {
        case Failure(f) => assert [] + f.printed == f.printed;
        case Success(lb) => assert [] + lb.insns == lb.insns && [] + lb.messages == lb.messages;
      }
    } else {
      var tail := a[1..];
      assert (a + b)[1..] == tail + b;
      assert (a + b)[0] == a[0];
      AllNumbersDecidedTail(a);
      AllNumbersDecidedTail(a + b);
      CreateInsnsAppend(tail, b);
      StepCombine(a[0], CreateInsns(tail), CreateInsns(b));
    }
  }

  /** `CustomInstructionHandler.__init__`: no description means no entries. */
  function LoadHandler(root: Option<seq<Element>>): (r: Load)
    requires root.Some? ==> AllNumbersDecided(root.value)
    ensures root.None? ==> r == Success(Loaded([], []))
    ensures root.Some? ==> r == CreateInsns(root.value)
  {
    match root
    case None => Success(Loaded([], []))
    case Some(children) => CreateInsns(children)
  }

  predicate AllValid(insns: seq<Insn>)
  {
    forall k :: 0 <= k < |insns| ==> Valid(insns[k])
  }

  /** `compare_with_insns` as the index of the entry it returns: the first
      in catalog order whose length and masked bits agree. */
  function FirstMatch(insns: seq<Insn>, word: nat, len: nat): (r: Option<nat>)
    requires AllValid(insns)
    ensures r.Some? ==> r.value < |insns| && Matches(insns[r.value], word, len)
    ensures r.Some? ==> forall k :: 0 <= k < r.value ==> !Matches(insns[k], word, len)
    ensures r.None? <==> forall k :: 0 <= k < |insns| ==> !Matches(insns[k], word, len)
    decreases |insns|
  {
    if |insns| == 0 then None
    else if Matches(insns[0], word, len) then Some(0)
    else
      assert forall k :: 1 <= k < |insns| ==> insns[k] == insns[1..][k - 1];
      match FirstMatch(insns[1..], word, len)
      case None => None
      case Some(i) => Some(i + 1)
  }

  /** `compare_with_insns`: the matching entry itself. */
  function CompareWithInsns(insns: seq<Insn>, word: nat, len: nat): (r: Option<Insn>)
    requires AllValid(insns)
    ensures r.Some? ==> r.value in insns && Valid(r.value) && Matches(r.value, word, len)
    ensures r.Some? ==> Length(r.value.cls) == len
    ensures r.None? <==> forall k :: 0 <= k < |insns| ==> !Matches(insns[k], word, len)
  {
    match FirstMatch(insns, word, len)
    case None => None
    case Some(i) => Some(insns[i])
  }

  /** `disassemble`: the first matching entry's template expanded over the
      word's fields, or `None` when no entry matches. The expansion never
      raises on decoded fields. `word` is the value of the `len` bytes
      fetched, so it is below `Pow2(8 * len)` (`Word.LeValueBound`). */
  function Disassemble(insns: seq<Insn>, word: nat, len: nat, address: int, arch: string,
                       formatAddress: int -> string): (r: Option<string>)
    requires AllValid(insns)
    ensures r.None? <==> forall k :: 0 <= k < |insns| ==> !Matches(insns[k], word, len)
    ensures r.Some? ==> var k := FirstMatch(insns, word, len).value;
      Expand(insns[k].template, Decode(insns[k].cls, word, address), arch, formatAddress) == r
  {
    match FirstMatch(insns, word, len)
    case None => None
    case Some(k) =>
      var e := insns[k];
      DecodedDest(e.cls, word, address, arch, formatAddress);
      Expand(e.template, Decode(e.cls, word, address), arch, formatAddress)
  }

  /** The first entry that matches is the one `FirstMatch` finds. */
  lemma FirstMatchAt(insns: seq<Insn>, word: nat, len: nat, k: nat)
    requires AllValid(insns)
    requires k < |insns| && Matches(insns[k], word, len)
    requires forall j :: 0 <= j < k ==> !Matches(insns[j], word, len)
    ensures FirstMatch(insns, word, len) == Some(k)
  {
  }

  /** When the first matching entry's template is made of literal text and
      placeholders that no field name cuts short, `disassemble` prints each
      placeholder's field as rendered. */
  lemma DisassembleRenders(insns: seq<Insn>, word: nat, len: nat, address: int, arch: string,
                           formatAddress: int -> string, k: nat, ps: seq<Piece>)
    requires AllValid(insns)
    requires k < |insns| && Matches(insns[k], word, len)
    requires forall j :: 0 <= j < k ==> !Matches(insns[j], word, len)
    requires insns[k].template == TemplateOf(ps) && Delimited(ps, FieldNames)
    requires forall i :: 0 <= i < |FieldNames| ==> KeyClear(FieldNames[i], ps)
    ensures Disassemble(insns, word, len, address, arch, formatAddress) ==
      Some(Fill(ps, Rendered(insns[k].cls, word, address, arch, formatAddress)))
  {
    FirstMatchAt(insns, word, len, k);
    DecodedRenders(ps, insns[k].cls, word, address, arch, formatAddress);
  }
}
