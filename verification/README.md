# RISC-V custom instruction disassembly for GDB, modelled in Dafny

GDB lets a Python disassembler take over instruction printing for an
architecture. `gdb/python/lib/gdb/custominsn.py` registers one for every
RISC-V architecture. It reads a catalog of custom instructions from an XML
description file: an `instruction` element per entry, with `type`, `opcode`,
`funct3`/`funct4`/`funct7` and a `str` template. When GDB asks it to print
the instruction at an address, it:

1. reads the first byte and picks a 2- or 4-byte length from its low two bits;
2. folds the bytes little-endian into one word;
3. finds the first catalog entry whose length and masked fixed bits match;
4. slices the word into register names and immediates;
5. expands the entry's `$name` template and records the text.

When no entry matches, it falls back on GDB's own disassembler.

Two other files sit underneath. `gdb/python/lib/gdb/disassembler.py` keeps
the registry from architecture name to disassembler and the `_print_insn`
hook. `gdb/python/py-disasm.c` implements the `DisassembleInfo` object the
disassembler writes its result into, and `gdbpy_print_insn`, which turns
that object's final state into GDB's answer.

The model's modules follow that structure.

| module | what it models |
|---|---|
| `Bits` | Python's unbounded `&`, `\|`, `<<` and `>>` on non-negative integers, with bit-level facts |
| `Text` | `hex()`, `str()` of an int, `int(s, 16)` and `str.replace` |
| `RawBits` | the decoders' `format(w, '032b')[::-1]` string and its slicing |
| `Encoding` | the fourteen encoding classes: fixed bits, masks, lengths, matching |
| `Operands`, `OperandFacts` | each class's operand decoding and what the decoded immediates are |
| `Render`, `RenderFacts` | template expansion, the `dest` field and its address wrap |
| `Catalog` | loading the catalog from the description, matching a word, rendering it |
| `Session` | the per-connection catalog cache and the path parameter's set hook |
| `Registry` | disassembler registration and lookup |
| `Word` | the instruction length rule and the byte fold |
| `DisasmInfo` | the `DisassembleInfo` object, `builtin_disassemble` and `gdbpy_print_insn` |
| `RiscvCall` | one request from GDB to the custom disassembler, end to end |

Several things become parameters:

- The description file's parsed root is an `Option<seq<Element>>`.
- GDB's own disassembler is a `HostRun`: the memory errors it reports, the text it prints and the length it returns.
- Target memory is a map from address to byte.
- `gdb.disassembler.format_address` is a function `int -> string`.

Two things abort the load of the catalog:

- An `instruction` element without `type`. The `KeyError` handler
  (custominsn.py:885-886) reads `elem.attrib['type']` again to print its
  message, so a second `KeyError` escapes `create_insns`.
- A number that `int(_, 16)` rejects, when the constructor reaches it
  (custominsn.py:173, 321-322 and the other subclasses). The `ValueError`
  is not caught.

`Catalog.CreateInsns` fails exactly when some `instruction` element does one
of these. `Catalog.CreateInsnsRaisesFirst` says which exception escapes.

`DisassembleInfo.address` is `CORE_ADDR` converted to a signed 64-bit
`LONGEST` (py-disasm.c:414). The decoders therefore see an address in the
upper half of the address space as a negative number.

## Model

| member | source | states |
|---|---|---|
| Encoding.MaskValue | gdb/python/lib/gdb/custominsn.py:267-312 | the select masks are 0xfe00707f for R, 0x707f for I/S/B, 0x7f for U/J, 0xf003 for CR and 0xe003 for the other compressed classes |
| Encoding.MatchesIffR | gdb/python/lib/gdb/custominsn.py:221-229 | an R entry whose values fit their fields matches exactly the 4-byte words with its opcode in bits 6..0, funct3 in 14..12 and funct7 in 31..25 |
| Encoding.MatchesIffFunct3 | gdb/python/lib/gdb/custominsn.py:231-237 | an I, S or B entry matches exactly the 4-byte words carrying its opcode and funct3 in their fields |
| Encoding.MatchesIffOpcodeOnly | gdb/python/lib/gdb/custominsn.py:239-243 | a U or J entry matches exactly the 4-byte words whose bits 6..0 are its opcode |
| Encoding.MatchesIffCompressed | gdb/python/lib/gdb/custominsn.py:245-259 | a compressed entry matches exactly the 2-byte words with its opcode in bits 1..0 and its funct4 in 15..12 (CR) or funct3 in 15..13 (the rest) |
| Encoding.MatchesIff | gdb/python/lib/gdb/custominsn.py:897-902 | for every class, matching is equivalent to the right length plus every opcode and funct field of the word holding the entry's value |
| Encoding.NeverMatchesOutsideMask | gdb/python/lib/gdb/custominsn.py:897-902 | an entry with a fixed bit where its mask is clear matches no word at all |
| Encoding.WideOpcodeNeverMatches | gdb/python/lib/gdb/custominsn.py:239-243 | a U or J entry whose opcode does not fit 7 bits matches nothing |
| Encoding.OversizeFunct3NeverMatches | gdb/python/lib/gdb/custominsn.py:231-237 | an I entry with funct3 = 8 sets bit 15, outside the mask, and matches nothing |
| Encoding.LengthGate | gdb/python/lib/gdb/custominsn.py:899-900 | a 2-byte request never matches a 4-byte entry and vice versa |
| RawBits.RawBitStringIndex | gdb/python/lib/gdb/custominsn.py:334 | character i of the reversed binary string is bit i of the word |
| RawBits.SliceMatchesString | gdb/python/lib/gdb/custominsn.py:337-341 | `int(raw_bits[start:stop:-1], 2)` is the number in bits start down to stop + 1 of the word |
| RawBits.TopSliceMatchesString | gdb/python/lib/gdb/custominsn.py:373 | `raw_bits[:stop:-1]` starts at the top bit, so it reads bits width-1 down to stop + 1 |
| RawBits.BitAtMatchesString | gdb/python/lib/gdb/custominsn.py:446-447 | `int(raw_bits[i], 2)` is bit i of the word |
| Text.Hex | gdb/python/lib/gdb/custominsn.py:448-451 | `hex(i)` is `0x`, or `-0x` for a negative i, followed by lowercase hex digits |
| Text.ParseHexIntOfHex | gdb/python/lib/gdb/custominsn.py:203 | `int(hex(i), 16)` gives i back for every integer, negative ones included |
| Text.UnparsableIsNotHex | gdb/python/lib/gdb/custominsn.py:173 | a text with a character `int(_, 16)` can never accept, or an empty text, is not one the model reads as hex, so the model's two outcomes of `int(_, 16)` exclude each other |
| Text.ParseHexNatOfPrefixed | gdb/python/lib/gdb/custominsn.py:173 | `int(s, 16)` reads a `0x`-prefixed attribute value as the number its digits spell |
| Text.DecimalRoundTrip | gdb/python/lib/gdb/custominsn.py:217-218 | the `str(v)` text substituted for an int field reads back as that int |
| Text.ReplaceAllAbsent | gdb/python/lib/gdb/custominsn.py:218 | `str.replace` with a pattern that does not occur leaves the text unchanged |
| Text.ReplaceAllSkipsPrefix | gdb/python/lib/gdb/custominsn.py:218 | text before the pattern's first character cannot start an occurrence, so `str.replace` keeps it and rewrites only what follows |
| Text.ReplaceAllAtFront | gdb/python/lib/gdb/custominsn.py:218 | an occurrence at the front is replaced and the scan resumes after it |
| OperandFacts.UimmBitsI | gdb/python/lib/gdb/custominsn.py:373 | bit j of the I immediate is instruction bit 20 + j for j up to 11, and 0 above |
| OperandFacts.UimmBitsS | gdb/python/lib/gdb/custominsn.py:408-409 | the S immediate takes bits 11..7 as imm[4:0] and 31..25 as imm[11:5] |
| OperandFacts.UimmBitsB | gdb/python/lib/gdb/custominsn.py:444-447 | the B offset takes bits 11..8 as imm[4:1], 30..25 as imm[10:5], bit 7 as imm[11], bit 31 as imm[12], and bit 0 is 0 |
| OperandFacts.UimmBitsU | gdb/python/lib/gdb/custominsn.py:479-481 | the U immediate after `<< 12` and `>> 12` is bits 31..12 of the word |
| OperandFacts.UimmBitsJ | gdb/python/lib/gdb/custominsn.py:509-512 | the J offset takes bits 30..21 as imm[10:1], bit 20 as imm[11], 19..12 as imm[19:12] and bit 31 as imm[20] |
| OperandFacts.UimmBitsCI | gdb/python/lib/gdb/custominsn.py:577-578 | the CI immediate is bits 6..2 with bit 12 as imm[5] |
| OperandFacts.UimmBitsCSS | gdb/python/lib/gdb/custominsn.py:613-614 | the CSS immediate takes bits 12..9 as imm[5:2] and 8..7 as imm[7:6] |
| OperandFacts.UimmBitsCIW | gdb/python/lib/gdb/custominsn.py:647-650 | the CIW immediate takes bit 6 as imm[2], bit 5 as imm[3], 12..11 as imm[5:4] and 10..7 as imm[9:6] |
| OperandFacts.UimmBitsCL | gdb/python/lib/gdb/custominsn.py:685-687 | the CL immediate takes bit 5 as imm[2], bits 12..11 as imm[4:3] and bit 6 as imm[6] |
| OperandFacts.UimmBitsCS | gdb/python/lib/gdb/custominsn.py:723-724 | the CS immediate takes bits 6..5 as imm[1:0] and 12..10 as imm[4:2] |
| OperandFacts.UimmBitsCB | gdb/python/lib/gdb/custominsn.py:757-759 | the CB offset takes bits 6..3 as imm[4:1], bit 2 as imm[5] and 12..10 as imm[8:6] |
| OperandFacts.UimmBitsCJ | gdb/python/lib/gdb/custominsn.py:790-792 | the CJ offset takes bits 6..3 as imm[4:1], bit 2 as imm[5] and 12..7 as imm[11:6] |
| OperandFacts.UimmBits | gdb/python/lib/gdb/custominsn.py:365-798 | every bit of every decoder's immediate is the instruction bit the per-class reference map names, and 0 where it names none |
| OperandFacts.UimmBound | gdb/python/lib/gdb/custominsn.py:365-798 | each immediate fits in its class's top bit plus one |
| OperandFacts.UimmFromSources | gdb/python/lib/gdb/custominsn.py:365-798 | two words that agree on every source bit of a class decode to the same immediate |
| OperandFacts.UimmEvenClasses | gdb/python/lib/gdb/custominsn.py:436-798 | the B, J, CB, CJ, CSS, CIW and CL immediates are even |
| OperandFacts.UimmScaled | gdb/python/lib/gdb/custominsn.py:605-693 | CSS, CIW and CL immediates are multiples of four, and CL's bit 5 is always clear |
| OperandFacts.ClIgnoresBit10 | gdb/python/lib/gdb/custominsn.py:685-687 | the CL immediate does not depend on bit 10 of the word, although the format comment gives the field as 12:10 |
| OperandFacts.SignExtendValue | gdb/python/lib/gdb/custominsn.py:375-377 | `(u & (2^k - 1)) - (u & 2^k)` is the low k bits minus bit k's weight |
| OperandFacts.SignExtendRange | gdb/python/lib/gdb/custominsn.py:375-377 | the signed immediate always lies in [-2^k, 2^k - 1] |
| OperandFacts.SignExtendTwosComplement | gdb/python/lib/gdb/custominsn.py:375-377 | on a (k+1)-bit value the expression is its two's-complement reading |
| OperandFacts.SignExtendLowBits | gdb/python/lib/gdb/custominsn.py:375-377 | the signed immediate depends only on bits 0..k |
| OperandFacts.ImmIsTwosComplement | gdb/python/lib/gdb/custominsn.py:365-763 | for every sign-extending class but CJ, the sign bit is the top immediate bit, so `imm` is the two's-complement value of `uimm` |
| OperandFacts.CjImmIgnoresBit12 | gdb/python/lib/gdb/custominsn.py:790-796 | CJ's bit 12 lands in uimm[11], above the sign bit 10, so `imm` never depends on it |
| OperandFacts.CjBit12Example | gdb/python/lib/gdb/custominsn.py:790-796 | the word 0x1000 gives CJ `uimm` 2048 but `imm` 0 |
| OperandFacts.IImmExamples | gdb/python/lib/gdb/custominsn.py:373-377 | raw 0x800 reads as -2048 and 0x7ff as 2047 |
| OperandFacts.TargetOffset | gdb/python/lib/gdb/custominsn.py:444-451 | the B and J offsets are even and within [-2^k, 2^k - 2] |
| OperandFacts.TargetFields | gdb/python/lib/gdb/custominsn.py:448-451 | for B and J, `imm` is the hex text of address + signed offset and `uimm` that of address + unsigned offset, and both parse back with `int(_, 16)` |
| OperandFacts.CssRegisterIndex | gdb/python/lib/gdb/custominsn.py:609-614 | the CSS register number from bits 11..7 is uimm[7:6] + 4 * uimm[4:2], because those bits also feed the immediate |
| OperandFacts.CssRegisterFromImmediate | gdb/python/lib/gdb/custominsn.py:609-612 | so the CSS register name is determined by the immediate |
| OperandFacts.CssTestWord | gdb/testsuite/gdb.buffalo/riscv-custom-insn.c:42 | the test word for `.insn css 0x2, 0x6, x4, 15` decodes to register a5 in rd, rs2 and rs1, `uimm` 204 and `imm` -52 |
| OperandFacts.SharedRegisters | gdb/python/lib/gdb/custominsn.py:539-730 | CR, CI, CSS and CS give rd and rs1 the same register, and CSS also rs2 |
| Render.ImmAddress | gdb/python/lib/gdb/custominsn.py:202-205 | `int(imm, 16)` on a string and the value itself on an int (the `TypeError` branch); a string fails exactly when it is not hex |
| Render.Wrap | gdb/python/lib/gdb/custominsn.py:207-211 | non-negative addresses are kept; negative ones land below 2^64 - 1 on `riscv:rv64` and below 2^32 - 1 elsewhere |
| Render.WrapIsOneBelowTwosComplement | gdb/python/lib/gdb/custominsn.py:207-211 | the wrapped address is one less than the two's-complement address in 64 or 32 bits |
| Render.WrapMinusOne | gdb/python/lib/gdb/custominsn.py:210-211 | -1 wraps to 0xfffffffe on a 32-bit target, not 0xffffffff |
| Render.WithDest | gdb/python/lib/gdb/custominsn.py:200-214 | `dest` is appended with the formatted wrapped address exactly when `imm` is present and `dest` is not; every other key keeps its value; a non-hex string `imm` raises |
| Render.Expand | gdb/python/lib/gdb/custominsn.py:190-219 | expansion raises exactly when the `dest` step does |
| Render.ReplaceOneField | gdb/python/lib/gdb/custominsn.py:216-218 | one `replace('$' + k, v)` over a template of literals and placeholders fills exactly the placeholders named k; placeholders may touch, literal text may hold a `$` that no name character follows, and only a placeholder that some key extends needs a non-name character after it |
| Render.ReplaceAllSkipsStops | gdb/python/lib/gdb/custominsn.py:216-218 | `replace('$' + k, v)` leaves alone text in which every `$` is last or followed by a non-name character |
| Render.SubstituteFills | gdb/python/lib/gdb/custominsn.py:216-219 | the replace loop in insertion order equals filling each placeholder with its field's text, unknown placeholders kept, whenever no field's text but the last one's holds a `$` |
| Render.FillUnbound | gdb/python/lib/gdb/custominsn.py:216-219 | with no fields every placeholder stays as written |
| Render.ExpandFills | gdb/python/lib/gdb/custominsn.py:190-219 | expanding a template is filling it over the fields after the `dest` step; the `dest` text is last and may hold anything |
| Render.PlainTemplateUnchanged | gdb/python/lib/gdb/custominsn.py:216-219 | a template with no `$` comes out unchanged |
| RenderFacts.DecodedNoDest | gdb/python/lib/gdb/custominsn.py:333-344 | no decoder writes `dest`, and R and CR write no `imm` |
| RenderFacts.DecodedImm | gdb/python/lib/gdb/custominsn.py:200-205 | on decoded fields `imm` reads back as the branch or jump target for B and J, the shifted immediate for U and the signed immediate otherwise |
| RenderFacts.DecodedDest | gdb/python/lib/gdb/custominsn.py:200-214 | the `dest` step never raises on decoded fields and appends exactly the wrapped immediate |
| RenderFacts.DecodedPlain | gdb/python/lib/gdb/custominsn.py:215-218 | no decoded value contains a `$`, so one substitution cannot create another placeholder |
| RenderFacts.KernelBranch | gdb/python/lib/gdb/custominsn.py:200-211 | a branch eight bytes ahead at 0xffffffff80000000, which Python sees as -0x80000000, gets `imm` `hex(-0x7ffffff8)` and, on `riscv:rv64`, `dest` 0xffffffff80000007, one below the real target |
| RenderFacts.DecodedRenders | gdb/python/lib/gdb/custominsn.py:190-219 | expanding a template over a decoded word fills each placeholder with its field's text and leaves unknown placeholders as written, adjacent placeholders included, whatever text `format_address` gives |
| RenderFacts.AdjacentExample | gdb/python/lib/gdb/custominsn.py:216-218 | `$rd$rs1` over word 5374347 renders `gptp` |
| RenderFacts.DollarExample | gdb/python/lib/gdb/custominsn.py:216-218 | `$ $rd $` over word 5374347 renders `$ gp $`: a `$` with no name after it is kept |
| RenderFacts.FakeExample | gdb/python/lib/gdb/custominsn.py:333-344 | word 5374347 under `$opcode fake $rd,$rs1,$rs2` renders `$opcode fake gp,tp,t0` |
| Catalog.ClassOf | gdb/python/lib/gdb/custominsn.py:862-879 | the type table maps each class name to its class, and also `SB` to B and `UJ` to J |
| Catalog.ReadFuncts | gdb/python/lib/gdb/custominsn.py:319-322 | the funct attributes are read in order: all are read exactly when all are present and hex; otherwise the first missing one, or the first one `int(_, 16)` rejects, ends the reading |
| Catalog.BuildInsn | gdb/python/lib/gdb/custominsn.py:881-886 | an element builds a valid entry holding exactly its attributes when its type is known, it carries what its class reads and those numbers are hex; a rejected number the constructor reaches raises `ValueError`, the opcode first; otherwise it is skipped with `Unknown Instruction Type: <type>`, or the load aborts when `type` is missing |
| Catalog.UnreadFunctIgnored | gdb/python/lib/gdb/custominsn.py:352-356 | an I entry builds whatever its `funct7` says |
| Catalog.UnknownTypeSkipped | gdb/python/lib/gdb/custominsn.py:884-886 | an entry of unknown type is skipped whatever its `opcode` says |
| Catalog.BadOpcodeRaises | gdb/python/lib/gdb/custominsn.py:173 | opcode `zz` makes the load raise `ValueError` |
| Catalog.OtherChildIgnored | gdb/python/lib/gdb/custominsn.py:880 | a child that is not an `instruction` element is not read |
| Catalog.CreateInsns | gdb/python/lib/gdb/custominsn.py:858-887 | the load fails exactly when some `instruction` element has no `type` or carries a number the constructor reaches and `int(_, 16)` rejects |
| Catalog.CreateInsnsRaisesFirst | gdb/python/lib/gdb/custominsn.py:880-886 | a failed load raises what the first raising `instruction` element raises |
| Catalog.CreateInsnsEntries | gdb/python/lib/gdb/custominsn.py:858-887 | every loaded entry is valid and is what some `instruction` element builds |
| Catalog.CreateInsnsAppend | gdb/python/lib/gdb/custominsn.py:880-886 | loading a + b gives a's entries and messages then b's, and a's messages survive when b raises |
| Catalog.LoadHandler | gdb/python/lib/gdb/custominsn.py:807-814 | no description gives an empty catalog; otherwise the catalog is what `create_insns` builds |
| Catalog.FirstMatch | gdb/python/lib/gdb/custominsn.py:889-895 | the index found matches and no earlier entry does; none is found exactly when no entry matches |
| Catalog.CompareWithInsns | gdb/python/lib/gdb/custominsn.py:889-895 | the entry returned is in the catalog, valid, of the request's length, and matches |
| Catalog.FirstMatchAt | gdb/python/lib/gdb/custominsn.py:889-895 | an entry that matches with no earlier match is the one returned |
| Catalog.Disassemble | gdb/python/lib/gdb/custominsn.py:904-910 | `None` exactly when no entry matches; otherwise the first match's template expanded over the word's fields |
| Catalog.DisassembleRenders | gdb/python/lib/gdb/custominsn.py:904-910 | the text printed is the first match's template with every placeholder filled by its decoded field |
| Session.GetDisassembler | gdb/python/lib/gdb/custominsn.py:949-954 | a cached connection gets its catalog without loading; a new one loads, is cached under that connection and fails only when the load does; other entries are unchanged |
| Session.Discard | gdb/python/lib/gdb/custominsn.py:956-958 | exactly that connection's entry is removed |
| Session.GetDisassemblerReuses | gdb/python/lib/gdb/custominsn.py:949-954 | a second call on the same connection loads nothing and returns the first call's catalog |
| Session.DiscardUndoesGet | gdb/python/lib/gdb/custominsn.py:956-958 | discarding the entry a first load created restores the cache |
| Session.DiscardReloads | gdb/python/lib/gdb/custominsn.py:960-962 | after a discard the next request loads the description afresh |
| Session.GetSetString | gdb/python/lib/gdb/custominsn.py:103-109 | the selected connection's catalog is dropped; `remote:` alone becomes `remote:insn.xml` with the message, seventeen blanks included, any other value is kept with no message |
| Session.GetSetStringSettles | gdb/python/lib/gdb/custominsn.py:103-109 | setting the path again to the value left behind changes nothing and prints nothing |
| Registry.Register | gdb/python/lib/gdb/disassembler.py:63-91 | a non-disassembler raises `TypeError`; otherwise the previous entry for the key is returned, the key now holds the new disassembler (or nothing for `None`), other keys are unchanged, and the hook is set exactly when the registry is non-empty |
| Registry.RegisterUndo | gdb/python/lib/gdb/disassembler.py:63-91 | registering the returned previous entry for the same key restores the registry |
| Registry.Lookup | gdb/python/lib/gdb/disassembler.py:94-105 | the architecture's own entry wins, then the `None` wildcard; an unnamed architecture, or one whose `name()` raises, finds nothing |
| Registry.LookupNeedsHook | gdb/python/lib/gdb/disassembler.py:85-89 | while the hook is unset, lookup finds nothing |
| Registry.LookupAfterRegister | gdb/python/lib/gdb/disassembler.py:63-105 | after registering for a name, lookup by that name finds the new disassembler; a wildcard is found by names without an entry of their own |
| Registry.PerformDisassembly | gdb/python/lib/gdb/disassembler.py:108-112 | the found disassembler is called, and `None` is returned when there is none |
| Word.InsnLength | gdb/python/lib/gdb/custominsn.py:976-979 | the request is 4 bytes exactly when the first byte's low two bits are both set, and 2 otherwise |
| Word.LeValueBound | gdb/python/lib/gdb/custominsn.py:982-986 | the folded word fits in 8 bits per byte |
| Word.AssembleWord | gdb/python/lib/gdb/custominsn.py:982-986 | the `insn \| (b << shift)` loop computes the little-endian value of the bytes |
| Word.LeValueOfBytes | gdb/python/lib/gdb/custominsn.py:982-986 | folding the bytes of a value gives the value back |
| Word.LeBytesOfValue | gdb/python/lib/gdb/custominsn.py:982-986 | splitting a folded word gives the bytes back |
| Word.LengthFromWord | gdb/python/lib/gdb/custominsn.py:976-979 | the length rule reads the low two bits of the assembled word |
| DisasmInfo.CoreAddr | gdb/python/py-disasm.c:347-365 | `address + offset` wraps modulo 2^64 |
| DisasmInfo.Signed | gdb/python/py-disasm.c:414 | the signed 64-bit reading of an address: within [-2^63, 2^63), the same bits, and negative exactly for addresses from 2^63 up |
| DisasmInfo.SignedUnique | gdb/python/py-disasm.c:414 | only one signed 64-bit integer has an address's bits |
| DisasmInfo.AddressOf | gdb/python/py-disasm.c:409-414 | the `address` attribute raises `RuntimeError` on an invalid object and otherwise gives the signed reading of the address |
| DisasmInfo.KernelAddressIsNegative | gdb/python/py-disasm.c:414 | 0xffffffff80000000 reaches Python as -0x80000000 |
| DisasmInfo.Begin | gdb/python/py-disasm.c:591-605 | a new object is valid at its address, with no result and no memory error |
| DisasmInfo.End | gdb/python/py-disasm.c:610-615 | at the end of the scope the object becomes invalid and nothing else changes |
| DisasmInfo.SetMemoryError | gdb/python/py-disasm.c:135-142 | only the first memory error address is recorded |
| DisasmInfo.ClearMemoryError | gdb/python/py-disasm.c:148-151 | the memory error flag is cleared and nothing else changes |
| DisasmInfo.ClearResult | gdb/python/py-disasm.c:158-163 | the length becomes -1 and the text empty, and nothing else changes |
| DisasmInfo.RecordMemoryErrors | gdb/python/py-disasm.c:556-563 | a run of reported memory errors records the first one, and none leaves the object as it was |
| DisasmInfo.RecordKeepsFirst | gdb/python/py-disasm.c:135-142 | memory errors after the first change nothing |
| DisasmInfo.SetResult | gdb/python/py-disasm.c:303-341 | an invalid object raises `RuntimeError`; a length outside a C `int` raises `OverflowError`; a text holding a NUL, then a non-positive length, then an empty text raise `ValueError`, each changing nothing; otherwise exactly that result is recorded and any memory error cleared |
| DisasmInfo.MemoryErrorAt | gdb/python/py-disasm.c:347-365 | an invalid object raises `RuntimeError`; an offset outside `LONGEST` raises `OverflowError` and changes nothing; otherwise the result is discarded and `address + offset` is recorded unless an error already was |
| DisasmInfo.BuiltinDisassemble | gdb/python/py-disasm.c:172-247 | earlier results are discarded; GDB's length and text are recorded; -1 raises `gdb.MemoryError` naming the first reported address; any other failure of GDB's interface is an assertion failure |
| DisasmInfo.ReadCount | gdb/python/py-disasm.c:284-285 | the count the target is asked for is the length modulo 2^32, the length itself below 2^32 |
| DisasmInfo.ReadMemory | gdb/python/py-disasm.c:257-294 | an invalid object raises `RuntimeError`; a length or offset outside `LONGEST` raises `OverflowError`; otherwise a buffer of `length` bytes whose first `ReadCount(length)` are those at `address + offset + i`, exactly when all of those are readable, and else the read error naming the full length and the start address |
| DisasmInfo.OverflowingArguments | gdb/python/py-disasm.c:262-356 | `set_result(2**31, "x")`, `memory_error(2**63)` and reads with a length of 2^63 or an offset below -2^63 raise `OverflowError` |
| DisasmInfo.WideReadAsksForNothing | gdb/python/py-disasm.c:284-285 | a read of 2^32 bytes asks the target for none and succeeds with nothing readable, while one of 2^32 + 1 bytes fails |
| DisasmInfo.StringOf | gdb/python/py-disasm.c:422-434 | `None` while the text is empty, the text when a result is recorded, an assertion failure on a text with no length |
| DisasmInfo.LengthOf | gdb/python/py-disasm.c:443-453 | `None` while no result is recorded, the positive length when one is, an assertion failure otherwise |
| DisasmInfo.AccessorsAgree | gdb/python/py-disasm.c:422-453 | on a consistent object both attributes answer, and agree on whether there is a result |
| DisasmInfo.StepsKeepConsistent | gdb/python/py-disasm.c:172-365 | `set_result`, `memory_error` and `builtin_disassemble` keep length and text both absent or both present |
| DisasmInfo.SetResultReadsBack | gdb/python/py-disasm.c:303-453 | a recorded result reads back through `string` and `length` |
| DisasmInfo.MemoryErrorClearsResult | gdb/python/py-disasm.c:347-365 | after a `memory_error` whose offset fits `LONGEST` both attributes read `None` |
| DisasmInfo.FirstMemoryErrorWins | gdb/python/py-disasm.c:135-142 | of two `memory_error` calls the first offset is recorded, and a later accepted `set_result` clears it |
| DisasmInfo.EndedObjectRefuses | gdb/python/py-disasm.c:109-129 | once the scope has ended every method and attribute raises `RuntimeError` and changes nothing |
| DisasmInfo.PrintInsn | gdb/python/py-disasm.c:658-748 | no hook means no answer; an exception means no answer, with a stack printed unless it is `gdb.MemoryError`; a non-`None` return is an error; then a recorded memory error gives -1 at its address; then the recorded result is printed |
| DisasmInfo.PrintedIsResult | gdb/python/py-disasm.c:737-747 | a consistent final state never prints an empty text or returns a non-positive length |
| DisasmInfo.SetResultIsPrinted | gdb/python/py-disasm.c:303-748 | a disassembler that only calls `set_result` with accepted arguments gets exactly that result printed; a `memory_error` after it reports the error instead |
| RiscvCall.Highlight | gdb/python/lib/gdb/custominsn.py:923-927 | GDB's own disassembler runs exactly when no text is recorded yet; recorded text is left as is |
| RiscvCall.Respond | gdb/python/py-disasm.c:658-700 | with Python uninitialised or the hook unset GDB gets no answer; a printed answer comes only from a registered RISC-V disassembler |
| RiscvCall.ReadsAt | gdb/python/lib/gdb/custominsn.py:975-979 | the reads at offset 0 return exactly the bytes at the instruction's address |
| RiscvCall.CallReads | gdb/python/lib/gdb/custominsn.py:964-994 | with the catalog loaded and the bytes readable, the call decodes the word of the chosen length at the signed reading of the address and records the catalog's rendering or GDB's own |
| RiscvCall.FinishAnswers | gdb/python/lib/gdb/custominsn.py:988-994 | a non-empty rendering without a NUL is printed with the request's length; an empty one, or one holding a NUL, raises `ValueError`; no rendering prints GDB's own result |
| RiscvCall.CatalogDecides | gdb/python/lib/gdb/custominsn.py:964-994 | end to end, a matching entry's non-empty, NUL-free rendering at the signed reading of the address is what GDB prints, an empty one or one holding a NUL makes GDB fall back with a stack printed, and with no match GDB prints its own disassembly |
| RiscvCall.DisabledIsBuiltin | gdb/python/lib/gdb/custominsn.py:966-968 | with custom display off GDB prints its own disassembly and no catalog is loaded |
| RiscvCall.UnreadableFallsBack | gdb/python/lib/gdb/custominsn.py:975 | an unreadable first byte raises `gdb.MemoryError`, which GDB swallows before falling back |
| RiscvCall.LoadFailureFallsBack | gdb/python/lib/gdb/custominsn.py:970 | a description that fails to load makes GDB print the stack and fall back, and nothing is cached |

## Left out

- Fetching the description, from a local file or over the remote protocol (`fetch_xml`), is I/O. Its parsed root is a parameter.
- The `gdb.Parameter` classes' documentation, show strings (`get_show_string`) and registration are not modelled; neither is the `__bool__` of the display switch. Only `get_set_string` and the switch's value are.
- Syntax highlighting with pygments is a foreign library. `syntax_highlight` is modelled as the variant without pygments, which changes nothing.
- `gdb.disassembler.format_address` is GDB's symbol lookup, so it is a function parameter.
- Catalog.BuildInsn: `int(_, 16)` also accepts a sign, surrounding blanks, underscores between digits and non-ASCII digits. The model requires every number the constructor reaches to be either plain hex (an optional `0x`) or a text it certainly rejects (empty, or holding a printable ASCII character that no spelling allows). The exotic spellings are left out: a negative opcode or funct would need the masks' behaviour on negative Python integers.
- Render.ReplaceOneField, Render.SubstituteFills, Render.ExpandFills, RenderFacts.DecodedRenders, Catalog.DisassembleRenders: two template shapes are outside these contracts. A placeholder whose name some field name properly extends (`$rs` beside the key `rs1`) must be followed by the end or by a literal starting with a non-name character. A `$` that ends a literal must be followed by the end or by a literal starting with a non-name character, so `$$rd` is not covered. In both shapes, filling one placeholder can spell a later field's placeholder, and what Python then prints depends on the field texts.
- `builtin_disassemble`'s `memory_source` argument and the Python read-memory callback are not modelled. GDB's own disassembler is the `HostRun` oracle.
- DisasmInfo.ReadMemory: a negative length is not modelled (the length is a `nat`): `xmalloc` of the converted size fails. The buffer bytes past `ReadCount(length)` are never written, so their content is whatever the allocation held; the model gives 0 and its contract says nothing of them. `__call__` only asks for 1, 2 or 4 bytes.
- The exact text of the read error and the memory error is not modelled, since it comes from `core_addr_to_string` and `pulongest`. The model keeps the count and the address.
- A disassembler registered by other code is `Foreign`: its behaviour is outside the model.
- The `connection_removed` event wiring, `__del__` and the loop that registers the disassembler for every `riscv` architecture name are event and start-up plumbing. `Session.Discard` models what the event triggers.
- The `architecture`, `progspace` and `can_emit_style_escape` attributes and `format_address` of `DisassembleInfo` are not modelled.
- RiscvCall.Finish and RiscvCall.Call: their own contracts state nothing beyond cache validity. What they compute is stated by `RiscvCall.CallReads`, `RiscvCall.FinishAnswers` and `RiscvCall.CatalogDecides`.
