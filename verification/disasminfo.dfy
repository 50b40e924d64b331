/** The `gdb.disassembler.DisassembleInfo` object of gdb/python/py-disasm.c:
    the result a Python disassembler records (a length, -1 for none, and
    the text), the first memory error it reports, its validity (an object
    outlives the `gdbpy_print_insn` call that created it, but is invalid
    afterwards), and how `gdbpy_print_insn` turns the final state into its
    answer to GDB. GDB's own disassembler is an oracle: a `HostRun` says
    what it reported. */
module DisasmInfo {
  import opened Wrappers

  /** `CORE_ADDR` is a 64-bit unsigned integer. */
  const AddressSpace: nat := 0x1_0000_0000_0000_0000

  /** `address + offset` computed in `CORE_ADDR`. */
  function CoreAddr(x: int): (r: nat)
    ensures r < AddressSpace
    ensures 0 <= x < AddressSpace ==> r == x
    ensures (x - r) % AddressSpace == 0
  {
    x % AddressSpace
  }

  /** A value of `CORE_ADDR`. */
  type CoreAddress = a: nat | a < AddressSpace

  /** Half the address space: `CORE_ADDR` values from here up read as
      negative through a signed 64-bit `LONGEST`. */
  const SignBoundary: int := 0x8000_0000_0000_0000

  /** The values of `LONGEST`, a signed 64-bit integer: what the `"L"`
      argument format accepts without raising `OverflowError`. */
  predicate FitsLongest(x: int)
  {
    -SignBoundary <= x < SignBoundary
  }

  /** The values of a C `int`, 32 bits wide: what the `"i"` argument format
      accepts without raising `OverflowError`. */
  predicate FitsInt(x: int)
  {
    -0x8000_0000 <= x < 0x8000_0000
  }

  /** `address` converted to `LONGEST`, as `gdb_py_object_from_longest`
      receives it: the signed 64-bit integer with the same bits. */
  function Signed(address: CoreAddress): (r: int)
    ensures FitsLongest(r)
    ensures CoreAddr(r) == address
    ensures r < 0 <==> address >= SignBoundary
  {
    if address >= SignBoundary then address - AddressSpace else address
  }

  /** Only one signed 64-bit integer has the bits of `address`. */
  lemma SignedUnique(address: CoreAddress, x: int)
    requires FitsLongest(x) && CoreAddr(x) == address
    ensures x == Signed(address)
  {
    var k := (x - address) / AddressSpace;
    assert x - address == k * AddressSpace;
    assert -2 < k < 1;
  }

  /** The fields of `disasm_info_object` the Python API can observe. */
  datatype Info = Info(valid: bool, address: CoreAddress, length: int, content: string,
                       memErrorP: bool, memErrorAddr: nat)

  /** The Python exceptions the object raises, by kind. A memory error's
      text names the address when one was recorded; `InternalError` is a
      failed `gdb_assert`. */
  datatype PyError =
    | RuntimeError(message: string)
    | ValueError(message: string)
    | MemoryError(at: Option<nat>)
    | ReadFailed(count: nat, from: nat)
    | OverflowError
    | InternalError

  const NoLongerValid: string := "DisassembleInfo is no longer valid."
  const LengthNotPositive: string := "Length must be greater than 0."
  const EmptyString: string := "String must not be empty."
  /** What the `"s"` argument format says of a string holding a NUL. */
  const EmbeddedNull: string := "embedded null character"

  /** The state after a method call and the exception it raised, if any. */
  datatype Step = Step(info: Info, error: Option<PyError>)

  function Invalid(info: Info): Step
  {
    Step(info, Some(RuntimeError(NoLongerValid)))
  }

  /** A result is recorded. */
  predicate HasResult(info: Info)
  {
    info.length != -1
  }

  /** The length and the text agree: both absent or both present. */
  predicate Consistent(info: Info)
  {
    (info.length == -1 && info.content == "") || (info.length > 0 && info.content != "")
  }

  /** The `scoped_disasm_info_object` constructor. */
  function Begin(address: CoreAddress): (r: Info)
    ensures r.valid && r.address == address
    ensures !HasResult(r) && r.content == "" && !r.memErrorP
    ensures Consistent(r)
  {
    Info(true, address, -1, "", false, 0)
  }

  /** The destructor: the object stays, but is no longer valid. */
  function End(info: Info): (r: Info)
    ensures !r.valid
    ensures r.(valid := info.valid) == info
  {
    info.(valid := false)
  }

  /** `disasmpy_set_memory_error`: only the first error is recorded. */
  function SetMemoryError(info: Info, addr: nat): (r: Info)
    ensures r.memErrorP
    ensures info.memErrorP ==> r == info
    ensures !info.memErrorP ==> r.memErrorAddr == addr
    ensures r.(memErrorP := info.memErrorP, memErrorAddr := info.memErrorAddr) == info
  {
    if info.memErrorP then info else info.(memErrorP := true, memErrorAddr := addr)
  }

  /** `disasmpy_clear_memory_error`. */
  function ClearMemoryError(info: Info): (r: Info)
    ensures !r.memErrorP
    ensures r.(memErrorP := info.memErrorP) == info
  {
    info.(memErrorP := false)
  }

  /** `disasmpy_clear_disassembler_result`. */
  function ClearResult(info: Info): (r: Info)
    ensures !HasResult(r) && r.content == "" && Consistent(r)
    ensures r.(length := info.length, content := info.content) == info
  {
    info.(length := -1, content := "")
  }

  /** The memory errors GDB's disassembler reports, in order. */
  function RecordMemoryErrors(info: Info, addrs: seq<nat>): (r: Info)
    ensures |addrs| == 0 ==> r == info
    ensures |addrs| > 0 ==> r.memErrorP
    ensures |addrs| > 0 && !info.memErrorP ==> r.memErrorAddr == addrs[0]
    ensures info.memErrorP ==> r == info
    ensures r.(memErrorP := info.memErrorP, memErrorAddr := info.memErrorAddr) == info
    decreases |addrs|
  {
    if |addrs| == 0 then info else RecordMemoryErrors(SetMemoryError(info, addrs[0]), addrs[1..])
  }

  /** The arguments `set_result` accepts: a positive length that fits a C
      `int` and a non-empty text without a NUL. */
  predicate Acceptable(length: int, s: string)
  {
    FitsInt(length) && length > 0 && s != "" && '\0' !in s
  }

  /** `DisassembleInfo.set_result(length, string)`. The arguments are
      converted first, the length as a C `int` and the text as a C string,
      and then checked. */
  function SetResult(info: Info, length: int, s: string): (r: Step)
    ensures !info.valid ==> r == Invalid(info)
    ensures info.valid && !FitsInt(length) ==> r == Step(info, Some(OverflowError))
    ensures info.valid && FitsInt(length) && '\0' in s ==> r == Step(info, Some(ValueError(EmbeddedNull)))
    ensures info.valid && FitsInt(length) && '\0' !in s && length <= 0 ==>
      r == Step(info, Some(ValueError(LengthNotPositive)))
    ensures info.valid && FitsInt(length) && length > 0 && s == "" ==>
      r == Step(info, Some(ValueError(EmptyString)))
    ensures r.error.None? <==> info.valid && Acceptable(length, s)
    ensures r.error.None? ==> r.info.length == length && r.info.content == s && !r.info.memErrorP
    ensures r.error.None? ==> r.info.valid && r.info.address == info.address && Consistent(r.info)
  {
    if !info.valid then Invalid(info)
    else if !FitsInt(length) then Step(info, Some(OverflowError))
    else if '\0' in s then Step(info, Some(ValueError(EmbeddedNull)))
    else if length <= 0 then Step(info, Some(ValueError(LengthNotPositive)))
    else if s == "" then Step(info, Some(ValueError(EmptyString)))
    else
      var cleared := ClearResult(ClearMemoryError(info));
      Step(cleared.(length := length, content := s), None)
  }

  /** `DisassembleInfo.memory_error(offset)`: an offset that fits `LONGEST`
      discards the result and records `address + offset` unless an error
      already was. */
  function MemoryErrorAt(info: Info, offset: int): (r: Step)
    ensures !info.valid ==> r == Invalid(info)
    ensures info.valid && !FitsLongest(offset) ==> r == Step(info, Some(OverflowError))
    ensures r.error.None? <==> info.valid && FitsLongest(offset)
    ensures r.error.None? ==> r.info.valid && r.info.address == info.address
    ensures r.error.None? ==> !HasResult(r.info) && r.info.content == "" && r.info.memErrorP
    ensures r.error.None? ==>
      r.info.memErrorAddr == (if info.memErrorP then info.memErrorAddr else CoreAddr(info.address + offset))
  {
    if !info.valid then Invalid(info)
    else if !FitsLongest(offset) then Step(info, Some(OverflowError))
    else Step(SetMemoryError(ClearResult(info), CoreAddr(info.address + offset)), None)
  }

  /** What `gdbarch_print_insn` did: the memory errors it reported through
      the callback, the text it printed into the object's stream, and the
      length it returned. */
  datatype HostRun = HostRun(memErrors: seq<nat>, printed: string, length: int)

  /** A host run that keeps to its interface: text exactly when it
      succeeds. */
  predicate WellBehaved(h: HostRun)
  {
    && (h.length == -1 ==> h.printed == "")
    && (h.length != -1 ==> h.length > 0 && h.printed != "" && |h.memErrors| == 0)
  }

  /** `gdb.disassembler.builtin_disassemble(info)` without a memory source.
      Any earlier result and memory error are discarded first. A length of
      -1 raises `gdb.MemoryError`, naming the first reported address if
      there was one; any other non-positive length, or a memory error beside
      a success, fails an assertion. */
  function BuiltinDisassemble(info: Info, host: HostRun): (r: Step)
    ensures !info.valid ==> r == Invalid(info)
    ensures info.valid ==> r.info.valid && r.info.address == info.address
    ensures info.valid ==> r.info.length == host.length && r.info.content == host.printed
    ensures info.valid ==> (r.info.memErrorP <==> |host.memErrors| > 0)
    ensures info.valid && |host.memErrors| > 0 ==> r.info.memErrorAddr == host.memErrors[0]
    ensures info.valid && host.length == -1 ==>
      r.error == Some(MemoryError(if |host.memErrors| > 0 then Some(host.memErrors[0]) else None))
    ensures info.valid && host.length != -1 && (host.length <= 0 || |host.memErrors| > 0) ==>
      r.error == Some(InternalError)
    ensures r.error.None? <==> info.valid && host.length > 0 && |host.memErrors| == 0
  {
    if !info.valid then Invalid(info)
    else
      var cleared := ClearMemoryError(ClearResult(info));
      var reported := RecordMemoryErrors(cleared, host.memErrors);
      var done := reported.(length := host.length, content := host.printed);
      if done.length == -1 then
        Step(done, Some(MemoryError(if done.memErrorP then Some(done.memErrorAddr) else None)))
      else if done.length <= 0 || done.memErrorP then Step(done, Some(InternalError))
      else Step(done, None)
  }

  /** The `address` attribute: Python sees the signed reading of the
      address, so one in the upper half of the address space is negative. */
  function AddressOf(info: Info): (r: Result<int, PyError>)
    ensures !info.valid ==> r == Failure(RuntimeError(NoLongerValid))
    ensures info.valid ==> r.Success? && FitsLongest(r.value)
    ensures r.Success? ==> CoreAddr(r.value) == info.address
  {
    if !info.valid then Failure(RuntimeError(NoLongerValid)) else Success(Signed(info.address))
  }

  /** A kernel address such as 0xffffffff80000000 reaches Python as a
      negative number. */
  lemma KernelAddressIsNegative()
    ensures AddressOf(Begin(0xffff_ffff_8000_0000)) == Success(-0x8000_0000)
  {
  }

  /** The address of byte `i` of a read at `offset`. */
  function ByteAddr(info: Info, offset: int, i: nat): nat
  {
    CoreAddr(info.address + offset + i)
  }

  /** The count the target read is asked for: the length cast to a 32-bit
      `unsigned int`. */
  function ReadCount(length: nat): (n: nat)
    ensures n < 0x1_0000_0000
    ensures length < 0x1_0000_0000 ==> n == length
    ensures (length - n) % 0x1_0000_0000 == 0
  {
    length % 0x1_0000_0000
  }

  /** `DisassembleInfo.read_memory(length, offset)` over `mem`, the bytes the
      target can supply by address. Both arguments must fit `LONGEST`. The
      target is asked for `ReadCount(length)` bytes, the buffer returned
      holds `length`, and the bytes beyond the count are never written: the
      model gives them as 0. The object itself does not change. */
  function ReadMemory(info: Info, mem: map<nat, nat>, length: nat, offset: int): (r: Result<seq<nat>, PyError>)
    ensures !info.valid ==> r == Failure(RuntimeError(NoLongerValid))
    ensures info.valid && !(FitsLongest(length) && FitsLongest(offset)) ==> r == Failure(OverflowError)
    ensures r.Success? ==> |r.value| == length
    ensures r.Success? ==> forall i :: 0 <= i < ReadCount(length) ==>
      ByteAddr(info, offset, i) in mem && r.value[i] == mem[ByteAddr(info, offset, i)]
    ensures info.valid && FitsLongest(length) && FitsLongest(offset) ==>
      (r.Failure? <==> exists i :: 0 <= i < ReadCount(length) && ByteAddr(info, offset, i) !in mem)
    ensures info.valid && FitsLongest(length) && FitsLongest(offset) && r.Failure? ==>
      r.error == ReadFailed(length, CoreAddr(info.address + offset))
  {
    if !info.valid then Failure(RuntimeError(NoLongerValid))
    else if !FitsLongest(length) || !FitsLongest(offset) then Failure(OverflowError)
    else if forall i :: 0 <= i < ReadCount(length) ==> ByteAddr(info, offset, i) in mem then
      Success(seq(length, i requires 0 <= i < length =>
        if i < ReadCount(length) then mem[ByteAddr(info, offset, i)] else 0))
    else Failure(ReadFailed(length, CoreAddr(info.address + offset)))
  }

  /** Out-of-range arguments raise `OverflowError` and change nothing. */
  lemma OverflowingArguments(mem: map<nat, nat>)
    ensures SetResult(Begin(0), 0x8000_0000, "x") == Step(Begin(0), Some(OverflowError))
    ensures MemoryErrorAt(Begin(0), SignBoundary) == Step(Begin(0), Some(OverflowError))
    ensures ReadMemory(Begin(0), mem, SignBoundary, 0) == Failure(OverflowError)
    ensures ReadMemory(Begin(0), mem, 1, -SignBoundary - 1) == Failure(OverflowError)
  {
  }

  /** A read of 2^32 bytes asks the target for none, so it succeeds even
      where nothing is readable. */
  lemma WideReadAsksForNothing(address: CoreAddress, mem: map<nat, nat>)
    requires mem == map[]
    ensures ReadMemory(Begin(address), mem, 0x1_0000_0000, 0).Success?
    ensures ReadMemory(Begin(address), mem, 0x1_0000_0001, 0).Failure?
  {
    assert ByteAddr(Begin(address), 0, 0) !in mem;
  }

  /** The `string` attribute: `None` while the text is empty. */
  function StringOf(info: Info): (r: Result<Option<string>, PyError>)
    ensures !info.valid ==> r == Failure(RuntimeError(NoLongerValid))
    ensures info.valid && r.Success? ==> (r.value.None? <==> info.content == "")
    ensures r.Success? && r.value.Some? ==> r.value.value == info.content
    ensures info.valid ==> (r.Failure? <==> info.content != "" && info.length <= 0)
    ensures info.valid && r.Failure? ==> r.error == InternalError
  {
    if !info.valid then Failure(RuntimeError(NoLongerValid))
    else if info.content == "" then Success(None)
    else if info.length <= 0 then Failure(InternalError)
    else Success(Some(info.content))
  }

  /** The `length` attribute: `None` while no result is recorded. */
  function LengthOf(info: Info): (r: Result<Option<int>, PyError>)
    ensures !info.valid ==> r == Failure(RuntimeError(NoLongerValid))
    ensures info.valid && r.Success? ==> (r.value.None? <==> !HasResult(info))
    ensures r.Success? && r.value.Some? ==> r.value.value == info.length && r.value.value > 0
    ensures info.valid ==> (r.Failure? <==> HasResult(info) && (info.length <= 0 || info.content == ""))
    ensures info.valid && r.Failure? ==> r.error == InternalError
  {
    if !info.valid then Failure(RuntimeError(NoLongerValid))
    else if info.length == -1 then Success(None)
    else if info.length <= 0 || info.content == "" then Failure(InternalError)
    else Success(Some(info.length))
  }

  // ---------------------------------------------------------------------
  // What the operations preserve and how they combine

  /** On a consistent object both attributes answer, and agree on whether
      there is a result. */
  lemma AccessorsAgree(info: Info)
    requires info.valid && Consistent(info)
    ensures StringOf(info).Success? && LengthOf(info).Success?
    ensures StringOf(info).value.None? <==> LengthOf(info).value.None?
  {
  }

  /** Every method keeps the object consistent, `builtin_disassemble` as
      long as GDB's disassembler keeps to its interface. */
  lemma StepsKeepConsistent(info: Info, length: int, s: string, offset: int, host: HostRun)
    requires Consistent(info)
    ensures Consistent(SetResult(info, length, s).info)
    ensures Consistent(MemoryErrorAt(info, offset).info)
    ensures WellBehaved(host) ==> Consistent(BuiltinDisassemble(info, host).info)
  {
  }

  /** A recorded result reads back through the attributes. */
  lemma SetResultReadsBack(info: Info, length: int, s: string)
    requires SetResult(info, length, s).error.None?
    ensures StringOf(SetResult(info, length, s).info) == Success(Some(s))
    ensures LengthOf(SetResult(info, length, s).info) == Success(Some(length))
  {
  }

  /** After `memory_error` both attributes read `None`. */
  lemma MemoryErrorClearsResult(info: Info, offset: int)
    requires info.valid && FitsLongest(offset)
    ensures StringOf(MemoryErrorAt(info, offset).info) == Success(None)
    ensures LengthOf(MemoryErrorAt(info, offset).info) == Success(None)
  {
  }

  /** Of two `memory_error` calls the first offset is the one recorded, and
      a `set_result` afterwards clears it. */
  lemma FirstMemoryErrorWins(info: Info, first: int, second: int, length: int, s: string)
    requires info.valid && !info.memErrorP && FitsLongest(first)
    ensures var twice := MemoryErrorAt(MemoryErrorAt(info, first).info, second).info;
      twice.memErrorP && twice.memErrorAddr == CoreAddr(info.address + first) &&
      (Acceptable(length, s) ==> !SetResult(twice, length, s).info.memErrorP)
  {
  }

  /** Once the scope has ended every method and attribute raises
      `RuntimeError("DisassembleInfo is no longer valid.")` and changes
      nothing. */
  lemma EndedObjectRefuses(info: Info, length: int, s: string, offset: int, host: HostRun,
                           mem: map<nat, nat>, count: nat)
    ensures var e := End(info);
      && SetResult(e, length, s) == Invalid(e)
      && MemoryErrorAt(e, offset) == Invalid(e)
      && BuiltinDisassemble(e, host) == Invalid(e)
      && ReadMemory(e, mem, count, offset) == Failure(RuntimeError(NoLongerValid))
      && StringOf(e) == Failure(RuntimeError(NoLongerValid))
      && LengthOf(e) == Failure(RuntimeError(NoLongerValid))
  {
  }

  /** Of the memory errors the host reports, the first is kept. */
  lemma {:induction false} RecordKeepsFirst(info: Info, addrs: seq<nat>, k: nat)
    requires !info.memErrorP && k < |addrs|
    ensures RecordMemoryErrors(info, addrs) == RecordMemoryErrors(info, addrs[..k + 1])
    decreases |addrs|
  {
    if |addrs| > 1 && k > 0 {
      var next := SetMemoryError(info, addrs[0]);
      assert addrs[..k + 1][1..] == addrs[1..][..k];
      assert RecordMemoryErrors(next, addrs[1..]) == next;
      assert RecordMemoryErrors(next, addrs[1..][..k]) == next;
    } else if k == 0 {
      assert addrs[..1][1..] == [];
    }
  }

  // ---------------------------------------------------------------------
  // gdbpy_print_insn

  /** The `_print_insn` attribute of `gdb.disassembler` as
      `gdbpy_print_insn` finds it. */
  datatype Hook = NoModule | NoAttribute | AttributeFails | NotCallable | Callable

  /** How the call of `_print_insn(info)` ended. */
  datatype CallResult = Raised(memoryError: bool) | ReturnedNone | ReturnedOther

  /** GDB's answer: no value (GDB falls back to its own disassembler),
      possibly after printing a Python stack; the error for a bad return
      value; -1 after reporting the recorded memory error; or the recorded
      text printed and its length returned. */
  datatype Outcome =
    | Fallback(stackPrinted: bool)
    | InvalidReturn
    | MemoryFailure(addr: nat)
    | Printed(length: int, text: string)

  const InvalidReturnMessage: string := "invalid return value from gdb.disassembler._print_insn"

  /** The answer of `gdbpy_print_insn`, given the object's state when the
      call returned. An exception wins over everything; then a non-`None`
      return; then a memory error; then a missing result. */
  function PrintInsn(initialized: bool, hook: Hook, call: CallResult, final: Info): (r: Outcome)
    ensures !initialized || hook != Callable ==> r == Fallback(initialized && hook == AttributeFails)
    ensures initialized && hook == Callable && call.Raised? ==> r == Fallback(!call.memoryError)
    ensures initialized && hook == Callable && call == ReturnedOther ==> r == InvalidReturn
    ensures r.MemoryFailure? <==> initialized && hook == Callable && call == ReturnedNone && final.memErrorP
    ensures r.MemoryFailure? ==> r.addr == final.memErrorAddr
    ensures r.Printed? <==>
      initialized && hook == Callable && call == ReturnedNone && !final.memErrorP && HasResult(final)
    ensures r.Printed? ==> r.length == final.length && r.text == final.content
  {
    if !initialized then Fallback(false)
    else match hook
      case NoModule => Fallback(false)
      case NoAttribute => Fallback(false)
      case AttributeFails => Fallback(true)
      case NotCallable => Fallback(false)
      case Callable =>
        match call
        case Raised(m) => Fallback(!m)
        case ReturnedOther => InvalidReturn
        case ReturnedNone =>
          if final.memErrorP then MemoryFailure(final.memErrorAddr)
          else if !HasResult(final) then Fallback(false)
          else Printed(final.length, final.content)
  }

  /** A consistent final state never prints an empty text or returns a
      non-positive length. */
  lemma PrintedIsResult(initialized: bool, hook: Hook, call: CallResult, final: Info)
    requires Consistent(final)
    ensures var r := PrintInsn(initialized, hook, call, final);
      r.Printed? ==> r.length > 0 && r.text != ""
  {
  }

  /** A disassembler that only calls `set_result` makes GDB print exactly
      that result; one that reports a memory error after it makes GDB
      report the error instead. */
  lemma SetResultIsPrinted(address: CoreAddress, length: int, s: string, offset: int)
    requires Acceptable(length, s) && FitsLongest(offset)
    ensures var recorded := SetResult(Begin(address), length, s).info;
      && PrintInsn(true, Callable, ReturnedNone, recorded) == Printed(length, s)
      && PrintInsn(true, Callable, ReturnedNone, MemoryErrorAt(recorded, offset).info) ==
         MemoryFailure(CoreAddr(address + offset))
  {
  }
}
