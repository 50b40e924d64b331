/** One request from GDB to disassemble at an address, end to end:
    `gdbpy_print_insn` (py-disasm.c) creates a `DisassembleInfo`, calls the
    `_print_insn` hook, which looks up the registered disassembler
    (disassembler.py); for RISC-V that is `RISCVDisassembler.__call__`
    (custominsn.py), which fetches the word, matches it against the
    connection's catalog and records the rendering, or falls back on GDB's
    own disassembler. */
module RiscvCall {
  import opened Wrappers
  import opened Encoding
  import opened Catalog
  import opened Session
  import opened Word
  import opened DisasmInfo
  import Registry

  /** What the target and the host provide to one request: readable memory,
      GDB's own disassembler's behaviour at the address, the architecture's
      name, and `gdb.disassembler.format_address`. */
  datatype Target = Target(mem: map<nat, nat>, host: HostRun, arch: string,
                           formatAddress: int -> string)

  predicate MemoryBytes(mem: map<nat, nat>)
  {
    forall a :: a in mem ==> mem[a] < 256
  }

  /** An exception escaping `__call__`: a `DisassembleInfo` one, or the
      `KeyError` or `ValueError` of a catalog that failed to load. */
  datatype Raised = Py(e: PyError) | LoadFailed(cause: LoadRaise)

  /** How `__call__` ended: the session cache and the messages loading
      printed (both persist whatever happens next), the object's state, and
      the exception, if any. */
  datatype CallEnd = CallEnd(cache: Cache, printed: seq<string>, info: Info, raised: Option<Raised>)

  function Escape(s: Step): Option<Raised>
  {
    match s.error
    case None => None
    case Some(e) => Some(Py(e))
  }

  /** `SyntaxHighlightingDisassembler.__call__`: GDB's own disassembler runs
      when no text is recorded yet. Highlighting without pygments changes
      nothing. */
  function Highlight(info: Info, host: HostRun): (r: Step)
    requires info.valid
    ensures info.content != "" && info.length > 0 ==> r == Step(info, None)
    ensures info.content == "" ==> r == BuiltinDisassemble(info, host)
  {
    match StringOf(info)
    case Failure(e) => Step(info, Some(e))
    case Success(None) => BuiltinDisassemble(info, host)
    case Success(Some(_)) => Step(info, None)
  }

  /** Record the catalog's rendering, or fall back on GDB's disassembler,
      then highlight. */
  function Finish(info: Info, len: nat, text: Option<string>, host: HostRun): (r: Step)
    requires info.valid
  {
    var s := match text
      case Some(t) => SetResult(info, len, t)
      case None => BuiltinDisassemble(info, host);
    if s.error.Some? then s else Highlight(s.info, host)
  }

  /** `RISCVDisassembler.__call__(info)` with custom display `enabled`,
      connection `conn` selected and `root` its description. */
  function Call(enabled: bool, cache: Cache, conn: Connection, root: Option<seq<Element>>,
                info: Info, t: Target): (r: CallEnd)
    requires CacheValid(cache) && (root.Some? ==> AllNumbersDecided(root.value))
    requires info.valid && MemoryBytes(t.mem)
    ensures CacheValid(r.cache)
  {
    if !enabled then
      var s := Highlight(info, t.host);
      CallEnd(cache, [], s.info, Escape(s))
    else
      match GetDisassembler(cache, conn, root)
      case Failure(f) => CallEnd(cache, f.printed, info, Some(LoadFailed(f.raised)))
      case Success(g) =>
        match ReadMemory(info, t.mem, 1, 0)
        case Failure(e) => CallEnd(g.cache, g.printed, info, Some(Py(e)))
        case Success(first) =>
          assert first[0] < 256;
          var len := InsnLength(first[0]);
          match ReadMemory(info, t.mem, len, 0)
          case Failure(e) => CallEnd(g.cache, g.printed, info, Some(Py(e)))
          case Success(bs) =>
            var word := LeValue(bs);
            var text := Disassemble(g.handler, word, len, AddressOf(info).value, t.arch, t.formatAddress);
            var s := Finish(info, len, text, t.host);
            CallEnd(g.cache, g.printed, s.info, Escape(s))
  }

  /** The disassembler object custominsn.py registers for every RISC-V
      architecture. */
  const RiscvDisassembler: Registry.Disassembler := Registry.Disassembler("RISCVDisassembler")

  /** GDB's answer to the request: what `gdbpy_print_insn` returns, a failed
      assertion inside GDB, or the behaviour of some other registered
      disassembler, which is not part of this model. */
  datatype Answer = Answered(outcome: Outcome) | Internal | Foreign

  datatype Response = Response(cache: Cache, printed: seq<string>, answer: Answer)

  /** The whole request. */
  function Respond(initialized: bool, reg: Registry.State, enabled: bool, cache: Cache, conn: Connection,
                   root: Option<seq<Element>>, address: CoreAddress, t: Target): (r: Response)
    requires CacheValid(cache) && (root.Some? ==> AllNumbersDecided(root.value)) && MemoryBytes(t.mem)
    ensures CacheValid(r.cache)
    ensures !initialized || !reg.hookSet ==> r == Response(cache, [], Answered(Fallback(false)))
    ensures r.answer.Answered? && r.answer.outcome.Printed? ==>
      initialized && reg.hookSet && Registry.Lookup(reg.entries, Registry.Named(t.arch)) == Some(RiscvDisassembler)
  {
    if !initialized || !reg.hookSet then Response(cache, [], Answered(Fallback(false)))
    else
      var info := Begin(address);
      match Registry.Lookup(reg.entries, Registry.Named(t.arch))
      case None => Response(cache, [], Answered(PrintInsn(true, Callable, ReturnedNone, info)))
      case Some(d) =>
        if d != RiscvDisassembler then Response(cache, [], Foreign)
        else
          var e := Call(enabled, cache, conn, root, info, t);
          Response(e.cache, e.printed, AnswerOf(e))
  }

  /** `gdbpy_print_insn`'s answer once the hook returned or raised: a
      `gdb.MemoryError` is swallowed silently, any other exception has its
      stack printed. */
  function AnswerOf(e: CallEnd): Answer
  {
    match e.raised
    case None => Answered(PrintInsn(true, Callable, ReturnedNone, e.info))
    case Some(Py(InternalError)) => Internal
    case Some(Py(MemoryError(_))) => Answered(PrintInsn(true, Callable, Raised(true), e.info))
    case Some(Py(ReadFailed(_, _))) => Answered(PrintInsn(true, Callable, Raised(true), e.info))
    case Some(_) => Answered(PrintInsn(true, Callable, Raised(false), e.info))
  }

  // ---------------------------------------------------------------------
  // End-to-end properties

  /** The address of byte `i` of an instruction at `address`. */
  function Place(address: CoreAddress, i: nat): nat
  {
    CoreAddr(address + i)
  }

  /** The `n` bytes at `address` are readable. */
  predicate Readable(mem: map<nat, nat>, address: CoreAddress, n: nat)
  {
    forall i :: 0 <= i < n ==> Place(address, i) in mem
  }

  function BytesAt(mem: map<nat, nat>, address: CoreAddress, n: nat): (bs: seq<nat>)
    requires Readable(mem, address, n)
    ensures |bs| == n
  {
    seq(n, i requires 0 <= i < n => mem[Place(address, i)])
  }

  /** The request length and the word `__call__` decodes at `address`. */
  function Fetched(mem: map<nat, nat>, address: CoreAddress): (r: (nat, nat))
    requires MemoryBytes(mem) && Readable(mem, address, 1)
    requires Readable(mem, address, InsnLength(mem[Place(address, 0)]))
  {
    var len := InsnLength(mem[Place(address, 0)]);
    (len, LeValue(BytesAt(mem, address, len)))
  }

  /** The fetch inside `Call`, of at most four bytes, reads exactly these
      bytes. */
  lemma ReadsAt(info: Info, mem: map<nat, nat>, n: nat)
    requires info.valid && n <= 4 && Readable(mem, info.address, n)
    ensures ReadMemory(info, mem, n, 0) == Success(BytesAt(mem, info.address, n))
  {
    assert ReadCount(n) == n && FitsLongest(n) && FitsLongest(0);
    forall i | 0 <= i < n
      ensures ByteAddr(info, 0, i) == Place(info.address, i)
    {
    }
    var r := ReadMemory(info, mem, n, 0);
    assert r.Success?;
    assert r.value == BytesAt(mem, info.address, n);
  }

  /** With the catalog loaded and the word readable, `__call__` decodes the
      fetched word and finishes with the catalog's answer. */
  lemma CallReads(cache: Cache, conn: Connection, root: Option<seq<Element>>, address: CoreAddress, t: Target)
    requires CacheValid(cache) && (root.Some? ==> AllNumbersDecided(root.value)) && MemoryBytes(t.mem)
    requires GetDisassembler(cache, conn, root).Success?
    requires Readable(t.mem, address, 1) && Readable(t.mem, address, InsnLength(t.mem[Place(address, 0)]))
    ensures var g := GetDisassembler(cache, conn, root).value;
      var (len, word) := Fetched(t.mem, address);
      var s := Finish(Begin(address), len, Disassemble(g.handler, word, len, Signed(address), t.arch, t.formatAddress), t.host);
      Call(true, cache, conn, root, Begin(address), t) == CallEnd(g.cache, g.printed, s.info, Escape(s))
  {
    var info := Begin(address);
    ReadsAt(info, t.mem, 1);
    var len := InsnLength(t.mem[Place(address, 0)]);
    ReadsAt(info, t.mem, len);
  }

  /** Once the RISC-V disassembler is found, the response is what its
      `__call__` ends with. */
  lemma RespondCalls(reg: Registry.State, enabled: bool, cache: Cache, conn: Connection,
                     root: Option<seq<Element>>, address: CoreAddress, t: Target)
    requires CacheValid(cache) && (root.Some? ==> AllNumbersDecided(root.value)) && MemoryBytes(t.mem)
    requires reg.hookSet && Registry.Lookup(reg.entries, Registry.Named(t.arch)) == Some(RiscvDisassembler)
    ensures var e := Call(enabled, cache, conn, root, Begin(address), t);
      Respond(true, reg, enabled, cache, conn, root, address, t) == Response(e.cache, e.printed, AnswerOf(e))
  {
  }

  /** An escaping `ValueError` has its stack printed and GDB falls back on
      its own disassembler. */
  lemma AnswerOfValueError(e: CallEnd, message: string)
    requires e.raised == Some(Py(ValueError(message)))
    ensures AnswerOf(e) == Answered(Fallback(true))
  {
  }

  /** How `__call__` finishes on a fresh object: a non-empty rendering
      without a NUL is recorded and printed; an empty one, or one holding a
      NUL, makes `set_result` raise `ValueError`; no rendering leaves GDB's
      own disassembler's result. */
  lemma FinishAnswers(address: CoreAddress, len: nat, text: Option<string>, host: HostRun)
    requires 0 < len <= 4 && WellBehaved(host) && host.length != -1
    ensures var s := Finish(Begin(address), len, text, host);
      && (text.Some? && text.value != "" && '\0' !in text.value ==>
            s.error.None? && PrintInsn(true, Callable, ReturnedNone, s.info) == Printed(len, text.value))
      && (text.Some? && text.value == "" ==> s.error == Some(ValueError(EmptyString)))
      && (text.Some? && '\0' in text.value ==> s.error == Some(ValueError(EmbeddedNull)))
      && (text.None? ==>
            s.error.None? && PrintInsn(true, Callable, ReturnedNone, s.info) == Printed(host.length, host.printed))
  {
    var info := Begin(address);
    match text {
      case Some(x) =>
        var st := SetResult(info, len, x);
        assert FitsInt(len);
        if Acceptable(len, x) {
          assert Highlight(st.info, host) == Step(st.info, None);
        }
      case None =>
        var st := BuiltinDisassemble(info, host);
        assert Highlight(st.info, host) == Step(st.info, None);
    }
  }

  /** With custom display on, the description loaded and the word readable,
      a matching catalog entry with a non-empty rendering is what GDB
      prints, with the request's length; with no match GDB prints what its
      own disassembler produced. */
  lemma CatalogDecides(reg: Registry.State, cache: Cache, conn: Connection, root: Option<seq<Element>>,
                       address: CoreAddress, t: Target)
    requires CacheValid(cache) && (root.Some? ==> AllNumbersDecided(root.value)) && MemoryBytes(t.mem)
    requires reg.hookSet && Registry.Lookup(reg.entries, Registry.Named(t.arch)) == Some(RiscvDisassembler)
    requires GetDisassembler(cache, conn, root).Success?
    requires Readable(t.mem, address, 1) && Readable(t.mem, address, InsnLength(t.mem[Place(address, 0)]))
    requires WellBehaved(t.host) && t.host.length != -1
    ensures var g := GetDisassembler(cache, conn, root).value;
      var (len, word) := Fetched(t.mem, address);
      var text := Disassemble(g.handler, word, len, Signed(address), t.arch, t.formatAddress);
      var r := Respond(true, reg, true, cache, conn, root, address, t);
      && r.cache == g.cache
      && (text.Some? && text.value != "" && '\0' !in text.value ==> r.answer == Answered(Printed(len, text.value)))
      && (text.Some? && (text.value == "" || '\0' in text.value) ==> r.answer == Answered(Fallback(true)))
      && (text.None? ==> r.answer == Answered(Printed(t.host.length, t.host.printed)))
  {
    CallReads(cache, conn, root, address, t);
    var g := GetDisassembler(cache, conn, root).value;
    var (len, word) := Fetched(t.mem, address);
    var text := Disassemble(g.handler, word, len, Signed(address), t.arch, t.formatAddress);
    FinishAnswers(address, len, text, t.host);
    var s := Finish(Begin(address), len, text, t.host);
    var e := CallEnd(g.cache, g.printed, s.info, Escape(s));
    RespondCalls(reg, true, cache, conn, root, address, t);
    if text.Some? && text.value != "" && '\0' !in text.value {
      assert AnswerOf(e) == Answered(Printed(len, text.value));
    } else if text.Some? {
      var message := if '\0' in text.value then EmbeddedNull else EmptyString;
      assert e.raised == Some(Py(ValueError(message)));
      AnswerOfValueError(e, message);
    } else {
      assert AnswerOf(e) == Answered(Printed(t.host.length, t.host.printed));
    }
  }

  /** With custom display off, GDB prints what its own disassembler
      produced, and the catalog is not loaded. */
  lemma DisabledIsBuiltin(reg: Registry.State, cache: Cache, conn: Connection, root: Option<seq<Element>>,
                          address: CoreAddress, t: Target)
    requires CacheValid(cache) && (root.Some? ==> AllNumbersDecided(root.value)) && MemoryBytes(t.mem)
    requires reg.hookSet && Registry.Lookup(reg.entries, Registry.Named(t.arch)) == Some(RiscvDisassembler)
    requires WellBehaved(t.host)
    ensures var r := Respond(true, reg, false, cache, conn, root, address, t);
      && r.cache == cache
      && (t.host.length != -1 ==> r.answer == Answered(Printed(t.host.length, t.host.printed)))
      && (t.host.length == -1 ==> r.answer == Answered(Fallback(false)))
  {
  }

  /** An unreadable first byte makes the hook raise `gdb.MemoryError`, which
      GDB swallows and falls back on its own disassembler. */
  lemma UnreadableFallsBack(reg: Registry.State, cache: Cache, conn: Connection, root: Option<seq<Element>>,
                            address: CoreAddress, t: Target)
    requires CacheValid(cache) && (root.Some? ==> AllNumbersDecided(root.value)) && MemoryBytes(t.mem)
    requires reg.hookSet && Registry.Lookup(reg.entries, Registry.Named(t.arch)) == Some(RiscvDisassembler)
    requires GetDisassembler(cache, conn, root).Success?
    requires Place(address, 0) !in t.mem
    ensures Respond(true, reg, true, cache, conn, root, address, t).answer == Answered(Fallback(false))
  {
    var info := Begin(address);
    assert ByteAddr(info, 0, 0) == Place(address, 0);
  }

  /** A description that fails to load makes the hook raise, GDB prints the
      stack and falls back, and nothing is cached. */
  lemma LoadFailureFallsBack(reg: Registry.State, cache: Cache, conn: Connection, root: Option<seq<Element>>,
                             address: CoreAddress, t: Target)
    requires CacheValid(cache) && (root.Some? ==> AllNumbersDecided(root.value)) && MemoryBytes(t.mem)
    requires reg.hookSet && Registry.Lookup(reg.entries, Registry.Named(t.arch)) == Some(RiscvDisassembler)
    requires GetDisassembler(cache, conn, root).Failure?
    ensures var r := Respond(true, reg, true, cache, conn, root, address, t);
      r.cache == cache && r.answer == Answered(Fallback(true)) &&
      r.printed == GetDisassembler(cache, conn, root).error.printed
  {
  }
}
