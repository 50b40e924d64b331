/** The Python disassembler registry of gdb/python/lib/gdb/disassembler.py:
    a map from architecture name, or the `None` wildcard, to a registered
    disassembler, and the `_print_insn` hook that is set exactly when the
    map is non-empty. */
module Registry {
  import opened Wrappers

  /** A `gdb.disassembler.Disassembler` object, identified by its name. */
  datatype Disassembler = Disassembler(name: string)

  /** The `disassembler` argument of `register_disassembler`: `None`, a
      `Disassembler` instance, or any other object. */
  datatype Candidate = NoneValue | Disasm(d: Disassembler) | NotDisassembler

  /** `_disassembly_registry` and whether `_print_insn` is set (it is
      `_perform_disassembly` or `None`). */
  datatype State = State(entries: map<Option<string>, Disassembler>, hookSet: bool)

  /** The hook is set iff some disassembler is registered. */
  predicate HookAgrees(s: State)
  {
    s.hookSet <==> |s.entries| > 0
  }

  const NotDisassemblerMessage: string := "disassembler should sub-class gdb.disassembler.Disassembler"

  /** A successful registration: the new state and the returned previous
      entry. */
  datatype Registered = Registered(state: State, previous: Option<Disassembler>)

  /** `register_disassembler(disassembler, architecture)`. A `Failure` is the
      `TypeError`, raised before anything changes. */
  function Register(s: State, cand: Candidate, arch: Option<string>): (r: Result<Registered, string>)
    ensures r.Failure? <==> cand.NotDisassembler?
    ensures r.Failure? ==> r.error == NotDisassemblerMessage
    ensures r.Success? ==> (r.value.previous.Some? <==> arch in s.entries)
    ensures r.Success? && arch in s.entries ==> r.value.previous == Some(s.entries[arch])
    ensures cand.NoneValue? ==> arch !in r.value.state.entries
    ensures cand.Disasm? ==> arch in r.value.state.entries && r.value.state.entries[arch] == cand.d
    ensures r.Success? ==> forall k :: k != arch ==>
      (k in r.value.state.entries <==> k in s.entries) &&
      (k in s.entries ==> r.value.state.entries[k] == s.entries[k])
    ensures r.Success? ==> HookAgrees(r.value.state)
  {
    var previous := if arch in s.entries then Some(s.entries[arch]) else None;
    var removed := map k | k in s.entries && k != arch :: s.entries[k];
    match cand
    case NotDisassembler => Failure(NotDisassemblerMessage)
    case NoneValue => Success(Registered(State(removed, |removed| > 0), previous))
    case Disasm(d) =>
      var entries := removed[arch := d];
      Success(Registered(State(entries, |entries| > 0), previous))
  }

  /** The candidate that re-registers a returned previous entry. */
  function AsCandidate(previous: Option<Disassembler>): Candidate
  {
    match previous
    case None => NoneValue
    case Some(d) => Disasm(d)
  }

  /** Registering the returned previous entry for the same key undoes a
      registration. */
  lemma RegisterUndo(s: State, cand: Candidate, arch: Option<string>)
    requires HookAgrees(s) && !cand.NotDisassembler?
    ensures var r := Register(s, cand, arch).value;
      Register(r.state, AsCandidate(r.previous), arch).value.state == s
  {
    var r := Register(s, cand, arch).value;
    var back := Register(r.state, AsCandidate(r.previous), arch).value.state;
    forall k | k in s.entries
      ensures k in back.entries && back.entries[k] == s.entries[k]
    {
      if k == arch {
        assert r.previous == Some(s.entries[k]);
      }
    }
    assert back.entries.Keys == s.entries.Keys;
    assert back.entries == s.entries;
  }

  /** What `arch.name()` gives `_lookup_disassembler`: an exception, `None`,
      or a name. */
  datatype ArchName = NameRaises | NoName | Named(name: string)

  /** `_lookup_disassembler`: the entry for the architecture's own name
      wins, then the `None` wildcard; an unnamed architecture, or a `name()`
      that raises, finds nothing. */
  function Lookup(entries: map<Option<string>, Disassembler>, arch: ArchName): (r: Option<Disassembler>)
    ensures !arch.Named? ==> r.None?
    ensures arch.Named? && Some(arch.name) in entries ==> r == Some(entries[Some(arch.name)])
    ensures arch.Named? && Some(arch.name) !in entries ==>
      (r.Some? <==> None in entries) && (None in entries ==> r == Some(entries[None]))
  {
    match arch
    case Named(n) =>
      if Some(n) in entries then Some(entries[Some(n)])
      else if None in entries then Some(entries[None])
      else None
    case _ => None
  }

  /** Lookup finds something only when something is registered, so it
      finds nothing while the hook is unset. */
  lemma LookupNeedsHook(s: State, arch: ArchName)
    requires HookAgrees(s) && !s.hookSet
    ensures Lookup(s.entries, arch).None?
  {
    assert s.entries == map[];
  }

  /** After registering `d` for architecture `name`, lookup by that name
      finds `d`; a wildcard registration is found by every architecture
      that has no entry of its own. */
  lemma LookupAfterRegister(s: State, d: Disassembler, arch: Option<string>, name: string)
    ensures var e := Register(s, Disasm(d), arch).value.state.entries;
      (arch == Some(name) ==> Lookup(e, Named(name)) == Some(d)) &&
      (arch.None? && Some(name) !in s.entries ==> Lookup(e, Named(name)) == Some(d))
  {
  }

  /** `_perform_disassembly(info)`: `run(d)` is what calling the found
      disassembler `d` on `info` returns. */
  function PerformDisassembly<T>(entries: map<Option<string>, Disassembler>, arch: ArchName,
                                 run: Disassembler -> T): (r: Option<T>)
    ensures Lookup(entries, arch).None? <==> r.None?
    ensures r.Some? ==> r.value == run(Lookup(entries, arch).value)
  {
    match Lookup(entries, arch)
    case None => None
    case Some(d) => Some(run(d))
  }
}
