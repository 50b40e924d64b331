/** The per-connection sessions of `RISCVDisassembler` (custominsn.py): one
    instruction catalog per inferior connection, loaded on first use,
    reused afterwards, and discarded when the connection goes away or the
    description path is set. Fetching the description (a local file or the
    remote protocol) is outside the model; its parsed root is a parameter. */
module Session {
  import opened Wrappers
  import opened Encoding
  import opened Catalog

  /** `gdb.selected_inferior().connection`: `None` or a connection object. */
  datatype Connection = NoConnection | Connection(num: nat)

  /** `_disassembler_cache`: each key's catalog entries. */
  type Cache = map<Connection, seq<Insn>>

  predicate CacheValid(cache: Cache)
  {
    forall c :: c in cache ==> AllValid(cache[c])
  }

  /** A successful `get_disassembler`: the cache afterwards, the handler it
      returns and what loading printed. */
  datatype Got = Got(cache: Cache, handler: seq<Insn>, printed: seq<string>)

  /** `get_disassembler` for connection `conn`, with `root` the description
      `fetch_xml` would return for it. A `Failure` is the exception that
      escapes `create_insns`, with the messages printed before it. */
  function GetDisassembler(cache: Cache, conn: Connection, root: Option<seq<Element>>): (r: Result<Got, LoadAbort>)
    requires CacheValid(cache)
    requires root.Some? ==> AllNumbersDecided(root.value)
    ensures r.Success? ==> CacheValid(r.value.cache) && AllValid(r.value.handler)
    ensures r.Success? ==> conn in r.value.cache && r.value.cache[conn] == r.value.handler
    ensures r.Success? ==> r.value.cache.Keys == cache.Keys + {conn}
    ensures r.Success? ==> forall c :: c in cache ==> r.value.cache[c] == cache[c]
    ensures conn in cache ==> r.Success? && r.value.printed == []
    ensures conn !in cache ==> (r.Failure? <==> LoadHandler(root).Failure?)
    ensures conn !in cache && r.Success? ==>
      r.value.handler == LoadHandler(root).value.insns && r.value.printed == LoadHandler(root).value.messages
    ensures conn !in cache && r.Failure? ==> r.error == LoadHandler(root).error
  {
    if conn in cache then Success(Got(cache, cache[conn], []))
    else
      match root
      case None => Success(Got(cache[conn := []], [], []))
      case Some(children) =>
        match CreateInsns(children)
        case Failure(f) => Failure(f)
        case Success(l) =>
          CreateInsnsEntries(children);
          Success(Got(cache[conn := l.insns], l.insns, l.messages))
  }

  /** `_discard_cached_disassembler(conn)`: only `conn`'s entry goes. */
  function Discard(cache: Cache, conn: Connection): (r: Cache)
    ensures r.Keys == cache.Keys - {conn}
    ensures forall c :: c in r ==> r[c] == cache[c]
    ensures CacheValid(cache) ==> CacheValid(r)
  {
    map c | c in cache && c != conn :: cache[c]
  }

  /** A second `get_disassembler` on the same connection loads nothing and
      returns the handler the first one cached. */
  lemma GetDisassemblerReuses(cache: Cache, conn: Connection, root: Option<seq<Element>>, root2: Option<seq<Element>>)
    requires CacheValid(cache)
    requires root.Some? ==> AllNumbersDecided(root.value)
    requires root2.Some? ==> AllNumbersDecided(root2.value)
    requires GetDisassembler(cache, conn, root).Success?
    ensures var g := GetDisassembler(cache, conn, root).value;
      GetDisassembler(g.cache, conn, root2) == Success(Got(g.cache, g.handler, []))
  {
    var g := GetDisassembler(cache, conn, root).value;
    var g2 := GetDisassembler(g.cache, conn, root2).value;
    assert g2.cache == g.cache;
  }

  /** Discarding the entry a first `get_disassembler` created restores the
      cache it started from. */
  lemma DiscardUndoesGet(cache: Cache, conn: Connection, root: Option<seq<Element>>)
    requires CacheValid(cache) && conn !in cache
    requires root.Some? ==> AllNumbersDecided(root.value)
    requires GetDisassembler(cache, conn, root).Success?
    ensures Discard(GetDisassembler(cache, conn, root).value.cache, conn) == cache
  {
    var d := Discard(GetDisassembler(cache, conn, root).value.cache, conn);
    assert d.Keys == cache.Keys;
  }

  /** After a discard the next `get_disassembler` loads the description
      afresh. */
  lemma DiscardReloads(cache: Cache, conn: Connection, root: Option<seq<Element>>)
    requires CacheValid(cache)
    requires root.Some? ==> AllNumbersDecided(root.value)
    ensures var r := GetDisassembler(Discard(cache, conn), conn, root);
      (r.Success? <==> LoadHandler(root).Success?) &&
      (r.Success? ==> r.value.handler == LoadHandler(root).value.insns)
  {
  }

  /** The value `get_set_string` stores for `remote:` alone. */
  const DefaultRemotePath: string := "remote:insn.xml"

  /** The message `get_set_string` returns after substituting the default
      path. The source continues the string literal over a line break, so
      the space before the break and the next line's sixteen-space
      indentation are both part of the text: seventeen spaces in all. */
  const DefaultPathMessage: string :=
    "custom-instruction-path set to default remote path" + Spaces(17) + "\"remote:insn.xml\"."

  /** `n` blanks. */
  function Spaces(n: nat): (s: string)
    ensures |s| == n && forall i :: 0 <= i < n ==> s[i] == ' '
  {
    if n == 0 then "" else " " + Spaces(n - 1)
  }

  /** What `get_set_string` leaves behind: the cache, the parameter's value
      and the message shown. */
  datatype SetOutcome = SetOutcome(cache: Cache, value: string, message: string)

  /** `get_set_string` after `set custom-instruction-filename value` while
      `conn` is the selected connection. */
  function GetSetString(cache: Cache, conn: Connection, value: string): (r: SetOutcome)
    ensures conn !in r.cache && r.cache == Discard(cache, conn)
    ensures r.message != "" <==> value == "remote:"
    ensures value != "remote:" ==> r.value == value
    ensures value == "remote:" ==> r.value == DefaultRemotePath && r.message == DefaultPathMessage
    ensures |r.value| >= 7 && r.value[..7] == "remote:" <==> |value| >= 7 && value[..7] == "remote:"
  {
    var cache' := Discard(cache, conn);
    if value == "remote:" then SetOutcome(cache', DefaultRemotePath, DefaultPathMessage)
    else SetOutcome(cache', value, "")
  }

  /** Setting the path again to the value the first set left behind
      changes nothing further and shows no message. */
  lemma GetSetStringSettles(cache: Cache, conn: Connection, value: string)
    ensures var o := GetSetString(cache, conn, value);
      GetSetString(o.cache, conn, o.value) == SetOutcome(o.cache, o.value, "")
  {
    var o := GetSetString(cache, conn, value);
    assert Discard(o.cache, conn) == o.cache;
    assert o.value != "remote:" by {
      if value == "remote:" {
        assert |o.value| == 15;
      }
    }
  }
}
