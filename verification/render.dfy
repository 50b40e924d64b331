/** Template expansion (`Insn.expand_format_string` in custominsn.py): the
    decoded fields gain a `dest` entry built from `imm`, then each field is
    substituted for its `$name` placeholder, one `str.replace` per field in
    insertion order. The reference reading is `Fill`: a template cut into
    literal text and placeholders, each placeholder replaced by its field's
    text and unknown placeholders (such as `$opcode`) left as they are. */
module Render {
  import opened Wrappers
  import opened Bits
  import opened Text
  import opened Operands

  /** Python's `str(v)`. */
  function Show(v: Value): string
  {
    match v
    case Str(s) => s
    case Int(i) => Decimal(i)
  }

  /** `int(fields['imm'], 16)`, falling back to the value itself when it is
      already an `int` (the `TypeError` branch). `None` is the `ValueError`
      a malformed string raises, which nothing catches. */
  function ImmAddress(v: Value): (r: Option<int>)
    ensures v.Int? ==> r == Some(v.i)
    ensures v.Str? ==> (r.Some? <==> ParseHexInt(v.s).Some?)
  {
    match v
    case Int(i) => Some(i)
    case Str(s) => ParseHexInt(s)
  }

  const Rv64Name: string := "riscv:rv64"

  /** The wrap of a negative address: `0xffffffffffffffff + addr` on
      `riscv:rv64`, `0xffffffff + addr` on every other architecture. */
  function Wrap(addr: int, arch: string): (r: int)
    ensures addr >= 0 ==> r == addr
    ensures addr < 0 && arch == Rv64Name ==> r < 0xffff_ffff_ffff_ffff
    ensures addr < 0 && arch != Rv64Name ==> r < 0xffff_ffff
  {
    if addr < 0 then
      if arch == Rv64Name then 0xffff_ffff_ffff_ffff + addr else 0xffff_ffff + addr
    else addr
  }

  /** Two's complement of a negative address in `n` bits. */
  function TwosComplement(addr: int, n: nat): int
  {
    if addr < 0 then Pow2(n) + addr else addr
  }

  /** The wrap lands one below the two's complement address: `-1` becomes
      `0xfffffffe` on a 32-bit target, where the address meant is `0xffffffff`. */
  lemma WrapIsOneBelowTwosComplement(addr: int, arch: string)
    requires addr < 0
    ensures arch == Rv64Name ==> Wrap(addr, arch) == TwosComplement(addr, 64) - 1
    ensures arch != Rv64Name ==> Wrap(addr, arch) == TwosComplement(addr, 32) - 1
  {
    Pow2Values();
    Pow2Add(32, 32);
  }

  lemma WrapMinusOne()
    ensures Wrap(-1, "riscv:rv32") == 0xffff_fffe
    ensures TwosComplement(-1, 32) == 0xffff_ffff
  {
    Pow2Values();
  }

  /** The lookup of `key` after appending one entry. */
  lemma {:induction false} GetAppend(fs: Fields, key: string, v: Value, k: string)
    ensures Get(fs + [(key, v)], k) ==
      (if Get(fs, k).Some? then Get(fs, k) else if key == k then Some(v) else None)
    decreases |fs|
  {
    if |fs| > 0 {
      assert (fs + [(key, v)])[1..] == fs[1..] + [(key, v)];
      GetAppend(fs[1..], key, v, k);
    }
  }

  /** The fields after the `dest` step: unchanged unless `imm` is present and
      `dest` is not, in which case `dest` is appended with the formatted,
      wrapped address; `None` when `imm` is a string `int(..., 16)` rejects. */
  function WithDest(fs: Fields, arch: string, formatAddress: int -> string): (r: Option<Fields>)
    ensures r.None? <==>
      Get(fs, "imm").Some? && Get(fs, "dest").None? && ImmAddress(Get(fs, "imm").value).None?
    ensures r.Some? ==> |fs| <= |r.value| && r.value[..|fs|] == fs
    ensures r.Some? && (Get(fs, "imm").None? || Get(fs, "dest").Some?) ==> r.value == fs
    ensures r.Some? && Get(fs, "imm").Some? && Get(fs, "dest").None? ==>
      Get(r.value, "dest") == Some(Str(formatAddress(Wrap(ImmAddress(Get(fs, "imm").value).value, arch))))
    ensures r.Some? ==> forall k :: k != "dest" ==> Get(r.value, k) == Get(fs, k)
  {
    if Get(fs, "imm").Some? && Get(fs, "dest").None? then
      var a := ImmAddress(Get(fs, "imm").value);
      if a.None? then None
      else
        var d := Str(formatAddress(Wrap(a.value, arch)));
        assert forall k :: (Get(fs + [("dest", d)], k) ==
          (if Get(fs, k).Some? then Get(fs, k) else if "dest" == k then Some(d) else None)) by {
          forall k ensures Get(fs + [("dest", d)], k) ==
            (if Get(fs, k).Some? then Get(fs, k) else if "dest" == k then Some(d) else None)
          {
            GetAppend(fs, "dest", d, k);
          }
        }
        assert (fs + [("dest", d)])[..|fs|] == fs;
        Some(fs + [("dest", d)])
    else Some(fs)
  }

  /** `res = res.replace('$' + k, str(v))` for each field in order. */
  function Substitute(template: string, fs: Fields): string
    decreases |fs|
  {
    if |fs| == 0 then template
    else Substitute(ReplaceAll(template, "$" + fs[0].0, Show(fs[0].1)), fs[1..])
  }

  /** `expand_format_string`: `None` is the uncaught `ValueError`. */
  function Expand(template: string, fs: Fields, arch: string, formatAddress: int -> string): (r: Option<string>)
    ensures r.None? <==> WithDest(fs, arch, formatAddress).None?
  {
    match WithDest(fs, arch, formatAddress)
    case None => None
    case Some(full) => Some(Substitute(template, full))
  }

  // ---------------------------------------------------------------------
  // Reference: templates as literal text and placeholders

  datatype Piece = Lit(s: string) | Hole(name: string)

  function PieceText(p: Piece): string
  {
    match p
    case Lit(s) => s
    case Hole(n) => "$" + n
  }

  /** The template text the pieces spell. */
  function TemplateOf(ps: seq<Piece>): string
    decreases |ps|
  {
    if |ps| == 0 then "" else PieceText(ps[0]) + TemplateOf(ps[1..])
  }

  /** A placeholder's text: its field's `str`, or the placeholder itself. */
  function FillPiece(p: Piece, fs: Fields): string
  {
    match p
    case Lit(s) => s
    case Hole(n) => if Get(fs, n).Some? then Show(Get(fs, n).value) else "$" + n
  }

  function Fill(ps: seq<Piece>, fs: Fields): string
    decreases |ps|
  {
    if |ps| == 0 then "" else FillPiece(ps[0], fs) + Fill(ps[1..], fs)
  }

  predicate NameChar(c: char)
  {
    'a' <= c <= 'z' || 'A' <= c <= 'Z' || '0' <= c <= '9' || c == '_'
  }

  predicate IsName(s: string)
  {
    |s| > 0 && forall k :: 0 <= k < |s| ==> NameChar(s[k])
  }

  predicate IsPrefix(a: string, b: string)
  {
    |a| <= |b| && b[..|a|] == a
  }

  /** Some key properly extends the name `n`, so `$n` followed by a name
      character could be the start of `$key`. */
  predicate Extended(n: string, keys: seq<string>)
  {
    exists j :: 0 <= j < |keys| && IsPrefix(n, keys[j]) && keys[j] != n
  }

  /** A literal that starts no placeholder: each `$` in `s` is followed by a
      character no name contains, within `s`, or as the first character of
      a literal that comes next, or it ends the template. */
  predicate LitStops(s: string, rest: seq<Piece>)
  {
    forall i :: 0 <= i < |s| && s[i] == '$' ==>
      (i + 1 < |s| ==> !NameChar(s[i + 1])) &&
      (i + 1 == |s| && |rest| > 0 ==> rest[0].Lit? && |rest[0].s| > 0 && !NameChar(rest[0].s[0]))
  }

  /** Literal text starts no placeholder, placeholders are names, and a
      placeholder whose name some key extends is followed by the end or by
      literal text that cannot continue its name. Any other placeholder may
      be followed by anything, another placeholder included. */
  predicate Delimited(ps: seq<Piece>, keys: seq<string>)
    decreases |ps|
  {
    |ps| == 0 ||
    ((match ps[0]
      case Lit(s) => LitStops(s, ps[1..])
      case Hole(n) =>
        IsName(n) &&
        (Extended(n, keys) && |ps| > 1 ==> ps[1].Lit? && |ps[1].s| > 0 && !NameChar(ps[1].s[0])))
     && Delimited(ps[1..], keys))
  }

  /** Every field's name is one of `keys`. */
  predicate KeysIn(fs: Fields, keys: seq<string>)
  {
    forall j :: 0 <= j < |fs| ==> fs[j].0 in keys
  }

  /** No placeholder other than `$k` itself starts with `$k`. */
  predicate KeyClear(k: string, ps: seq<Piece>)
    decreases |ps|
  {
    |ps| == 0 ||
    ((ps[0].Hole? && IsPrefix(k, ps[0].name) ==> k == ps[0].name) && KeyClear(k, ps[1..]))
  }

  /** Every field name is a name clear of the template's other placeholders. */
  predicate KeysClear(fs: Fields, ps: seq<Piece>)
    decreases |fs|
  {
    |fs| == 0 || (IsName(fs[0].0) && KeyClear(fs[0].0, ps) && KeysClear(fs[1..], ps))
  }

  /** No field's text but the last one's contains a `$`: the last
      `replace` cannot create a placeholder that a later one would fill. */
  predicate PlainBeforeLast(fs: Fields)
    decreases |fs|
  {
    |fs| <= 1 || ('$' !in Show(fs[0].1) && PlainBeforeLast(fs[1..]))
  }

  /** The pieces with every `$k` placeholder turned into the text `rep`. */
  function Plug(ps: seq<Piece>, k: string, rep: string): (r: seq<Piece>)
    ensures |r| == |ps|
    decreases |ps|
  {
    if |ps| == 0 then []
    else [if ps[0] == Hole(k) then Lit(rep) else ps[0]] + Plug(ps[1..], k, rep)
  }

  lemma {:induction false} PlugDelimited(ps: seq<Piece>, k: string, rep: string, keys: seq<string>)
    requires Delimited(ps, keys) && '$' !in rep
    ensures Delimited(Plug(ps, k, rep), keys)
    ensures forall i :: 0 <= i < |ps| && ps[i].Lit? ==> Plug(ps, k, rep)[i] == ps[i]
    decreases |ps|
  {
    if |ps| > 0 {
      PlugDelimited(ps[1..], k, rep, keys);
      var r := Plug(ps, k, rep);
      assert r[1..] == Plug(ps[1..], k, rep);
      if ps[0].Lit? {
        assert r[0] == ps[0];
        if |ps| > 1 && ps[1].Lit? {
          assert r[1..][0] == ps[1..][0];
        }
        assert LitStops(ps[0].s, r[1..]);
      }
      forall i | 0 <= i < |ps| && ps[i].Lit?
        ensures r[i] == ps[i]
      {
        if i > 0 {
          assert r[i] == Plug(ps[1..], k, rep)[i - 1];
        }
      }
    }
  }

  lemma {:induction false} PlugKeyClear(ps: seq<Piece>, k: string, rep: string, k2: string)
    requires KeyClear(k2, ps)
    ensures KeyClear(k2, Plug(ps, k, rep))
    decreases |ps|
  {
    if |ps| > 0 {
      PlugKeyClear(ps[1..], k, rep, k2);
      assert Plug(ps, k, rep)[1..] == Plug(ps[1..], k, rep);
    }
  }

  lemma {:induction false} PlugKeysClear(ps: seq<Piece>, k: string, rep: string, fs: Fields)
    requires KeysClear(fs, ps)
    ensures KeysClear(fs, Plug(ps, k, rep))
    decreases |fs|
  {
    if |fs| > 0 {
      PlugKeyClear(ps, k, rep, fs[0].0);
      PlugKeysClear(ps, k, rep, fs[1..]);
    }
  }

  /** A `$`-prefixed match starts with the key right after the `$`. */
  lemma DropDollar(k: string, t: string)
    ensures IsPrefix("$" + k, "$" + t) ==> IsPrefix(k, t)
  {
    if IsPrefix("$" + k, "$" + t) {
      assert ("$" + t)[1..|k| + 1] == t[..|k|];
      assert ("$" + k)[1..] == k;
    }
  }

  /** A key no longer than `n` that starts `n + rest` starts `n`. */
  lemma PrefixWithin(k: string, n: string, rest: string)
    ensures IsPrefix(k, n + rest) && |k| <= |n| ==> IsPrefix(k, n)
  {
    if IsPrefix(k, n + rest) && |k| <= |n| {
      assert (n + rest)[..|k|] == n[..|k|];
    }
  }

  /** A key longer than `n` that starts `n + rest` continues into `rest`. */
  lemma PrefixBeyond(k: string, n: string, rest: string)
    ensures IsPrefix(k, n + rest) && |k| > |n| ==> |rest| > 0 && k[|n|] == rest[0]
  {
    if IsPrefix(k, n + rest) && |k| > |n| {
      assert (n + rest)[..|k|][|n|] == (n + rest)[|n|];
    }
  }

  /** `$n` followed by `rest` does not start with `$k` for another name `k`
      that does not start `n`, unless `k` extends `n` and `rest` continues
      it. */
  lemma PlaceholderMismatch(n: string, rest: string, k: string)
    requires IsName(n) && IsName(k) && k != n
    requires IsPrefix(k, n) ==> k == n
    requires IsPrefix(n, k) && |rest| > 0 ==> !NameChar(rest[0])
    ensures !IsPrefix("$" + k, "$" + n + rest)
  {
    assert "$" + n + rest == "$" + (n + rest);
    DropDollar(k, n + rest);
    PrefixWithin(k, n, rest);
    PrefixBeyond(k, n, rest);
  }

  /** One `str.replace('$' + k, rep)` turns exactly the `$k` placeholders into
      `rep`. */
  lemma {:induction false} ReplaceOneField(ps: seq<Piece>, k: string, rep: string, keys: seq<string>)
    requires Delimited(ps, keys) && k in keys && IsName(k) && KeyClear(k, ps)
    ensures ReplaceAll(TemplateOf(ps), "$" + k, rep) == TemplateOf(Plug(ps, k, rep))
    decreases |ps|
  {
    var pat := "$" + k;
    if |ps| == 0 {
    } else {
      var tail := TemplateOf(ps[1..]);
      ReplaceOneField(ps[1..], k, rep, keys);
      assert Plug(ps, k, rep)[1..] == Plug(ps[1..], k, rep);
      match ps[0]
      case Lit(s) =>
        assert DollarsStop(s + tail, |s|) by {
          forall i | 0 <= i < |s| && (s + tail)[i] == '$'
            ensures i + 1 == |s + tail| || !NameChar((s + tail)[i + 1])
          {
            var rest := ps[1..];
            assert s[i] == '$' && LitStops(s, rest);
            if i + 1 == |s| && |rest| > 0 {
              var l := rest[0].s;
              assert TemplateOf(rest) == l + TemplateOf(rest[1..]);
              assert (s + tail)[i + 1] == l[0];
            }
          }
        }
        ReplaceAllSkipsStops(s, tail, k, rep);
      case Hole(n) =>
        if n == k {
          ReplaceAllAtFront(tail, pat, rep);
        } else {
          if |ps| > 1 {
            match ps[1]
            case Lit(l) => assert tail[..|l|] == l;
            case Hole(_) => assert tail[0] == '$';
          }
          if IsPrefix(n, k) {
            var j :| 0 <= j < |keys| && keys[j] == k;
            assert Extended(n, keys);
          }
          HoleKept(n, tail, k, rep);
        }
    }
  }

  /** Each `$` among the first `n` characters of `t` ends `t` or is followed
      by a character no name contains. */
  predicate DollarsStop(t: string, n: nat)
    requires n <= |t|
  {
    forall i :: 0 <= i < n && t[i] == '$' ==> i + 1 == |t| || !NameChar(t[i + 1])
  }

  /** Text in which no `$` is followed by a name character starts no `$k`. */
  lemma {:induction false} ReplaceAllSkipsStops(a: string, b: string, k: string, rep: string)
    requires IsName(k) && DollarsStop(a + b, |a|)
    ensures ReplaceAll(a + b, "$" + k, rep) == a + ReplaceAll(b, "$" + k, rep)
    decreases |a|
  {
    var pat := "$" + k;
    var s := a + b;
    if |a| == 0 {
      assert s == b;
    } else if |s| < |pat| {
      assert |b| < |pat|;
    } else {
      StopNotAtFront(s, k);
      var a' := a[1..];
      assert s[1..] == a' + b;
      DollarsStopTail(a, b);
      ReplaceAllSkipsStops(a', b, k, rep);
      assert [a[0]] + a' == a;
    }
  }

  /** `$k` does not start a text whose first character is not a `$`
      followed by a name character. */
  lemma StopNotAtFront(s: string, k: string)
    requires IsName(k) && |s| >= |k| + 1
    requires s[0] == '$' ==> !NameChar(s[1])
    ensures s[..|k| + 1] != "$" + k
  {
    var pat := "$" + k;
    assert s[..|pat|][0] == s[0] && pat[0] == '$';
    if s[0] == '$' {
      assert s[..|pat|][1] == s[1] && pat[1] == k[0];
    }
  }

  /** The `$` condition on a text carries over to the text after its first
      character. */
  lemma DollarsStopTail(a: string, b: string)
    requires |a| > 0 && DollarsStop(a + b, |a|)
    ensures DollarsStop(a[1..] + b, |a| - 1)
  {
    var s := a + b;
    var t := a[1..] + b;
    assert t == s[1..];
    forall i | 0 <= i < |a| - 1 && t[i] == '$'
      ensures i + 1 == |t| || !NameChar(t[i + 1])
    {
      assert t[i] == s[i + 1];
      if i + 1 < |t| {
        assert t[i + 1] == s[i + 2];
      }
    }
  }

  /** A placeholder `$n` that `$k` cannot start is kept, and the scan goes
      on after it. */
  lemma HoleKept(n: string, tail: string, k: string, rep: string)
    requires IsName(n) && IsName(k) && k != n
    requires IsPrefix(k, n) ==> k == n
    requires IsPrefix(n, k) && |tail| > 0 ==> !NameChar(tail[0])
    ensures ReplaceAll("$" + n + tail, "$" + k, rep) == "$" + n + ReplaceAll(tail, "$" + k, rep)
  {
    var pat := "$" + k;
    var t := n + tail;
    PlaceholderMismatch(n, tail, k);
    assert "$" + n + tail == "$" + t;
    ReplaceAllSkipsPrefix(n, tail, pat, rep);
    if |"$" + t| >= |pat| {
      assert ("$" + t)[..|pat|] != pat;
      assert ("$" + t)[1..] == t;
    } else {
      assert |tail| < |pat|;
    }
  }

  /** Replacing one field, then the rest, fills as the whole list does. */
  lemma {:induction false} FillPlug(ps: seq<Piece>, fs: Fields)
    requires |fs| > 0
    ensures Fill(Plug(ps, fs[0].0, Show(fs[0].1)), fs[1..]) == Fill(ps, fs)
    decreases |ps|
  {
    if |ps| > 0 {
      FillPlug(ps[1..], fs);
      assert Plug(ps, fs[0].0, Show(fs[0].1))[1..] == Plug(ps[1..], fs[0].0, Show(fs[0].1));
    }
  }

  /** The substitution loop fills every placeholder with its field's text. */
  lemma {:induction false} SubstituteFills(ps: seq<Piece>, fs: Fields, keys: seq<string>)
    requires Delimited(ps, keys) && KeysIn(fs, keys) && KeysClear(fs, ps) && PlainBeforeLast(fs)
    ensures Substitute(TemplateOf(ps), fs) == Fill(ps, fs)
    decreases |fs|
  {
    if |fs| == 0 {
      FillUnbound(ps);
    } else {
      var k, rep := fs[0].0, Show(fs[0].1);
      ReplaceOneField(ps, k, rep, keys);
      var ps2 := Plug(ps, k, rep);
      if |fs| > 1 {
        PlugDelimited(ps, k, rep, keys);
        PlugKeysClear(ps, k, rep, fs[1..]);
        assert KeysIn(fs[1..], keys) by {
          assert forall j :: 0 <= j < |fs| - 1 ==> fs[1..][j] == fs[j + 1];
        }
        SubstituteFills(ps2, fs[1..], keys);
      } else {
        FillUnbound(ps2);
      }
      FillPlug(ps, fs);
    }
  }

  /** With no fields, every placeholder stays as written. */
  lemma {:induction false} FillUnbound(ps: seq<Piece>)
    ensures Fill(ps, []) == TemplateOf(ps)
    decreases |ps|
  {
    if |ps| > 0 {
      FillUnbound(ps[1..]);
    }
  }

  /** Expansion of a template is `Fill` over the fields after the `dest` step. */
  lemma ExpandFills(ps: seq<Piece>, fs: Fields, arch: string, formatAddress: int -> string, keys: seq<string>)
    requires Delimited(ps, keys)
    requires WithDest(fs, arch, formatAddress).Some?
    requires KeysIn(WithDest(fs, arch, formatAddress).value, keys)
    requires KeysClear(WithDest(fs, arch, formatAddress).value, ps)
    requires PlainBeforeLast(WithDest(fs, arch, formatAddress).value)
    ensures Expand(TemplateOf(ps), fs, arch, formatAddress) ==
      Some(Fill(ps, WithDest(fs, arch, formatAddress).value))
  {
    SubstituteFills(ps, WithDest(fs, arch, formatAddress).value, keys);
  }

  /** A template with no `$` comes out unchanged. */
  lemma {:induction false} PlainTemplateUnchanged(template: string, fs: Fields)
    requires '$' !in template
    ensures Substitute(template, fs) == template
    decreases |fs|
  {
    if |fs| > 0 {
      ReplaceAllSkipsPrefix(template, "", "$" + fs[0].0, Show(fs[0].1));
      assert template + "" == template;
      PlainTemplateUnchanged(template, fs[1..]);
    }
  }
}
