/** The pieces of Python's string handling the decoder relies on: `hex()`,
    `str()` of an integer, `int(s, 16)` and `str.replace`. */
module Text {
  import opened Wrappers

  // ---------------------------------------------------------------------
  // Hexadecimal

  /** The lowercase digits `hex()` writes. */
  predicate IsHexChar(c: char)
  {
    '0' <= c <= '9' || 'a' <= c <= 'f'
  }

  function HexDigit(d: nat): (c: char)
    requires d < 16
    ensures IsHexChar(c)
  {
    if d < 10 then ('0' as nat + d) as char else ('a' as nat + d - 10) as char
  }

  function HexDigitValue(c: char): Option<nat>
  {
    if '0' <= c <= '9' then Some(c as nat - '0' as nat)
    else if 'a' <= c <= 'f' then Some(c as nat - 'a' as nat + 10)
    else if 'A' <= c <= 'F' then Some(c as nat - 'A' as nat + 10)
    else None
  }

  /** The hex digits of `n`, most significant first, without leading zeros. */
  function HexDigits(n: nat): (s: string)
    ensures |s| >= 1
    ensures forall k :: 0 <= k < |s| ==> IsHexChar(s[k])
    decreases n
  {
    if n < 16 then [HexDigit(n)] else HexDigits(n / 16) + [HexDigit(n % 16)]
  }

  /** Python's `hex(i)`: `0x` and lowercase digits, with a leading `-` for negatives. */
  function Hex(i: int): (s: string)
    ensures i >= 0 ==> |s| >= 3 && s[..2] == "0x"
    ensures i < 0 ==> |s| >= 4 && s[..3] == "-0x"
    ensures forall k :: (if i < 0 then 3 else 2) <= k < |s| ==> IsHexChar(s[k])
  {
    if i < 0 then "-0x" + HexDigits(-i) else "0x" + HexDigits(i)
  }

  /** A non-empty run of hex digits, read most significant first. */
  function ParseHexDigits(s: string): Option<nat>
    decreases |s|
  {
    if |s| == 0 then None
    else
      match HexDigitValue(s[|s| - 1])
      case None => None
      case Some(d) =>
        if |s| == 1 then Some(d)
        else
          match ParseHexDigits(s[..|s| - 1])
          case None => None
          case Some(high) => Some(high * 16 + d)
  }

  /** An optional `0x`/`0X` prefix followed by hex digits: the shape of the
      unsigned attribute values a catalog carries. */
  predicate IsHexNat(s: string)
  {
    ParseHexNat(s).Some?
  }

  function ParseHexNat(s: string): Option<nat>
  {
    if |s| >= 2 && s[0] == '0' && (s[1] == 'x' || s[1] == 'X') then ParseHexDigits(s[2..])
    else ParseHexDigits(s)
  }

  /** A character `int(_, 16)` rejects wherever it stands: printable
      ASCII that is neither blank nor a base-16 digit, nor the sign,
      underscore or `x` that Python's integer syntax allows. */
  predicate Stray(c: char)
  {
    '!' <= c <= '~' && HexDigitValue(c).None? && c !in "+-_xX"
  }

  /** `int(s, 16)` certainly raises `ValueError`: the text is empty or holds
      a stray character. */
  predicate Unparsable(s: string)
  {
    s == "" || exists k :: 0 <= k < |s| && Stray(s[k])
  }

  /** What `int(s, 16)` does is known: it is a `ParseHexNat` value, or it
      raises. */
  predicate Decided(s: string)
  {
    IsHexNat(s) || Unparsable(s)
  }

  lemma {:induction false} ParseHexDigitsChars(s: string)
    requires ParseHexDigits(s).Some?
    ensures |s| > 0 && forall k :: 0 <= k < |s| ==> HexDigitValue(s[k]).Some?
    decreases |s|
  {
    if |s| > 1 {
      ParseHexDigitsChars(s[..|s| - 1]);
      assert forall k :: 0 <= k < |s| - 1 ==> s[k] == s[..|s| - 1][k];
    }
  }

  /** The two outcomes exclude each other: a text `ParseHexNat` reads is not
      one Python rejects. */
  lemma UnparsableIsNotHex(s: string)
    requires Unparsable(s)
    ensures !IsHexNat(s)
  {
    if IsHexNat(s) {
      if |s| >= 2 && s[0] == '0' && (s[1] == 'x' || s[1] == 'X') {
        var t := s[2..];
        ParseHexDigitsChars(t);
        assert forall k :: 2 <= k < |s| ==> s[k] == t[k - 2];
        assert forall k :: 0 <= k < |s| ==> !Stray(s[k]);
      } else {
        ParseHexDigitsChars(s);
      }
      assert false;
    }
  }

  /** Python's `int(s, 16)` on an optionally negated `ParseHexNat` string,
      the only spellings the decoder's `imm` values take; `None` for any
      other string. */
  function ParseHexInt(s: string): Option<int>
  {
    var negative := |s| >= 1 && s[0] == '-';
    var magnitude := ParseHexNat(if negative then s[1..] else s);
    if magnitude.None? then None
    else if negative then Some(-(magnitude.value as int))
    else Some(magnitude.value as int)
  }

  lemma HexDigitRoundTrip(d: nat)
    requires d < 16
    ensures HexDigitValue(HexDigit(d)) == Some(d)
  {
  }

  lemma {:induction false} ParseHexDigitsOfHexDigits(n: nat)
    ensures ParseHexDigits(HexDigits(n)) == Some(n)
    decreases n
  {
    var s := HexDigits(n);
    if n < 16 {
      HexDigitRoundTrip(n);
      assert s == [HexDigit(n)];
      assert s[0] == HexDigit(n);
    } else {
      var high := HexDigits(n / 16);
      var c := HexDigit(n % 16);
      assert s == high + [c];
      ParseHexDigitsOfHexDigits(n / 16);
      HexDigitRoundTrip(n % 16);
      assert s[|s| - 1] == c;
      assert s[..|s| - 1] == high;
      assert ParseHexDigits(s) == Some((n / 16) * 16 + n % 16);
    }
  }

  /** `int(hex(i), 16) == i`. */
  lemma ParseHexIntOfHex(i: int)
    ensures ParseHexInt(Hex(i)) == Some(i)
  {
    if i < 0 {
      ParseHexIntNegative(-i);
    } else {
      ParseHexIntNonNegative(i);
    }
  }

  lemma ParseHexIntNegative(n: nat)
    requires n > 0
    ensures ParseHexInt("-0x" + HexDigits(n)) == Some(-(n as int))
  {
    var s := "-0x" + HexDigits(n);
    ParseHexNatOfPrefixed(n);
    assert s[0] == '-';
    assert s[1..] == "0x" + HexDigits(n);
  }

  lemma ParseHexIntNonNegative(n: nat)
    ensures ParseHexInt("0x" + HexDigits(n)) == Some(n as int)
  {
    var unsigned := "0x" + HexDigits(n);
    ParseHexNatOfPrefixed(n);
    assert unsigned[0] != '-';
  }

  lemma ParseHexNatOfPrefixed(n: nat)
    ensures ParseHexNat("0x" + HexDigits(n)) == Some(n)
  {
    var unsigned := "0x" + HexDigits(n);
    ParseHexDigitsOfHexDigits(n);
    assert unsigned[2..] == HexDigits(n);
    assert unsigned[0] == '0' && unsigned[1] == 'x';
  }

  // ---------------------------------------------------------------------
  // Decimal

  function DecimalDigits(n: nat): (s: string)
    ensures |s| >= 1
    ensures forall k :: 0 <= k < |s| ==> '0' <= s[k] <= '9'
    decreases n
  {
    if n < 10 then ["0123456789"[n]] else DecimalDigits(n / 10) + ["0123456789"[n % 10]]
  }

  /** Python's `str(i)` for an integer. */
  function Decimal(i: int): (s: string)
    ensures |s| >= 1
    ensures forall k :: 0 <= k < |s| ==> s[k] == '-' || '0' <= s[k] <= '9'
  {
    if i < 0 then "-" + DecimalDigits(-i) else DecimalDigits(i)
  }

  function DecimalDigitsValue(s: string): nat
    decreases |s|
  {
    if |s| == 0 then 0
    else
      var d := s[|s| - 1] as int - '0' as int;
      DecimalDigitsValue(s[..|s| - 1]) * 10 + (if 0 <= d <= 9 then d else 0)
  }

  /** Reads back what `Decimal` writes. */
  function DecimalValue(s: string): int
  {
    if |s| >= 1 && s[0] == '-' then 0 - DecimalDigitsValue(s[1..]) else DecimalDigitsValue(s)
  }

  lemma {:induction false} DecimalDigitsRoundTrip(n: nat)
    ensures DecimalDigitsValue(DecimalDigits(n)) == n
    decreases n
  {
    var s := DecimalDigits(n);
    if n < 10 {
      assert s[..0] == [];
    } else {
      DecimalDigitsRoundTrip(n / 10);
      assert s[..|s| - 1] == DecimalDigits(n / 10);
    }
  }

  /** `int(str(i)) == i`. */
  lemma DecimalRoundTrip(i: int)
    ensures DecimalValue(Decimal(i)) == i
  {
    if i < 0 {
      DecimalDigitsRoundTrip(-i);
      assert Decimal(i)[1..] == DecimalDigits(-i);
    } else {
      DecimalDigitsRoundTrip(i);
    }
  }

  // ---------------------------------------------------------------------
  // Replacement

  predicate OccursAt(s: string, pat: string, i: nat)
  {
    i + |pat| <= |s| && s[i..i + |pat|] == pat
  }

  predicate Occurs(s: string, pat: string)
  {
    exists i: nat | i <= |s| :: OccursAt(s, pat, i)
  }

  /** Python's `s.replace(pat, rep)`: every non-overlapping occurrence,
      scanning left to right. */
  function ReplaceAll(s: string, pat: string, rep: string): string
    requires |pat| > 0
    decreases |s|
  {
    if |s| < |pat| then s
    else if s[..|pat|] == pat then rep + ReplaceAll(s[|pat|..], pat, rep)
    else [s[0]] + ReplaceAll(s[1..], pat, rep)
  }

  /** A pattern that does not occur leaves the string as it is. */
  lemma {:induction false} ReplaceAllAbsent(s: string, pat: string, rep: string)
    requires |pat| > 0 && !Occurs(s, pat)
    ensures ReplaceAll(s, pat, rep) == s
    decreases |s|
  {
    if |s| >= |pat| {
      assert !OccursAt(s, pat, 0);
      assert s[..|pat|] != pat;
      assert !Occurs(s[1..], pat) by {
        forall i: nat | i <= |s[1..]| && OccursAt(s[1..], pat, i)
          ensures false
        {
          assert s[1..][i..i + |pat|] == s[i + 1..i + 1 + |pat|];
          assert OccursAt(s, pat, i + 1);
        }
      }
      ReplaceAllAbsent(s[1..], pat, rep);
      assert [s[0]] + s[1..] == s;
    }
  }

  /** Text before the pattern's first character can start no occurrence. */
  lemma {:induction false} ReplaceAllSkipsPrefix(a: string, b: string, pat: string, rep: string)
    requires |pat| > 0 && pat[0] !in a
    ensures ReplaceAll(a + b, pat, rep) == a + ReplaceAll(b, pat, rep)
    decreases |a|
  {
    if |a| > 0 {
      var s := a + b;
      if |s| >= |pat| {
        assert s[..|pat|][0] == a[0];
        assert s[1..] == a[1..] + b;
        ReplaceAllSkipsPrefix(a[1..], b, pat, rep);
        assert [a[0]] + a[1..] == a;
      } else {
        assert |b| < |pat|;
        assert a + ReplaceAll(b, pat, rep) == a + b;
      }
    } else {
      assert a + b == b;
    }
  }

  /** An occurrence at the front is replaced and scanning resumes after it. */
  lemma ReplaceAllAtFront(b: string, pat: string, rep: string)
    requires |pat| > 0
    ensures ReplaceAll(pat + b, pat, rep) == rep + ReplaceAll(b, pat, rep)
  {
    assert (pat + b)[..|pat|] == pat;
    assert (pat + b)[|pat|..] == b;
  }
}
