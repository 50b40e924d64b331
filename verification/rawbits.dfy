/** The decoders read operands the way the Python source does: they render
    the word as a reversed binary string (`format(w, '032b')[::-1]`, so that
    character `i` is bit `i`), take a backwards slice `raw_bits[start:stop:-1]`
    and read it back with `int(..., 2)`. This module models that string route
    literally and proves it equals the arithmetic `Slice` the decoders use. */
module RawBits {
  import opened Bits

  function Digit(b: nat): char
  {
    if b == 1 then '1' else '0'
  }

  /** `format(w, '0<width>b')` for `w < 2^width`: most significant digit first. */
  function Binary(w: nat, width: nat): (s: string)
    ensures |s| == width
    decreases width
  {
    if width == 0 then "" else Binary(w / 2, width - 1) + [Digit(w % 2)]
  }

  /** `s[::-1]`. */
  function Reverse(s: string): (r: string)
    ensures |r| == |s|
    decreases |s|
  {
    if |s| == 0 then "" else Reverse(s[1..]) + [s[0]]
  }

  /** `raw_bits = format(w, '0<width>b')[::-1]`. */
  function RawBitString(w: nat, width: nat): string
  {
    Reverse(Binary(w, width))
  }

  /** `s[start:stop:-1]` with `0 <= stop < start < |s|`: the characters at
      `start, start - 1, ..., stop + 1`. */
  function StepBack(s: string, start: nat, stop: nat): (t: string)
    requires stop < start < |s|
    ensures |t| == start - stop
  {
    seq(start - stop, k requires 0 <= k < start - stop => s[start - k])
  }

  /** `int(t, 2)` on a string of binary digits. */
  function ParseBinary(t: string): nat
    decreases |t|
  {
    if |t| == 0 then 0 else 2 * ParseBinary(t[..|t| - 1]) + (if t[|t| - 1] == '1' then 1 else 0)
  }

  /** What the decoders write for `int(raw_bits[start:stop:-1], 2)`: bits
      `start` down to `stop + 1`. */
  function Slice(w: nat, start: nat, stop: nat): (r: nat)
    requires stop < start
    ensures r < Pow2(start - stop)
    ensures start - stop == 3 ==> r < 8
    ensures start - stop == 5 ==> r < 32
  {
    assert Pow2(3) == 8 && Pow2(5) == 32 by {
      assert Pow2(1) == 2;
      assert Pow2(2) == 4;
      assert Pow2(4) == 16;
    }
    Field(w, start, stop + 1)
  }

  /** What the decoders write for `int(raw_bits[i], 2)`. */
  function BitAt(w: nat, i: nat): (b: nat)
    ensures b <= 1
  {
    Bit(w, i)
  }

  // ---------------------------------------------------------------------

  lemma {:induction false} ReverseIndex(s: string, i: nat)
    requires i < |s|
    ensures Reverse(s)[i] == s[|s| - 1 - i]
    decreases |s|
  {
    if i < |s| - 1 {
      ReverseIndex(s[1..], i);
    }
  }

  lemma {:induction false} BinaryIndex(w: nat, width: nat, i: nat)
    requires i < width
    ensures Binary(w, width)[width - 1 - i] == Digit(Bit(w, i))
    decreases width
  {
    if i > 0 {
      BinaryIndex(w / 2, width - 1, i - 1);
      BitSucc(w, i - 1);
    }
  }

  /** Character `i` of `raw_bits` is bit `i` of the word. */
  lemma RawBitStringIndex(w: nat, width: nat, i: nat)
    requires i < width
    ensures RawBitString(w, width)[i] == Digit(Bit(w, i))
  {
    ReverseIndex(Binary(w, width), i);
    BinaryIndex(w, width, i);
  }

  lemma FieldSplitLow(w: nat, hi: nat, lo: nat)
    requires lo < hi
    ensures Field(w, hi, lo) == Bit(w, lo) + 2 * Field(w, hi, lo + 1)
  {
    var n := hi - lo;
    var y := Shr(w, lo);
    var p := Pow2(n);
    assert w / Pow2(lo + 1) == y / 2 by {
      DivDiv(w, Pow2(lo), 2);
      assert Pow2(lo + 1) == Pow2(lo) * 2 by {
        Pow2Add(lo, 1);
      }
    }
    var h := y / 2;
    assert y == 2 * h + y % 2;
    assert h == p * (h / p) + h % p;
    assert y == (2 * p) * (h / p) + (2 * (h % p) + y % 2);
    DivUnique(y, 2 * p, h / p, 2 * (h % p) + y % 2);
    assert Pow2(n + 1) == 2 * p;
  }

  lemma {:induction false} ParseBinaryOfBits(t: string, w: nat, hi: nat)
    requires 1 <= |t| <= hi + 1
    requires forall k :: 0 <= k < |t| ==> t[k] == Digit(Bit(w, hi - k))
    ensures ParseBinary(t) == Field(w, hi, hi + 1 - |t|)
    decreases |t|
  {
    var lo := hi + 1 - |t|;
    var last := t[|t| - 1];
    assert last == Digit(Bit(w, lo));
    assert (if last == '1' then 1 else 0) == Bit(w, lo);
    if |t| == 1 {
      assert t[..0] == "";
    } else {
      ParseBinaryOfBits(t[..|t| - 1], w, hi);
      FieldSplitLow(w, hi, lo);
    }
  }

  /** `int(raw_bits[start:stop:-1], 2)` is `Slice(w, start, stop)`. */
  lemma SliceMatchesString(w: nat, width: nat, start: nat, stop: nat)
    requires w < Pow2(width) && stop < start < width
    ensures ParseBinary(StepBack(RawBitString(w, width), start, stop)) == Slice(w, start, stop)
  {
    var t := StepBack(RawBitString(w, width), start, stop);
    forall k | 0 <= k < |t|
      ensures t[k] == Digit(Bit(w, start - k))
    {
      RawBitStringIndex(w, width, start - k);
    }
    ParseBinaryOfBits(t, w, start);
  }

  /** `int(raw_bits[i], 2)` is `BitAt(w, i)`. */
  lemma BitAtMatchesString(w: nat, width: nat, i: nat)
    requires w < Pow2(width) && i < width
    ensures ParseBinary([RawBitString(w, width)[i]]) == BitAt(w, i)
  {
    RawBitStringIndex(w, width, i);
    assert [RawBitString(w, width)[i]][..0] == "";
  }

  /** `raw_bits[:stop:-1]` starts at the last character, `width - 1`. */
  lemma TopSliceMatchesString(w: nat, width: nat, stop: nat)
    requires w < Pow2(width) && stop < width - 1
    ensures ParseBinary(StepBack(RawBitString(w, width), width - 1, stop)) == Slice(w, width - 1, stop)
  {
    SliceMatchesString(w, width, width - 1, stop);
  }
}
