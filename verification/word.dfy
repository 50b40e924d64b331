/** How `RISCVDisassembler.__call__` (custominsn.py) fetches the word to
    decode: the low two bits of the first byte choose a 4-byte or a 2-byte
    instruction (the length rule of section 1.5 of the RISC-V Unprivileged
    ISA manual), and the bytes are folded little-endian into one integer. */
module Word {
  import opened Bits

  /** The request length the first byte selects. */
  function InsnLength(first: nat): (r: nat)
    requires first < 256
    ensures r == 2 || r == 4
    ensures r == 4 <==> first % 4 == 3
  {
    AndLowMask(first, 2);
    if And(first, 3) == 3 then 4 else 2
  }

  predicate AreBytes(bs: seq<nat>)
  {
    forall i :: 0 <= i < |bs| ==> bs[i] < 256
  }

  /** The little-endian value of `bs`: `bs[0] + 256 * bs[1] + ...`. */
  function LeValue(bs: seq<nat>): nat
    decreases |bs|
  {
    if |bs| == 0 then 0 else bs[0] + 256 * LeValue(bs[1..])
  }

  /** The `n` little-endian bytes of `v`, least significant first. */
  function LeBytes(v: nat, n: nat): (bs: seq<nat>)
    ensures |bs| == n && AreBytes(bs)
    decreases n
  {
    if n == 0 then [] else [v % 256] + LeBytes(v / 256, n - 1)
  }

  lemma Pow2Byte(k: nat)
    ensures Pow2(k + 8) == 256 * Pow2(k)
  {
    Pow2Add(k, 8);
  }

  lemma {:induction false} LeValueBound(bs: seq<nat>)
    requires AreBytes(bs)
    ensures LeValue(bs) < Pow2(8 * |bs|)
    decreases |bs|
  {
    if |bs| > 0 {
      var tail := bs[1..];
      assert AreBytes(tail) by {
        assert forall i :: 0 <= i < |tail| ==> tail[i] == bs[i + 1];
      }
      LeValueBound(tail);
      Pow2Byte(8 * |tail|);
      assert 8 * |bs| == 8 * |tail| + 8;
    }
  }

  /** Appending a byte adds it at the next position. */
  lemma {:induction false} LeValueSnoc(bs: seq<nat>, b: nat)
    ensures LeValue(bs + [b]) == LeValue(bs) + b * Pow2(8 * |bs|)
    decreases |bs|
  {
    if |bs| == 0 {
      assert ([] + [b])[1..] == [];
    } else {
      assert (bs + [b])[1..] == bs[1..] + [b];
      LeValueSnoc(bs[1..], b);
      Pow2Byte(8 * (|bs| - 1));
      assert 8 * |bs| == 8 * (|bs| - 1) + 8;
    }
  }

  /** One turn of the loop places byte `i` above the bytes before it. */
  lemma FoldStep(bs: seq<nat>, i: nat, insn: nat)
    requires AreBytes(bs) && i < |bs|
    requires insn == LeValue(bs[..i]) && insn < Pow2(8 * i)
    ensures Or(insn, Shl(bs[i], 8 * i)) == LeValue(bs[..i + 1])
    ensures LeValue(bs[..i + 1]) < Pow2(8 * (i + 1))
  {
    var b := bs[i];
    var k := 8 * i;
    var p: int := Pow2(k);
    OrPlaced(insn, b, k);
    assert |bs[..i]| == i;
    LeValueSnoc(bs[..i], b);
    assert bs[..i + 1] == bs[..i] + [b];
    assert LeValue(bs[..i + 1]) == insn + b * p;
    Pow2Byte(k);
    assert 8 * (i + 1) == k + 8;
    MulLe(p, b, 255);
    assert insn + b * p < 256 * p;
  }

  /** The loop `insn = insn | (b << shift); shift += 8` over the bytes read. */
  method AssembleWord(bs: seq<nat>) returns (insn: nat)
    requires AreBytes(bs)
    ensures insn == LeValue(bs)
    ensures insn < Pow2(8 * |bs|)
  {
    insn := 0;
    var shift := 0;
    var i := 0;
    while i < |bs|
      invariant 0 <= i <= |bs|
      invariant shift == 8 * i
      invariant insn == LeValue(bs[..i])
      invariant insn < Pow2(shift)
    {
      FoldStep(bs, i, insn);
      insn := Or(insn, Shl(bs[i], shift));
      shift := shift + 8;
      i := i + 1;
    }
    assert bs[..i] == bs;
  }

  /** Folding the bytes of a value gives the value back. */
  lemma {:induction false} LeValueOfBytes(v: nat, n: nat)
    requires v < Pow2(8 * n)
    ensures LeValue(LeBytes(v, n)) == v
    decreases n
  {
    if n > 0 {
      Pow2Byte(8 * (n - 1));
      assert 8 * n == 8 * (n - 1) + 8;
      assert v / 256 < Pow2(8 * (n - 1));
      LeValueOfBytes(v / 256, n - 1);
      assert LeBytes(v, n)[1..] == LeBytes(v / 256, n - 1);
    }
  }

  /** Splitting a folded word gives the bytes back. */
  lemma {:induction false} LeBytesOfValue(bs: seq<nat>)
    requires AreBytes(bs)
    ensures LeBytes(LeValue(bs), |bs|) == bs
    decreases |bs|
  {
    if |bs| > 0 {
      var tail := bs[1..];
      assert AreBytes(tail) by {
        assert forall i :: 0 <= i < |tail| ==> tail[i] == bs[i + 1];
      }
      LeBytesOfValue(tail);
      var v := LeValue(bs);
      assert v == bs[0] + 256 * LeValue(tail);
      DivUnique(v, 256, LeValue(tail), bs[0]);
    }
  }

  /** The length rule reads the low two bits of the assembled word. */
  lemma LengthFromWord(bs: seq<nat>)
    requires AreBytes(bs) && |bs| > 0
    ensures InsnLength(bs[0]) == 4 <==> LeValue(bs) % 4 == 3
  {
    var v := LeValue(bs);
    assert v == bs[0] + 4 * (64 * LeValue(bs[1..]));
    DivUnique(v, 4, v / 4, v % 4);
    assert v % 4 == bs[0] % 4 by {
      DivUnique(bs[0], 4, bs[0] / 4, bs[0] % 4);
      DivUnique(v, 4, bs[0] / 4 + 64 * LeValue(bs[1..]), bs[0] % 4);
    }
  }
}
