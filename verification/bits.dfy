/** Bit arithmetic on unbounded naturals, the way Python treats `int`:
    powers of two, single bits, contiguous fields, and bitwise AND / OR.
    Every other module states its bit-level facts in these terms. */
module Bits {

  function Pow2(k: nat): (r: nat)
    ensures r >= 1
  {
    if k == 0 then 1 else 2 * Pow2(k - 1)
  }

  /** Bit `i` of `x` (0 = least significant). */
  function Bit(x: nat, i: nat): (b: nat)
    ensures b <= 1
  {
    (x / Pow2(i)) % 2
  }

  /** Bits `hi..lo` of `x`, inclusive, as a number. */
  function Field(x: nat, hi: nat, lo: nat): nat
    requires lo <= hi
  {
    (x / Pow2(lo)) % Pow2(hi - lo + 1)
  }

  /** Python's `x & y` on non-negative integers. */
  function And(x: nat, y: nat): nat
    decreases x
  {
    if x == 0 || y == 0 then 0
    else 2 * And(x / 2, y / 2) + (if x % 2 == 1 && y % 2 == 1 then 1 else 0)
  }

  /** Python's `x << k`. */
  function Shl(x: nat, k: nat): nat
  {
    x * Pow2(k)
  }

  /** Python's `x >> k` on a non-negative integer. */
  function Shr(x: nat, k: nat): nat
  {
    DivNonneg(x, Pow2(k));
    x / Pow2(k)
  }

  lemma DivNonneg(x: nat, d: nat)
    requires d >= 1
    ensures x / d >= 0
  {
  }

  /** Python's `x | y` on non-negative integers. */
  function Or(x: nat, y: nat): nat
    decreases x + y
  {
    if x == 0 then y
    else if y == 0 then x
    else 2 * Or(x / 2, y / 2) + (if x % 2 == 1 || y % 2 == 1 then 1 else 0)
  }

  // ---------------------------------------------------------------------
  // Powers of two

  lemma {:induction false} Pow2Add(a: nat, b: nat)
    ensures Pow2(a + b) == Pow2(a) * Pow2(b)
    decreases a
  {
    if a > 0 {
      Pow2Add(a - 1, b);
    }
  }

  lemma {:induction false} Pow2Mono(a: nat, b: nat)
    requires a <= b
    ensures Pow2(a) <= Pow2(b)
    decreases b
  {
    if a < b {
      Pow2Mono(a, b - 1);
    }
  }

  /** The powers of two the instruction layouts use, as constants. */
  lemma Pow2Values()
    ensures Pow2(12) == 0x1000 && Pow2(13) == 0x2000 && Pow2(16) == 0x1_0000
    ensures Pow2(20) == 0x10_0000 && Pow2(21) == 0x20_0000 && Pow2(25) == 0x200_0000
    ensures Pow2(32) == 0x1_0000_0000
  {
    Pow2Add(12, 1);
    Pow2Add(8, 8);
    Pow2Add(10, 10);
    Pow2Add(20, 1);
    Pow2Add(12, 13);
    Pow2Add(16, 16);
  }

  lemma DivDiv(x: nat, a: nat, b: nat)
    requires a > 0 && b > 0
    ensures x / (a * b) == (x / a) / b
  {
    var q, r := x / a, x % a;
    var q2, r2 := q / b, q % b;
    assert x == a * q + r;
    assert q == b * q2 + r2;
    assert a * q == (a * b) * q2 + a * r2 by {
      MulDistrib(a, b * q2, r2);
      assert a * (b * q2) == (a * b) * q2;
    }
    assert a * r2 + r < a * b by {
      MulLe(a, r2, b - 1);
      MulDistrib(a, b - 1, 1);
    }
    DivUnique(x, a * b, q2, a * r2 + r);
  }

  lemma MulDistrib(a: nat, x: nat, y: nat)
    ensures a * (x + y) == a * x + a * y
  {
  }

  lemma MulLe(a: nat, x: nat, y: nat)
    requires x <= y
    ensures a * x <= a * y
  {
    MulDistrib(a, x, y - x);
  }

  lemma DivUnique(x: nat, d: nat, q: nat, r: nat)
    requires d > 0 && r < d && x == d * q + r
    ensures x / d == q && x % d == r
  {
    var q', r' := x / d, x % d;
    assert x == d * q' + r';
    if q' > q {
      MulAtLeast(d, q' - q);
    } else if q' < q {
      MulAtLeast(d, q - q');
    }
  }

  lemma {:induction false} MulAtLeast(d: nat, k: nat)
    requires k >= 1
    ensures d * k >= d
    decreases k
  {
    if k > 1 {
      MulAtLeast(d, k - 1);
      assert d * k == d * (k - 1) + d;
    }
  }

  // ---------------------------------------------------------------------
  // Single bits

  lemma BitSucc(x: nat, i: nat)
    ensures Bit(x, i + 1) == Bit(x / 2, i)
  {
    DivDiv(x, 2, Pow2(i));
  }

  lemma {:induction false} BitOfZero(i: nat)
    ensures Bit(0, i) == 0
  {
  }

  /** Two naturals with the same bits are equal. */
  lemma {:induction false} BitExt(x: nat, y: nat)
    requires forall i: nat :: Bit(x, i) == Bit(y, i)
    ensures x == y
    decreases x + y
  {
    if x != 0 || y != 0 {
      assert x % 2 == y % 2 by {
        assert Bit(x, 0) == Bit(y, 0);
      }
      forall i: nat
        ensures Bit(x / 2, i) == Bit(y / 2, i)
      {
        BitSucc(x, i);
        BitSucc(y, i);
      }
      BitExt(x / 2, y / 2);
    }
  }

  lemma {:induction false} BitAnd(x: nat, y: nat, i: nat)
    ensures Bit(And(x, y), i) == (if Bit(x, i) == 1 && Bit(y, i) == 1 then 1 else 0)
    decreases i
  {
    if x == 0 || y == 0 {
      BitOfZero(i);
    } else if i == 0 {
    } else {
      BitSucc(And(x, y), i - 1);
      BitSucc(x, i - 1);
      BitSucc(y, i - 1);
      BitAnd(x / 2, y / 2, i - 1);
    }
  }

  lemma {:induction false} BitOr(x: nat, y: nat, i: nat)
    ensures Bit(Or(x, y), i) == (if Bit(x, i) == 1 || Bit(y, i) == 1 then 1 else 0)
    decreases i
  {
    if x == 0 {
      BitOfZero(i);
    } else if y == 0 {
      BitOfZero(i);
    } else if i == 0 {
    } else {
      BitSucc(Or(x, y), i - 1);
      BitSucc(x, i - 1);
      BitSucc(y, i - 1);
      BitOr(x / 2, y / 2, i - 1);
    }
  }

  /** The bits of `a + b * 2^k` with `a < 2^k`: `a` below `k`, `b` from `k` up. */
  lemma {:induction false} BitPlaced(a: nat, b: nat, k: nat, i: nat)
    requires a < Pow2(k)
    ensures Bit(a + b * Pow2(k), i) == (if i < k then Bit(a, i) else Bit(b, i - k))
    decreases k
  {
    if k > 0 {
      var m := b * Pow2(k - 1);
      assert b * Pow2(k) == 2 * m;
      var x := a + 2 * m;
      assert a == 2 * (a / 2) + a % 2;
      DivUnique(x, 2, a / 2 + m, a % 2);
      if i > 0 {
        BitSucc(x, i - 1);
        BitSucc(a, i - 1);
        BitPlaced(a / 2, b, k - 1, i - 1);
      }
    }
  }

  lemma BitBelow(x: nat, n: nat, i: nat)
    requires x < Pow2(n) && n <= i
    ensures Bit(x, i) == 0
  {
    Pow2Mono(n, i);
    DivUnique(x, Pow2(i), 0, x);
  }

  lemma {:induction false} BitLowOnes(n: nat, i: nat)
    ensures Bit(Pow2(n) - 1, i) == (if i < n then 1 else 0)
    decreases n
  {
    if n == 0 {
      BitOfZero(i);
    } else {
      assert Pow2(n) - 1 == 1 + (Pow2(n - 1) - 1) * Pow2(1);
      BitPlaced(1, Pow2(n - 1) - 1, 1, i);
      if i > 0 {
        BitLowOnes(n - 1, i - 1);
      }
    }
  }

  lemma BitPow2(k: nat, i: nat)
    ensures Bit(Pow2(k), i) == (if i == k then 1 else 0)
  {
    BitPlaced(0, 1, k, i);
    if i >= k {
      BitOfZero(i - k);
      if i == k {
        assert Bit(1, 0) == 1;
      } else {
        BitBelow(1, 1, i - k);
      }
    } else {
      BitOfZero(i);
    }
  }

  /** `x` below `2^n` has no bit at `n` or above, and conversely. */
  lemma {:induction false} BoundFromBits(x: nat, n: nat)
    requires forall i: nat :: n <= i ==> Bit(x, i) == 0
    ensures x < Pow2(n)
    decreases n
  {
    if n == 0 {
      assert x == 0 by {
        forall i: nat
          ensures Bit(x, i) == Bit(0, i)
        {
          BitOfZero(i);
        }
        BitExt(x, 0);
      }
    } else {
      forall i: nat | n - 1 <= i
        ensures Bit(x / 2, i) == 0
      {
        BitSucc(x, i);
      }
      BoundFromBits(x / 2, n - 1);
    }
  }

  lemma BitMod(x: nat, n: nat, i: nat)
    ensures Bit(x % Pow2(n), i) == (if i < n then Bit(x, i) else 0)
  {
    var p := Pow2(n);
    var q, r := Shr(x, n), x % p;
    if i < n {
      assert x == r + q * p;
      BitPlaced(r, q, n, i);
    } else {
      BitBelow(r, n, i);
    }
  }

  lemma BitDiv(x: nat, n: nat, i: nat)
    ensures Bit(Shr(x, n), i) == Bit(x, n + i)
  {
    Pow2Add(n, i);
    DivDiv(x, Pow2(n), Pow2(i));
  }

  /** Bit `j` of a field is bit `lo + j` of the word, inside the field. */
  lemma BitField(x: nat, hi: nat, lo: nat, j: nat)
    requires lo <= hi
    ensures Bit(Field(x, hi, lo), j) == (if j <= hi - lo then Bit(x, lo + j) else 0)
  {
    BitMod(Shr(x, lo), hi - lo + 1, j);
    BitDiv(x, lo, j);
  }

  lemma FieldBound(x: nat, hi: nat, lo: nat)
    requires lo <= hi
    ensures Field(x, hi, lo) < Pow2(hi - lo + 1)
  {
  }

  // ---------------------------------------------------------------------
  // AND / OR in arithmetic terms

  /** OR of two values whose bits do not overlap is their sum. */
  lemma OrPlaced(a: nat, b: nat, k: nat)
    requires a < Pow2(k)
    ensures Or(a, b * Pow2(k)) == a + b * Pow2(k)
  {
    forall i: nat
      ensures Bit(Or(a, b * Pow2(k)), i) == Bit(a + b * Pow2(k), i)
    {
      BitOr(a, b * Pow2(k), i);
      BitPlaced(0, b, k, i);
      BitPlaced(a, b, k, i);
      if i < k {
        BitOfZero(i);
      } else {
        BitBelow(a, k, i);
      }
    }
    BitExt(Or(a, b * Pow2(k)), a + b * Pow2(k));
  }

  lemma OrComm(a: nat, b: nat)
    ensures Or(a, b) == Or(b, a)
  {
    forall i: nat
      ensures Bit(Or(a, b), i) == Bit(Or(b, a), i)
    {
      BitOr(a, b, i);
      BitOr(b, a, i);
    }
    BitExt(Or(a, b), Or(b, a));
  }

  lemma OrAssoc(a: nat, b: nat, c: nat)
    ensures Or(Or(a, b), c) == Or(a, Or(b, c))
  {
    forall i: nat
      ensures Bit(Or(Or(a, b), c), i) == Bit(Or(a, Or(b, c)), i)
    {
      BitOr(Or(a, b), c, i);
      BitOr(a, b, i);
      BitOr(a, Or(b, c), i);
      BitOr(b, c, i);
    }
    BitExt(Or(Or(a, b), c), Or(a, Or(b, c)));
  }

  /** `u & (2^k - 1)` keeps the low `k` bits. */
  lemma AndLowMask(u: nat, k: nat)
    ensures And(u, Pow2(k) - 1) == u % Pow2(k)
  {
    forall i: nat
      ensures Bit(And(u, Pow2(k) - 1), i) == Bit(u % Pow2(k), i)
    {
      BitAnd(u, Pow2(k) - 1, i);
      BitLowOnes(k, i);
      BitMod(u, k, i);
    }
    BitExt(And(u, Pow2(k) - 1), u % Pow2(k));
  }

  /** `u & 2^k` isolates bit `k` in place. */
  lemma AndPow2(u: nat, k: nat)
    ensures And(u, Pow2(k)) == Bit(u, k) * Pow2(k)
  {
    forall i: nat
      ensures Bit(And(u, Pow2(k)), i) == Bit(Bit(u, k) * Pow2(k), i)
    {
      BitAnd(u, Pow2(k), i);
      BitPow2(k, i);
      if Bit(u, k) == 0 {
        BitOfZero(i);
      } else {
        BitPow2(k, i);
      }
    }
    BitExt(And(u, Pow2(k)), Bit(u, k) * Pow2(k));
  }

  /** Masking twice with the same mask changes nothing. */
  lemma AndAndSame(x: nat, m: nat)
    ensures And(And(x, m), m) == And(x, m)
  {
    forall i: nat
      ensures Bit(And(And(x, m), m), i) == Bit(And(x, m), i)
    {
      BitAnd(And(x, m), m, i);
      BitAnd(x, m, i);
    }
    BitExt(And(And(x, m), m), And(x, m));
  }

  /** `x & m == f` holds exactly when `f` lies inside `m` and `x` agrees
      with `f` on every bit of `m`. */
  lemma AndEqualsIff(x: nat, m: nat, f: nat)
    ensures And(x, m) == f <==>
      (forall i: nat :: Bit(f, i) == 1 ==> Bit(m, i) == 1) &&
      (forall i: nat :: Bit(m, i) == 1 ==> Bit(x, i) == Bit(f, i))
  {
    if And(x, m) == f {
      forall i: nat
        ensures Bit(f, i) == 1 ==> Bit(m, i) == 1
        ensures Bit(m, i) == 1 ==> Bit(x, i) == Bit(f, i)
      {
        BitAnd(x, m, i);
      }
    }
    if (forall i: nat :: Bit(f, i) == 1 ==> Bit(m, i) == 1) &&
       (forall i: nat :: Bit(m, i) == 1 ==> Bit(x, i) == Bit(f, i)) {
      forall i: nat
        ensures Bit(And(x, m), i) == Bit(f, i)
      {
        BitAnd(x, m, i);
      }
      BitExt(And(x, m), f);
    }
  }

  /** A field equals `v` exactly when their bits agree across the field. */
  lemma FieldEqualsIff(x: nat, hi: nat, lo: nat, v: nat)
    requires lo <= hi && v < Pow2(hi - lo + 1)
    ensures Field(x, hi, lo) == v <==> forall j: nat :: j <= hi - lo ==> Bit(x, lo + j) == Bit(v, j)
  {
    forall j: nat
      ensures Bit(Field(x, hi, lo), j) == (if j <= hi - lo then Bit(x, lo + j) else 0)
    {
      BitField(x, hi, lo, j);
    }
    if forall j: nat :: j <= hi - lo ==> Bit(x, lo + j) == Bit(v, j) {
      forall j: nat
        ensures Bit(Field(x, hi, lo), j) == Bit(v, j)
      {
        if j > hi - lo {
          BitBelow(v, hi - lo + 1, j);
        }
      }
      BitExt(Field(x, hi, lo), v);
    }
  }

  // ---------------------------------------------------------------------
  // Shifts and masks

  lemma BitShl(x: nat, k: nat, i: nat)
    ensures Bit(Shl(x, k), i) == (if i < k then 0 else Bit(x, i - k))
  {
    BitPlaced(0, x, k, i);
    BitOfZero(i);
  }

  /** Bit `j` of `Field(x, hi, lo) << k` is bit `lo + j - k` of `x`
      when `j` falls in the shifted field, and 0 elsewhere. */
  lemma BitShiftedField(x: nat, hi: nat, lo: nat, k: nat, j: nat)
    requires lo <= hi
    ensures Bit(Shl(Field(x, hi, lo), k), j) ==
      (if k <= j <= k + hi - lo then Bit(x, lo + j - k) else 0)
  {
    BitShl(Field(x, hi, lo), k, j);
    if k <= j {
      BitField(x, hi, lo, j - k);
    }
  }

  lemma {:induction false} AndLe(x: nat, y: nat)
    ensures And(x, y) <= y
    decreases x
  {
    if x != 0 && y != 0 {
      AndLe(x / 2, y / 2);
    }
  }

  lemma AndOrDistrib(x: nat, a: nat, b: nat)
    ensures And(x, Or(a, b)) == Or(And(x, a), And(x, b))
  {
    forall i: nat
      ensures Bit(And(x, Or(a, b)), i) == Bit(Or(And(x, a), And(x, b)), i)
    {
      BitAnd(x, Or(a, b), i);
      BitOr(a, b, i);
      BitOr(And(x, a), And(x, b), i);
      BitAnd(x, a, i);
      BitAnd(x, b, i);
    }
    BitExt(And(x, Or(a, b)), Or(And(x, a), And(x, b)));
  }

  /** Masking with `n` ones shifted by `k` extracts bits `k + n - 1 .. k` in place. */
  lemma AndShiftedOnes(x: nat, n: nat, k: nat)
    requires n >= 1
    ensures And(x, Shl(Pow2(n) - 1, k)) == Shl(Field(x, k + n - 1, k), k)
  {
    var m := Shl(Pow2(n) - 1, k);
    var f := Shl(Field(x, k + n - 1, k), k);
    forall i: nat
      ensures Bit(And(x, m), i) == Bit(f, i)
    {
      BitAnd(x, m, i);
      BitShl(Pow2(n) - 1, k, i);
      if i >= k {
        BitLowOnes(n, i - k);
      }
      BitShiftedField(x, k + n - 1, k, k, i);
    }
    BitExt(And(x, m), f);
  }

  /** Splitting at bit `k` is unique. */
  lemma SplitUnique(a: nat, b: nat, c: nat, d: nat, k: nat)
    requires a < Pow2(k) && c < Pow2(k)
    ensures a + Shl(b, k) == c + Shl(d, k) <==> a == c && b == d
  {
    if a + Shl(b, k) == c + Shl(d, k) {
      var x := a + Shl(b, k);
      DivUnique(x, Pow2(k), b, a);
      DivUnique(x, Pow2(k), d, c);
    }
  }
}
