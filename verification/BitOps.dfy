/** Numbers as bits: bit z of n, powers of two, shifts. */
module BitOps {

  // Bit z of a number.
  function BitAt(n: nat, z: nat): bool {
    if z == 0 then n % 2 == 1 else BitAt(n / 2, z - 1)
  }

  function Num(b: bool): nat { if b then 1 else 0 }

  function Pow2(k: nat): nat { if k == 0 then 1 else 2 * Pow2(k - 1) }

  lemma {:induction false} BitShift(m: nat, k: nat, z: nat)
    ensures BitAt(Pow2(k) * m, z) == (k <= z && BitAt(m, z - k))
  {
    if k > 0 {
      assert Pow2(k) * m == 2 * (Pow2(k - 1) * m);
      if z > 0 {
        BitShift(m, k - 1, z - 1);
      }
    }
  }

  lemma BitHorner(b: bool, k: nat, m: nat, z: nat)
    requires k > 0
    ensures BitAt(Num(b) + Pow2(k) * m, z) == if z == 0 then b else k <= z && BitAt(m, z - k)
  {
    assert Num(b) + Pow2(k) * m == Num(b) + 2 * (Pow2(k - 1) * m);
    if z > 0 {
      BitShift(m, k - 1, z - 1);
    }
  }

  lemma {:induction false} PowSum(a: nat, b: nat)
    ensures Pow2(a + b) == Pow2(a) * Pow2(b)
  {
    if a > 0 {
      PowSum(a - 1, b);
      assert Pow2(a + b) == 2 * Pow2(a - 1 + b);
      Assoc(Pow2(a - 1), Pow2(b));
    }
  }

  lemma Assoc(x: nat, y: nat)
    ensures 2 * (x * y) == (2 * x) * y
  {
  }

  lemma {:induction false} Pow2Mono(a: nat, b: nat)
    requires a <= b
    ensures Pow2(a) <= Pow2(b)
  {
    if a < b {
      Pow2Mono(a, b - 1);
    }
  }

  function NumberOf(bits: seq<bool>): (n: nat)
    ensures n < Pow2(|bits|)
  {
    if bits == [] then 0 else Num(bits[0]) + 2 * NumberOf(bits[1..])
  }

  lemma {:induction false} NumberOfBit(bits: seq<bool>, k: nat)
    ensures BitAt(NumberOf(bits), k) == (k < |bits| && bits[k])
  {
    if bits == [] {
      ZeroBit(k);
    } else if k > 0 {
      NumberOfBit(bits[1..], k - 1);
    }
  }

  lemma {:induction false} ZeroBit(k: nat)
    ensures !BitAt(0, k)
  {
    if k > 0 {
      ZeroBit(k - 1);
    }
  }

  // x >> s
  function ShiftRight(x: nat, s: nat): nat {
    if s == 0 then x else ShiftRight(x / 2, s - 1)
  }

  lemma {:induction false} ShiftRightBit(x: nat, s: nat, k: nat)
    ensures BitAt(ShiftRight(x, s), k) == BitAt(x, s + k)
  {
    if s > 0 {
      ShiftRightBit(x / 2, s - 1, k);
    }
  }

  lemma {:induction false} ShiftRightBound(x: nat, s: nat, m: nat)
    requires x < Pow2(s + m)
    ensures ShiftRight(x, s) < Pow2(m)
  {
    if s > 0 {
      assert Pow2(s + m) == 2 * Pow2(s - 1 + m);
      ShiftRightBound(x / 2, s - 1, m);
    }
  }

  lemma {:induction false} TopBit(u: nat, m: nat, k: nat)
    requires u < Pow2(m)
    ensures BitAt(u + Pow2(m), k) == if k < m then BitAt(u, k) else k == m
    ensures k >= m ==> !BitAt(u, k)
  {
    if m == 0 {
      OneBit(k);
      ZeroBit(k);
    } else if k > 0 {
      TopBit(u / 2, m - 1, k - 1);
    }
  }

  lemma OneBit(k: nat)
    ensures BitAt(1, k) == (k == 0)
  {
    if k > 0 {
      ZeroBit(k - 1);
    }
  }

  // a | b
  function BitOr(a: nat, b: nat): nat
    decreases a + b
  {
    if a == 0 && b == 0 then 0 else Num(a % 2 == 1 || b % 2 == 1) + 2 * BitOr(a / 2, b / 2)
  }

  // a & b
  function BitAnd(a: nat, b: nat): nat
    decreases a + b
  {
    if a == 0 && b == 0 then 0 else Num(a % 2 == 1 && b % 2 == 1) + 2 * BitAnd(a / 2, b / 2)
  }

  lemma {:induction false} AndBit(a: nat, b: nat, z: nat)
    ensures BitAt(BitAnd(a, b), z) == (BitAt(a, z) && BitAt(b, z))
  {
    if a == 0 && b == 0 {
      ZeroBit(z);
    } else if z > 0 {
      AndBit(a / 2, b / 2, z - 1);
    }
  }

  lemma {:induction false} OrBit(a: nat, b: nat, z: nat)
    ensures BitAt(BitOr(a, b), z) == (BitAt(a, z) || BitAt(b, z))
  {
    if a == 0 && b == 0 {
      ZeroBit(z);
    } else if z > 0 {
      OrBit(a / 2, b / 2, z - 1);
    }
  }

  // b << r, for a single bit b
  function BitShifted(b: bool, r: nat): nat { if b then Pow2(r) else 0 }

  lemma BitShiftedBit(b: bool, r: nat, z: nat)
    ensures BitAt(BitShifted(b, r), z) == (b && z == r)
  {
    if b {
      Pow2Mono(0, r);
      TopBit(0, r, z);
      ZeroBit(z);
    } else {
      ZeroBit(z);
    }
  }

  // Numbers with the same bits are the same.
  lemma {:induction false} SameBits(a: nat, b: nat)
    requires forall z: nat :: BitAt(a, z) == BitAt(b, z)
    ensures a == b
    decreases a + b
  {
    if a > 0 || b > 0 {
      assert BitAt(a, 0) == BitAt(b, 0);
      forall z: nat
        ensures BitAt(a / 2, z) == BitAt(b / 2, z)
      {
        assert BitAt(a, z + 1) == BitAt(b, z + 1);
      }
      SameBits(a / 2, b / 2);
    }
  }

  // The bits of a number put together from a high and a low part.
  lemma {:induction false} SplitBit(hi: nat, lo: nat, m: nat, k: nat)
    requires lo < Pow2(m)
    ensures BitAt(hi * Pow2(m) + lo, k) == if k < m then BitAt(lo, k) else BitAt(hi, k - m)
  {
    if m > 0 {
      var p := Pow2(m - 1);
      assert hi * Pow2(m) == 2 * (hi * p);
      assert (hi * Pow2(m) + lo) / 2 == hi * p + lo / 2 && (hi * Pow2(m) + lo) % 2 == lo % 2;
      if k > 0 {
        SplitBit(hi, lo / 2, m - 1, k - 1);
      }
    }
  }

  // A number that is not 0 has a bit; one that is not the largest of its width lacks one.
  lemma {:induction false} FindSet(b: nat, m: nat) returns (k: nat)
    requires 0 < b < Pow2(m)
    ensures k < m && BitAt(b, k)
  {
    if b % 2 == 1 {
      k := 0;
    } else {
      k := FindSet(b / 2, m - 1);
      k := k + 1;
    }
  }

  lemma {:induction false} FindClear(b: nat, m: nat) returns (k: nat)
    requires b + 1 < Pow2(m)
    ensures k < m && !BitAt(b, k)
  {
    if b % 2 == 0 {
      k := 0;
    } else {
      k := FindClear(b / 2, m - 1);
      k := k + 1;
    }
  }

  lemma {:induction false} OnesBit(m: nat, k: nat)
    requires Pow2(m) > 0
    ensures BitAt(Pow2(m) - 1, k) == (k < m)
  {
    if m == 0 {
      ZeroBit(k);
    } else {
      var b := Pow2(m) - 1;
      assert b % 2 == 1 && b / 2 == Pow2(m - 1) - 1;
      if k > 0 {
        OnesBit(m - 1, k - 1);
      }
    }
  }

  lemma {:induction false} OrBound(a: nat, b: nat, m: nat)
    requires a < Pow2(m) && b < Pow2(m)
    ensures BitOr(a, b) < Pow2(m)
  {
    if m > 0 && (a > 0 || b > 0) {
      OrBound(a / 2, b / 2, m - 1);
    }
  }
}
