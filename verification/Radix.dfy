/** Numbers written in a base, least significant digit first. */
module Radix {

  type Base = b: nat | b >= 2 witness 2

  ghost predicate Digits(b: Base, d: seq<nat>) {
    forall i :: 0 <= i < |d| ==> d[i] < b
  }

  // What the digits d stand for.
  function Value(b: Base, d: seq<nat>): nat {
    if d == [] then 0 else d[0] + b * Value(b, d[1..])
  }

  // n without needless zeros.
  function Minimal(b: Base, n: nat): (d: seq<nat>)
    ensures Digits(b, d)
    ensures n == 0 <==> d == []
    ensures d != [] ==> d[|d| - 1] != 0
    decreases n
  {
    if n == 0 then [] else
    Smaller(b, n);
    [n % b] + Minimal(b, n / b)
  }

  lemma Smaller(b: Base, n: nat)
    requires n > 0
    ensures n / b < n
    ensures n < b ==> n / b == 0 && n % b == n
  {
    assert n == b * (n / b) + n % b;
    MulBound(b, n / b);
  }

  lemma MulBound(b: nat, q: int)
    ensures q >= 1 ==> b * q >= b
    ensures q >= 1 && b >= 2 ==> b * q >= 2 * q
    ensures q <= -1 ==> b * q + b <= 0
  {
    if q >= 1 {
      assert b * q == b + b * (q - 1);
      if b >= 2 {
        assert b * q == 2 * q + (b - 2) * q;
      }
    } else if q <= -1 {
      assert b * q + b == b * (q + 1);
    }
  }

  function Zeros(n: nat): (z: seq<nat>)
    ensures |z| == n && forall i :: 0 <= i < n ==> z[i] == 0
  {
    seq(n, _ => 0)
  }

  // Quotient and remainder are the only ones.
  lemma DivUnique(n: nat, b: nat, q: nat, r: nat)
    requires r < b && n == b * q + r
    ensures n / b == q && n % b == r
  {
    assert n == b * (n / b) + n % b;
    Factor(b, q, n / b);
    MulBound(b, q - n / b);
  }

  lemma Factor(b: nat, x: int, y: int)
    ensures b * (x - y) == b * x - b * y
  {
  }

  lemma ValueCons(b: Base, x: nat, d: seq<nat>)
    ensures Value(b, [x] + d) == x + b * Value(b, d)
  {
    assert ([x] + d)[1..] == d;
  }

  lemma MinimalStep(b: Base, n: nat)
    requires n > 0
    ensures n / b < n && n == n % b + b * (n / b)
    ensures Minimal(b, n) == [n % b] + Minimal(b, n / b)
  {
    Smaller(b, n);
  }

  lemma {:induction false} ValueOfMinimal(b: Base, n: nat)
    ensures Value(b, Minimal(b, n)) == n
    decreases n
  {
    hide Minimal, Value;
    if n > 0 {
      MinimalStep(b, n);
      ValueOfMinimal(b, n / b);
      ValueCons(b, n % b, Minimal(b, n / b));
    } else {
      ValueNothing(b);
    }
  }

  lemma ValueNothing(b: Base)
    ensures Value(b, []) == 0
  {
  }

  // Digits are the minimal digits of their value and then zeros.
  lemma {:induction false} MinimalOfValue(b: Base, d: seq<nat>)
    requires Digits(b, d)
    ensures |Minimal(b, Value(b, d))| <= |d|
    ensures d == Minimal(b, Value(b, d)) + Zeros(|d| - |Minimal(b, Value(b, d))|)
  {
    if d != [] {
      var r := d[1..];
      MinimalOfValue(b, r);
      var v := Value(b, r);
      DivUnique(d[0] + b * v, b, v, d[0]);
      if v == 0 && d[0] == 0 {
        assert d == [0] + r;
      } else {
        assert d[0] + b * v > 0 by {
          if v > 0 {
            MulBound(b, v);
          }
        }
        assert Minimal(b, Value(b, d)) == [d[0]] + Minimal(b, v);
        assert d == [d[0]] + r;
      }
    }
  }

  lemma {:induction false} ValueAppend(b: Base, d: seq<nat>, e: seq<nat>)
    ensures Value(b, d + e) == Value(b, d) + Pow(b, |d|) * Value(b, e)
  {
    if d == [] {
      assert d + e == e;
    } else {
      hide Pow;
      ValueAppend(b, d[1..], e);
      assert (d + e)[1..] == d[1..] + e;
      PowStep(b, |d| - 1);
      Distribute(b, Value(b, d[1..]), Pow(b, |d| - 1), Value(b, e));
    }
  }

  lemma Distribute(b: nat, x: nat, p: nat, y: nat)
    ensures b * (x + p * y) == b * x + (b * p) * y
  {
  }

  lemma {:induction false} ValueZeros(b: Base, n: nat)
    ensures Value(b, Zeros(n)) == 0
  {
    if n > 0 {
      ValueZeros(b, n - 1);
      assert Zeros(n)[1..] == Zeros(n - 1);
    }
  }

  lemma ValueTrailing(b: Base, d: seq<nat>, n: nat)
    ensures Value(b, d + Zeros(n)) == Value(b, d)
  {
    ValueAppend(b, d, Zeros(n));
    ValueZeros(b, n);
  }

  function Pow(b: nat, k: nat): nat {
    if k == 0 then 1 else b * Pow(b, k - 1)
  }

  lemma {:induction false} PowSum(b: nat, j: nat, k: nat)
    ensures Pow(b, j + k) == Pow(b, j) * Pow(b, k)
  {
    hide Pow;
    PowSmall(b);
    if j > 0 {
      PowSum(b, j - 1, k);
      PowStep(b, j - 1);
      PowStep(b, j + k - 1);
      Assoc(b, Pow(b, j - 1), Pow(b, k));
    }
  }

  lemma Assoc(a: nat, x: nat, y: nat)
    ensures a * (x * y) == (a * x) * y
  {
  }

  lemma {:induction false} PowPositive(b: nat, k: nat)
    requires b > 0
    ensures Pow(b, k) > 0
  {
    if k > 0 {
      PowPositive(b, k - 1);
      assert b * Pow(b, k - 1) >= 1 * Pow(b, k - 1);
    }
  }

  // How many minimal digits a number has.
  lemma {:induction false} MinimalLength(b: Base, n: nat)
    requires n > 0
    ensures |Minimal(b, n)| >= 1
    ensures Pow(b, |Minimal(b, n)| - 1) <= n < Pow(b, |Minimal(b, n)|)
    decreases n
  {
    hide Minimal, Pow;
    MinimalStep(b, n);
    var q := n / b;
    if q == 0 {
      PowSmall(b);
    } else {
      MinimalLength(b, q);
      var k := |Minimal(b, q)|;
      MulMono(b, Pow(b, k - 1), q);
      MulMono(b, q + 1, Pow(b, k));
      PowStep(b, k);
      PowStep(b, k - 1);
      assert b * (q + 1) == b * q + b;
    }
  }

  lemma PowSmall(b: nat)
    ensures Pow(b, 0) == 1 && Pow(b, 1) == b
  {
  }

  lemma PowStep(b: nat, k: nat)
    ensures Pow(b, k + 1) == b * Pow(b, k)
  {
  }

  lemma MulMono(b: nat, x: int, y: int)
    requires x <= y
    ensures b * x <= b * y
  {
    assert b * y - b * x == b * (y - x);
  }
}
