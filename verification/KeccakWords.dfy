/** 64-bit words as their bits, least significant first, and states of 25 such words.

    Lane (x, y) of a state has index x + 5 * y: the order of the array in sph_keccak_context and of
    the bit string in section 3.1.2 of FIPS 202. */
module KeccakWords {

  type Word = w: seq<bool> | |w| == 64 witness seq(64, _ => false)

  type State = s: seq<Word> | |s| == 25 witness seq(25, _ => seq(64, _ => false))

  const ZERO: Word := seq(64, _ => false)
  const ONES: Word := seq(64, _ => true)

  // ---------- the word operations of the source ----------

  function Xor(a: Word, b: Word): (r: Word)
    ensures forall z :: 0 <= z < 64 ==> r[z] == (a[z] != b[z])
  {
    seq(64, z requires 0 <= z < 64 => a[z] != b[z])
  }

  function And(a: Word, b: Word): (r: Word)
    ensures forall z :: 0 <= z < 64 ==> r[z] == (a[z] && b[z])
  {
    seq(64, z requires 0 <= z < 64 => a[z] && b[z])
  }

  function Or(a: Word, b: Word): (r: Word)
    ensures forall z :: 0 <= z < 64 ==> r[z] == (a[z] || b[z])
  {
    seq(64, z requires 0 <= z < 64 => a[z] || b[z])
  }

  function Not(a: Word): (r: Word)
    ensures forall z :: 0 <= z < 64 ==> r[z] == !a[z]
  {
    seq(64, z requires 0 <= z < 64 => !a[z])
  }

  function Shl(a: Word, n: nat): (r: Word)
    ensures forall z :: 0 <= z < 64 ==> r[z] == (n <= z && a[z - n])
  {
    seq(64, z requires 0 <= z < 64 => n <= z && a[z - n])
  }

  function Shr(a: Word, n: nat): (r: Word)
    ensures forall z :: 0 <= z < 64 ==> r[z] == (z + n < 64 && a[z + n])
  {
    seq(64, z requires 0 <= z < 64 => z + n < 64 && a[z + n])
  }

  // SPH_ROTL64: bit z comes from bit z - n, going round.
  function Rol(a: Word, n: nat): (r: Word)
    requires n <= 64
    ensures forall z :: 0 <= z < 64 ==> r[z] == a[if n <= z then z - n else z - n + 64]
  {
    if n == 64 then Rol(a, 0) else Or(Shl(a, n), Shr(a, 64 - n))
  }

  // ---------- states ----------

  function Lane(s: State, x: nat, y: nat): Word
    requires x < 5 && y < 5
  {
    s[x + 5 * y]
  }

  function Build(f: (nat, nat) --> Word): (s: State)
    requires forall x: nat, y: nat :: x < 5 && y < 5 ==> f.requires(x, y)
    ensures forall x: nat, y: nat {:trigger Lane(s, x, y)} :: x < 5 && y < 5 ==> Lane(s, x, y) == f(x, y)
  {
    seq(25, i requires 0 <= i < 25 => f(i % 5, i / 5))
  }

  lemma SameLanes(s: State, t: State)
    requires forall x: nat, y: nat {:trigger Lane(s, x, y)} :: x < 5 && y < 5 ==> Lane(s, x, y) == Lane(t, x, y)
    ensures s == t
  {
    forall i | 0 <= i < 25
      ensures s[i] == t[i]
    {
      assert Lane(s, i % 5, i / 5) == s[i] && Lane(t, i % 5, i / 5) == t[i];
    }
  }

  // Which lanes of a state are kept complemented.
  type Mask = m: seq<bool> | |m| == 25 witness seq(25, _ => false)

  function Masked(s: State, m: Mask): (r: State)
    ensures forall i :: 0 <= i < 25 ==> r[i] == if m[i] then Not(s[i]) else s[i]
  {
    seq(25, i requires 0 <= i < 25 => if m[i] then Not(s[i]) else s[i])
  }

  lemma NotNot(a: Word)
    ensures Not(Not(a)) == a
  {
  }

  lemma MaskTwice(s: State, m: Mask)
    ensures Masked(Masked(s, m), m) == s
  {
    forall i | 0 <= i < 25
      ensures Masked(Masked(s, m), m)[i] == s[i]
    {
      NotNot(s[i]);
    }
  }
}

/** KECCAK-p[1600, 24] as section 3 of FIPS 202 defines it, bit by bit. */
module Fips202 {
  import opened KeccakWords

  // A[x, y, z]
  function Bit(a: State, x: nat, y: nat, z: nat): bool
    requires x < 5 && y < 5 && z < 64
  {
    Lane(a, x, y)[z]
  }

  function FromBits(f: (nat, nat, nat) --> bool): (s: State)
    requires forall x: nat, y: nat, z: nat :: x < 5 && y < 5 && z < 64 ==> f.requires(x, y, z)
    ensures forall x: nat, y: nat, z: nat {:trigger Bit(s, x, y, z)} ::
              x < 5 && y < 5 && z < 64 ==> Bit(s, x, y, z) == f(x, y, z)
  {
    Build((x: nat, y: nat) requires x < 5 && y < 5 => seq(64, z requires 0 <= z < 64 => f(x, y, z)))
  }

  lemma SameBits(s: State, t: State)
    requires forall x: nat, y: nat, z: nat {:trigger Bit(s, x, y, z)} ::
               x < 5 && y < 5 && z < 64 ==> Bit(s, x, y, z) == Bit(t, x, y, z)
    ensures s == t
  {
    forall x: nat, y: nat | x < 5 && y < 5
      ensures Lane(s, x, y) == Lane(t, x, y)
    {
      forall z: nat | z < 64
        ensures Lane(s, x, y)[z] == Lane(t, x, y)[z]
      {
        assert Bit(s, x, y, z) == Bit(t, x, y, z);
      }
    }
    SameLanes(s, t);
  }

  // Section 3.2.1
  function C(a: State, x: nat, z: nat): bool
    requires x < 5 && z < 64
  {
    (((Bit(a, x, 0, z) != Bit(a, x, 1, z)) != Bit(a, x, 2, z)) != Bit(a, x, 3, z)) != Bit(a, x, 4, z)
  }

  function D(a: State, x: nat, z: nat): bool
    requires x < 5 && z < 64
  {
    C(a, (x + 4) % 5, z) != C(a, (x + 1) % 5, (z + 63) % 64)
  }

  function Theta(a: State): State {
    FromBits((x: nat, y: nat, z: nat) requires x < 5 && y < 5 && z < 64 => Bit(a, x, y, z) != D(a, x, z))
  }

  // Section 3.2.2: the offset of lane (x, y), met at step t of the walk that is at (cx, cy).
  function OffsetFrom(x: nat, y: nat, cx: nat, cy: nat, t: nat): nat
    requires t <= 24
    decreases 24 - t
  {
    if t == 24 then 0
    else if cx == x && cy == y then (t + 1) * (t + 2) / 2
    else OffsetFrom(x, y, cy, (2 * cx + 3 * cy) % 5, t + 1)
  }

  function Offset(x: nat, y: nat): nat {
    if x == 0 && y == 0 then 0 else OffsetFrom(x, y, 1, 0, 0) % 64
  }

  function Rho(a: State): State {
    FromBits((x: nat, y: nat, z: nat) requires x < 5 && y < 5 && z < 64 => Bit(a, x, y, (z + 64 - Offset(x, y)) % 64))
  }

  // Section 3.2.3
  function Pi(a: State): State {
    FromBits((x: nat, y: nat, z: nat) requires x < 5 && y < 5 && z < 64 => Bit(a, (x + 3 * y) % 5, x, z))
  }

  // Section 3.2.4
  function Chi(a: State): State {
    FromBits((x: nat, y: nat, z: nat) requires x < 5 && y < 5 && z < 64 =>
               Bit(a, x, y, z) != (!Bit(a, (x + 1) % 5, y, z) && Bit(a, (x + 2) % 5, y, z)))
  }

  // Section 3.2.5, Algorithm 5: the register R, its bit 0 first.
  datatype Register = R(r0: bool, r1: bool, r2: bool, r3: bool, r4: bool, r5: bool, r6: bool, r7: bool)

  function Lfsr(t: nat): Register {
    if t == 0 then R(true, false, false, false, false, false, false, false)
    else
      var r := Lfsr(t - 1);
      R(r.r7, r.r0, r.r1, r.r2, r.r3 != r.r7, r.r4 != r.r7, r.r5 != r.r7, r.r6)
  }

  function Rc(t: nat): bool { Lfsr(t % 255).r0 }

  // Algorithm 6: bit z of the round constant of round ir.
  function RoundConstantBit(ir: nat, z: nat): bool {
    if z == 0 then Rc(7 * ir)
    else if z == 1 then Rc(1 + 7 * ir)
    else if z == 3 then Rc(2 + 7 * ir)
    else if z == 7 then Rc(3 + 7 * ir)
    else if z == 15 then Rc(4 + 7 * ir)
    else if z == 31 then Rc(5 + 7 * ir)
    else if z == 63 then Rc(6 + 7 * ir)
    else false
  }

  function Iota(a: State, ir: nat): State {
    FromBits((x: nat, y: nat, z: nat) requires x < 5 && y < 5 && z < 64 =>
               if x == 0 && y == 0 then Bit(a, 0, 0, z) != RoundConstantBit(ir, z) else Bit(a, x, y, z))
  }

  // Section 3.3
  function Rnd(a: State, ir: nat): State { Iota(Chi(Pi(Rho(Theta(a)))), ir) }

  // Rounds 0 to n - 1.
  function Rounds(a: State, n: nat): State {
    if n == 0 then a else Rnd(Rounds(a, n - 1), n - 1)
  }

  // Section 3.4
  function KeccakF(a: State): State { Rounds(a, 24) }
}
