/** The unrolled round of keccak.c: macros over lane names that a permutation renames from round to
    round, with six lanes kept complemented, and the proof that it is the round of FIPS 202. */
module KeccakRounds {
  import opened BitOps
  import opened KeccakWords
  import Fips202

  // The lanes by the names the source gives them, and the orders in which the macros receive them.
  const a00 := 0
  const a10 := 1
  const a20 := 2
  const a30 := 3
  const a40 := 4
  const a01 := 5
  const a11 := 6
  const a21 := 7
  const a31 := 8
  const a41 := 9
  const a02 := 10
  const a12 := 11
  const a22 := 12
  const a32 := 13
  const a42 := 14
  const a03 := 15
  const a13 := 16
  const a23 := 17
  const a33 := 18
  const a43 := 19
  const a04 := 20
  const a14 := 21
  const a24 := 22
  const a34 := 23
  const a44 := 24
  const P0: seq<nat> := [a00, a01, a02, a03, a04, a10, a11, a12, a13, a14, a20, a21, a22,
                        a23, a24, a30, a31, a32, a33, a34, a40, a41, a42, a43, a44]
  const P1: seq<nat> := [a00, a30, a10, a40, a20, a11, a41, a21, a01, a31, a22, a02, a32,
                        a12, a42, a33, a13, a43, a23, a03, a44, a24, a04, a34, a14]
  const P2: seq<nat> := [a00, a33, a11, a44, a22, a41, a24, a02, a30, a13, a32, a10, a43,
                        a21, a04, a23, a01, a34, a12, a40, a14, a42, a20, a03, a31]
  const P3: seq<nat> := [a00, a23, a41, a14, a32, a24, a42, a10, a33, a01, a43, a11, a34,
                        a02, a20, a12, a30, a03, a21, a44, a31, a04, a22, a40, a13]
  const P4: seq<nat> := [a00, a12, a24, a31, a43, a42, a04, a11, a23, a30, a34, a41, a03,
                        a10, a22, a21, a33, a40, a02, a14, a13, a20, a32, a44, a01]
  const P5: seq<nat> := [a00, a21, a42, a13, a34, a04, a20, a41, a12, a33, a03, a24, a40,
                        a11, a32, a02, a23, a44, a10, a31, a01, a22, a43, a14, a30]
  const P6: seq<nat> := [a00, a02, a04, a01, a03, a20, a22, a24, a21, a23, a40, a42, a44,
                        a41, a43, a10, a12, a14, a11, a13, a30, a32, a34, a31, a33]
  const P7: seq<nat> := [a00, a10, a20, a30, a40, a22, a32, a42, a02, a12, a44, a04, a14,
                        a24, a34, a11, a21, a31, a41, a01, a33, a43, a03, a13, a23]
  const P8: seq<nat> := [a00, a11, a22, a33, a44, a32, a43, a04, a10, a21, a14, a20, a31,
                        a42, a03, a41, a02, a13, a24, a30, a23, a34, a40, a01, a12]

  // A macro argument list names each of the 25 slots once; argument 5 * x + y plays lane (x, y).
  ghost predicate Naming(p: seq<nat>) {
    && |p| == 25
    && (forall i :: 0 <= i < 25 ==> p[i] < 25)
    && (forall i, j :: 0 <= i < j < 25 ==> p[i] != p[j])
  }

  // The state as a macro with argument list p sees it.
  function View(w: State, p: seq<nat>): (s: State)
    requires Naming(p)
    ensures forall x: nat, y: nat {:trigger Lane(s, x, y)} :: x < 5 && y < 5 ==> Lane(s, x, y) == w[p[5 * x + y]]
  {
    Build((x: nat, y: nat) requires x < 5 && y < 5 => w[p[5 * x + y]])
  }

  lemma P0At(x: nat, y: nat)
    requires x < 5 && y < 5
    ensures P0[5 * x + y] == x + 5 * y
  {
    assert x == 0 || x == 1 || x == 2 || x == 3 || x == 4;
    assert y == 0 || y == 1 || y == 2 || y == 3 || y == 4;
  }

  lemma P0Naming()
    ensures Naming(P0)
  {
  }

  lemma SourceOrder(w: State)
    requires Naming(P0)
    ensures View(w, P0) == w
  {
    hide Naming;
    forall x: nat, y: nat | x < 5 && y < 5
      ensures Lane(View(w, P0), x, y) == Lane(w, x, y)
    {
      P0At(x, y);
    }
    SameLanes(View(w, P0), w);
  }

  // The argument list after one renaming.
  function Renamed(p: seq<nat>): (q: seq<nat>)
    requires |p| == 25
    ensures |q| == 25
  {
    [p[0], p[15], p[5], p[20], p[10], p[6], p[21], p[11], p[1], p[16], p[12], p[2], p[17],
     p[7], p[22], p[18], p[8], p[23], p[13], p[3], p[24], p[14], p[4], p[19], p[9]]
  }

  lemma NamingsRename()
    ensures P1 == Renamed(P0) && P2 == Renamed(P1) && P3 == Renamed(P2) && P4 == Renamed(P3)
    ensures P5 == Renamed(P4) && P6 == Renamed(P5) && P7 == Renamed(P6) && P8 == Renamed(P7)
  {
  }

  lemma RenamedAt(p: seq<nat>, x: nat, y: nat)
    requires |p| == 25 && x < 5 && y < 5
    ensures Renamed(p)[5 * x + y] == p[5 * ((x + 3 * y) % 5) + x]
  {
    assert x == 0 || x == 1 || x == 2 || x == 3 || x == 4;
    assert y == 0 || y == 1 || y == 2 || y == 3 || y == 4;
  }

  lemma PiInjective(x: nat, y: nat, y': nat)
    requires y < 5 && y' < 5 && (x + 3 * y) % 5 == (x + 3 * y') % 5
    ensures y == y'
  {
    var k := (x + 3 * y) / 5 - (x + 3 * y') / 5;
    assert 3 * (y - y') == 5 * k;
  }

  // Which argument comes to slot i.
  function PiSource(i: nat): (m: nat)
    requires i < 25
    ensures m < 25
  {
    5 * ((i / 5 + 3 * (i % 5)) % 5) + i / 5
  }

  lemma PiSourceInjective(i: nat, j: nat)
    requires i < 25 && j < 25 && PiSource(i) == PiSource(j)
    ensures i == j
  {
    SameParts((i / 5 + 3 * (i % 5)) % 5, i / 5, (j / 5 + 3 * (j % 5)) % 5, j / 5);
    PiInjective(i / 5, i % 5, j % 5);
  }

  lemma SameParts(m: nat, x: nat, m': nat, x': nat)
    requires x < 5 && x' < 5 && 5 * m + x == 5 * m' + x'
    ensures m == m' && x == x'
  {
  }

  lemma RenamedNaming(p: seq<nat>)
    requires Naming(p)
    ensures Naming(Renamed(p))
  {
    hide Renamed, PiSource;
    var q := Renamed(p);
    forall i: nat | i < 25
      ensures q[i] == p[PiSource(i)]
    {
      RenamedSlot(p, i);
    }
    forall i: nat, j: nat | i < j < 25
      ensures q[i] != q[j]
    {
      if PiSource(i) == PiSource(j) {
        PiSourceInjective(i, j);
      }
    }
  }

  lemma RenamedSlot(p: seq<nat>, i: nat)
    requires |p| == 25 && i < 25
    ensures Renamed(p)[i] == p[PiSource(i)]
  {
    hide Renamed;
    RenamedAt(p, i / 5, i % 5);
  }

  lemma AllNamings()
    ensures Naming(P0) && Naming(P1) && Naming(P2) && Naming(P3) && Naming(P4)
    ensures Naming(P5) && Naming(P6) && Naming(P7) && Naming(P8)
  {
    hide Naming, Renamed;
    NamingsRename();
    P0Naming();
    RenamedNaming(P0);
    RenamedNaming(P1);
    RenamedNaming(P2);
    RenamedNaming(P3);
    RenamedNaming(P4);
    RenamedNaming(P5);
    RenamedNaming(P6);
    RenamedNaming(P7);
  }

  lemma NamingRange(p: seq<nat>)
    requires Naming(p)
    ensures |p| == 25 && forall i :: 0 <= i < 25 ==> p[i] < 25
  {
  }

  // Passing on the renamed arguments is the pi step.
  lemma RenamingIsPi(w: State, p: seq<nat>)
    requires Naming(p) && Naming(Renamed(p))
    ensures View(w, Renamed(p)) == Fips202.Pi(View(w, p))
  {
    hide Renamed, Naming;
    NamingRange(p);
    var q := Renamed(p);
    NamingRange(q);
    var s, t := View(w, q), Fips202.Pi(View(w, p));
    forall x: nat, y: nat, z: nat | x < 5 && y < 5 && z < 64
      ensures Fips202.Bit(s, x, y, z) == Fips202.Bit(t, x, y, z)
    {
      RenamedAt(p, x, y);
      assert Lane(s, x, y) == w[q[5 * x + y]];
      assert Lane(View(w, p), (x + 3 * y) % 5, x) == w[p[5 * ((x + 3 * y) % 5) + x]];
    }
    Fips202.SameBits(s, t);
  }

  // ---------- the macros ----------

  // TH_ELT
  function ThElt(c0: Word, c1: Word, c2: Word, c3: Word, c4: Word, d0: Word, d1: Word, d2: Word, d3: Word, d4: Word): Word {
    Xor(Xor(Rol(Xor(Xor(Xor(d0, d1), d4), Xor(d2, d3)), 1), c4), Xor(Xor(c0, c1), Xor(c2, c3)))
  }

  // The lanes as a macro receives them: argument i.
  function Args(w: State, p: seq<nat>): (r: State)
    requires Naming(p)
    ensures forall i :: 0 <= i < 25 ==> r[i] == w[p[i]]
  {
    seq(25, i requires 0 <= i < 25 => w[p[i]])
  }

  // TH_ELT applied to the columns whose arguments start at c and at d.
  function ThColumns(s: State, c: nat, d: nat): Word
    requires c <= 20 && d <= 20
  {
    ThElt(s[c], s[c + 1], s[c + 2], s[c + 3], s[c + 4], s[d], s[d + 1], s[d + 2], s[d + 3], s[d + 4])
  }

  // What THETA adds to argument i.
  function ThetaWord(s: State, i: nat): Word
    requires i < 25
  {
    if i < 5 then ThColumns(s, 20, 5) else if i < 10 then ThColumns(s, 0, 10) else if i < 15 then ThColumns(s, 5, 15)
    else if i < 20 then ThColumns(s, 10, 20) else ThColumns(s, 15, 0)
  }

  // XOR t into the five arguments from number c on.
  method XorColumn(a: array<Word>, p: seq<nat>, c: nat, t: Word)
    requires a.Length == 25 && Naming(p) && c <= 20
    modifies a
    ensures forall i :: 0 <= i < 25 ==> a[p[i]] == if c <= i < c + 5 then Xor(old(a[p[i]]), t) else old(a[p[i]])
  {
    hide Xor;
    a[p[c]] := Xor(a[p[c]], t);
    a[p[c + 1]] := Xor(a[p[c + 1]], t);
    a[p[c + 2]] := Xor(a[p[c + 2]], t);
    a[p[c + 3]] := Xor(a[p[c + 3]], t);
    a[p[c + 4]] := Xor(a[p[c + 4]], t);
  }

  // The five values THETA computes first.
  method ThetaWords(a: array<Word>, p: seq<nat>) returns (t0: Word, t1: Word, t2: Word, t3: Word, t4: Word)
    requires a.Length == 25 && Naming(p)
    ensures var s := Args(a[..], p);
            && t0 == ThColumns(s, 20, 5) && t1 == ThColumns(s, 0, 10) && t2 == ThColumns(s, 5, 15)
            && t3 == ThColumns(s, 10, 20) && t4 == ThColumns(s, 15, 0)
  {
    hide ThElt;
    t0 := ThElt(a[p[20]], a[p[21]], a[p[22]], a[p[23]], a[p[24]], a[p[5]], a[p[6]], a[p[7]], a[p[8]], a[p[9]]);
    t1 := ThElt(a[p[0]], a[p[1]], a[p[2]], a[p[3]], a[p[4]], a[p[10]], a[p[11]], a[p[12]], a[p[13]], a[p[14]]);
    t2 := ThElt(a[p[5]], a[p[6]], a[p[7]], a[p[8]], a[p[9]], a[p[15]], a[p[16]], a[p[17]], a[p[18]], a[p[19]]);
    t3 := ThElt(a[p[10]], a[p[11]], a[p[12]], a[p[13]], a[p[14]], a[p[20]], a[p[21]], a[p[22]], a[p[23]], a[p[24]]);
    t4 := ThElt(a[p[15]], a[p[16]], a[p[17]], a[p[18]], a[p[19]], a[p[0]], a[p[1]], a[p[2]], a[p[3]], a[p[4]]);
  }

  // THETA
  method Theta(a: array<Word>, p: seq<nat>)
    requires a.Length == 25 && Naming(p)
    modifies a
    ensures forall i :: 0 <= i < 25 ==> a[p[i]] == Xor(old(a[p[i]]), ThetaWord(Args(old(a[..]), p), i))
  {
    hide Xor, ThColumns, Args;
    var t0, t1, t2, t3, t4 := ThetaWords(a, p);
    XorColumn(a, p, 0, t0);
    XorColumn(a, p, 5, t1);
    XorColumn(a, p, 10, t2);
    XorColumn(a, p, 15, t3);
    XorColumn(a, p, 20, t4);
  }

  // The rotations of RHO.
  function OffsetRow(x: nat, y: nat): (n: nat)
    requires x < 5 && y < 5
    ensures n < 64
  {
    if x == 0 then (if y == 0 then 0 else if y == 1 then 36 else if y == 2 then 3 else if y == 3 then 41 else 18)
    else if x == 1 then (if y == 0 then 1 else if y == 1 then 44 else if y == 2 then 10 else if y == 3 then 45 else 2)
    else if x == 2 then (if y == 0 then 62 else if y == 1 then 6 else if y == 2 then 43 else if y == 3 then 15 else 61)
    else if x == 3 then (if y == 0 then 28 else if y == 1 then 55 else if y == 2 then 25 else if y == 3 then 21 else 56)
    else (if y == 0 then 27 else if y == 1 then 20 else if y == 2 then 39 else if y == 3 then 8 else 14)
  }

  // Column x rotated by its offsets.
  method RolColumn(a: array<Word>, p: seq<nat>, x: nat, n0: nat, n1: nat, n2: nat, n3: nat, n4: nat)
    requires a.Length == 25 && Naming(p) && x < 5
    requires n0 == OffsetRow(x, 0) && n1 == OffsetRow(x, 1) && n2 == OffsetRow(x, 2) && n3 == OffsetRow(x, 3) && n4 == OffsetRow(x, 4)
    modifies a
    ensures forall x': nat, y: nat {:trigger OffsetRow(x', y)} :: x' < 5 && y < 5 && x' != x ==>
              a[p[5 * x' + y]] == old(a[p[5 * x' + y]])
    ensures forall y: nat {:trigger OffsetRow(x, y)} :: y < 5 ==> a[p[5 * x + y]] == Rol(old(a[p[5 * x + y]]), OffsetRow(x, y))
  {
    hide Rol, OffsetRow;
    var c := 5 * x;
    a[p[c]] := Rol(a[p[c]], n0);
    a[p[c + 1]] := Rol(a[p[c + 1]], n1);
    a[p[c + 2]] := Rol(a[p[c + 2]], n2);
    a[p[c + 3]] := Rol(a[p[c + 3]], n3);
    a[p[c + 4]] := Rol(a[p[c + 4]], n4);
  }

  // RHO
  method Rho(a: array<Word>, p: seq<nat>)
    requires a.Length == 25 && Naming(p)
    modifies a
    ensures forall x: nat, y: nat {:trigger OffsetRow(x, y)} :: x < 5 && y < 5 ==>
              a[p[5 * x + y]] == Rol(old(a[p[5 * x + y]]), OffsetRow(x, y))
  {
    hide Rol, Naming;
    NamingRange(p);
    RolColumn(a, p, 0, 0, 36, 3, 41, 18);
    RolColumn(a, p, 1, 1, 44, 10, 45, 2);
    RolColumn(a, p, 2, 62, 6, 43, 15, 61);
    RolColumn(a, p, 3, 28, 55, 25, 21, 56);
    RolColumn(a, p, 4, 27, 20, 39, 8, 14);
    forall x: nat, y: nat | x < 5 && y < 5
      ensures a[p[5 * x + y]] == Rol(old(a[p[5 * x + y]]), OffsetRow(x, y))
    {
      assert x == 0 || x == 1 || x == 2 || x == 3 || x == 4;
    }
  }

  datatype Row = Row(w0: Word, w1: Word, w2: Word, w3: Word, w4: Word)

  // KHI_XO
  function KhiXo(a: Word, b: Word, c: Word): (r: Word)
    ensures forall z :: 0 <= z < 64 ==> r[z] == (a[z] != (b[z] || c[z]))
  {
    Xor(a, Or(b, c))
  }

  // KHI_XA
  function KhiXa(a: Word, b: Word, c: Word): (r: Word)
    ensures forall z :: 0 <= z < 64 ==> r[z] == (a[z] != (b[z] && c[z]))
  {
    Xor(a, And(b, c))
  }

  // The five values KHI computes for row y, with one lane complemented on the way.
  function KhiRow(y: nat, b: Row): Row
    requires y < 5
  {
    if y == 0 then
      var bnn := Not(b.w2);
      Row(KhiXo(b.w0, b.w1, b.w2), KhiXo(b.w1, bnn, b.w3), KhiXa(b.w2, b.w3, b.w4), KhiXo(b.w3, b.w4, b.w0),
          KhiXa(b.w4, b.w0, b.w1))
    else if y == 1 then
      var bnn := Not(b.w4);
      Row(KhiXo(b.w0, b.w1, b.w2), KhiXa(b.w1, b.w2, b.w3), KhiXo(b.w2, b.w3, bnn), KhiXo(b.w3, b.w4, b.w0),
          KhiXa(b.w4, b.w0, b.w1))
    else if y == 2 then
      var bnn := Not(b.w3);
      Row(KhiXo(b.w0, b.w1, b.w2), KhiXa(b.w1, b.w2, b.w3), KhiXa(b.w2, bnn, b.w4), KhiXo(bnn, b.w4, b.w0),
          KhiXa(b.w4, b.w0, b.w1))
    else if y == 3 then
      var bnn := Not(b.w3);
      Row(KhiXa(b.w0, b.w1, b.w2), KhiXo(b.w1, b.w2, b.w3), KhiXo(b.w2, bnn, b.w4), KhiXa(bnn, b.w4, b.w0),
          KhiXo(b.w4, b.w0, b.w1))
    else
      var bnn := Not(b.w1);
      Row(KhiXa(b.w0, bnn, b.w2), KhiXo(bnn, b.w2, b.w3), KhiXa(b.w2, b.w3, b.w4), KhiXo(b.w3, b.w4, b.w0),
          KhiXa(b.w4, b.w0, b.w1))
  }

  // Arguments y, 5 + y, 10 + y, 15 + y and 20 + y.
  function RowOf(s: State, y: nat): Row
    requires y < 5
  {
    Row(s[y], s[5 + y], s[10 + y], s[15 + y], s[20 + y])
  }

  // One of the five blocks of KHI.
  method KhiBlock(a: array<Word>, p: seq<nat>, y: nat)
    requires a.Length == 25 && Naming(p) && y < 5
    modifies a
    ensures forall y': nat :: y' < 5 && y' != y ==> RowOf(Args(a[..], p), y') == RowOf(Args(old(a[..]), p), y')
    ensures RowOf(Args(a[..], p), y) == KhiRow(y, RowOf(Args(old(a[..]), p), y))
  {
    hide KhiRow;
    var c := KhiRow(y, Row(a[p[y]], a[p[5 + y]], a[p[10 + y]], a[p[15 + y]], a[p[20 + y]]));
    a[p[y]] := c.w0;
    a[p[5 + y]] := c.w1;
    a[p[10 + y]] := c.w2;
    a[p[15 + y]] := c.w3;
    a[p[20 + y]] := c.w4;
  }

  // KHI
  method Khi(a: array<Word>, p: seq<nat>)
    requires a.Length == 25 && Naming(p)
    modifies a
    ensures forall y: nat :: y < 5 ==> RowOf(Args(a[..], p), y) == KhiRow(y, RowOf(Args(old(a[..]), p), y))
  {
    hide KhiRow, RowOf, Args;
    KhiBlock(a, p, 0);
    KhiBlock(a, p, 1);
    KhiBlock(a, p, 2);
    KhiBlock(a, p, 3);
    KhiBlock(a, p, 4);
  }

  // One cycle of P8_TO_P0.
  method Rotate3(a: array<Word>, i: nat, j: nat, k: nat)
    requires a.Length == 25 && i < 25 && j < 25 && k < 25 && i != j && j != k && i != k
    modifies a
    ensures a[i] == old(a[j]) && a[j] == old(a[k]) && a[k] == old(a[i])
    ensures forall l :: 0 <= l < 25 && l != i && l != j && l != k ==> a[l] == old(a[l])
  {
    var t := a[i];
    a[i] := a[j];
    a[j] := a[k];
    a[k] := t;
  }

  // P8_TO_P0
  method P8ToP0(a: array<Word>)
    requires a.Length == 25
    modifies a
    ensures a[a00] == old(a[a00]) && a[a01] == old(a[a11]) && a[a02] == old(a[a22]) && a[a03] == old(a[a33]) && a[a04] == old(a[a44])
    ensures a[a10] == old(a[a32]) && a[a11] == old(a[a43]) && a[a12] == old(a[a04]) && a[a13] == old(a[a10]) && a[a14] == old(a[a21])
    ensures a[a20] == old(a[a14]) && a[a21] == old(a[a20]) && a[a22] == old(a[a31]) && a[a23] == old(a[a42]) && a[a24] == old(a[a03])
    ensures a[a30] == old(a[a41]) && a[a31] == old(a[a02]) && a[a32] == old(a[a13]) && a[a33] == old(a[a24]) && a[a34] == old(a[a30])
    ensures a[a40] == old(a[a23]) && a[a41] == old(a[a34]) && a[a42] == old(a[a40]) && a[a43] == old(a[a01]) && a[a44] == old(a[a12])
  {
    Rotate3(a, a01, a11, a43);
    Rotate3(a, a02, a22, a31);
    Rotate3(a, a03, a33, a24);
    Rotate3(a, a04, a44, a12);
    Rotate3(a, a10, a32, a13);
    Rotate3(a, a14, a21, a20);
    Rotate3(a, a23, a42, a40);
    Rotate3(a, a30, a41, a34);
  }

  // ---------- each macro is a step mapping of FIPS 202 ----------

  lemma ArgLane(w: State, p: seq<nat>, x: nat, y: nat)
    requires Naming(p) && x < 5 && y < 5
    ensures Args(w, p)[5 * x + y] == Lane(View(w, p), x, y) == w[p[5 * x + y]]
  {
  }

  function Sum(c0: Word, c1: Word, c2: Word, c3: Word, c4: Word, z: nat): bool
    requires z < 64
  {
    (((c0[z] != c1[z]) != c2[z]) != c3[z]) != c4[z]
  }

  lemma ThEltBit(c0: Word, c1: Word, c2: Word, c3: Word, c4: Word, d0: Word, d1: Word, d2: Word, d3: Word, d4: Word, z: nat)
    requires z < 64
    ensures ThElt(c0, c1, c2, c3, c4, d0, d1, d2, d3, d4)[z]
            == (Sum(c0, c1, c2, c3, c4, z) != Sum(d0, d1, d2, d3, d4, (z + 63) % 64))
  {
    hide Xor, Rol;
    assert (z + 63) % 64 == if 1 <= z then z - 1 else z - 1 + 64;
  }

  lemma ColumnSum(s: State, t: State, x: nat, z: nat)
    requires x < 5 && z < 64 && forall y: nat :: y < 5 ==> t[5 * x + y] == Lane(s, x, y)
    ensures Sum(t[5 * x], t[5 * x + 1], t[5 * x + 2], t[5 * x + 3], t[5 * x + 4], z) == Fips202.C(s, x, z)
  {
    hide Lane;
    assert t[5 * x + 0] == Lane(s, x, 0) && t[5 * x + 1] == Lane(s, x, 1) && t[5 * x + 2] == Lane(s, x, 2);
    assert t[5 * x + 3] == Lane(s, x, 3) && t[5 * x + 4] == Lane(s, x, 4);
  }

  lemma ThColumnsBit(s: State, t: State, l: nat, r: nat, z: nat)
    requires l < 5 && r < 5 && z < 64
    requires forall y: nat :: y < 5 ==> t[5 * l + y] == Lane(s, l, y) && t[5 * r + y] == Lane(s, r, y)
    ensures ThColumns(t, 5 * l, 5 * r)[z] == (Fips202.C(s, l, z) != Fips202.C(s, r, (z + 63) % 64))
  {
    hide Lane, ThElt, Sum, Fips202.C;
    ThEltBit(t[5 * l], t[5 * l + 1], t[5 * l + 2], t[5 * l + 3], t[5 * l + 4],
             t[5 * r], t[5 * r + 1], t[5 * r + 2], t[5 * r + 3], t[5 * r + 4], z);
    ColumnSum(s, t, l, z);
    ColumnSum(s, t, r, (z + 63) % 64);
  }

  lemma ThetaBit(w: State, p: seq<nat>, x: nat, y: nat, z: nat)
    requires Naming(p) && x < 5 && y < 5 && z < 64
    ensures ThetaWord(Args(w, p), 5 * x + y)[z] == Fips202.D(View(w, p), x, z)
  {
    hide ThColumns, Fips202.C, Naming;
    var s, t := View(w, p), Args(w, p);
    forall x: nat, y: nat | x < 5 && y < 5
      ensures t[5 * x + y] == Lane(s, x, y)
    {
      ArgLane(w, p, x, y);
    }
    ThColumnsBit(s, t, (x + 4) % 5, (x + 1) % 5, z);
    assert x == 0 || x == 1 || x == 2 || x == 3 || x == 4;
  }

  lemma ThetaIsTheta(w: State, w1: State, p: seq<nat>)
    requires Naming(p)
    requires forall i :: 0 <= i < 25 ==> w1[p[i]] == Xor(w[p[i]], ThetaWord(Args(w, p), i))
    ensures View(w1, p) == Fips202.Theta(View(w, p))
  {
    hide ThetaWord, Fips202.D;
    var s, t := View(w1, p), Fips202.Theta(View(w, p));
    forall x: nat, y: nat, z: nat | x < 5 && y < 5 && z < 64
      ensures Fips202.Bit(s, x, y, z) == Fips202.Bit(t, x, y, z)
    {
      ArgLane(w, p, x, y);
      ArgLane(w1, p, x, y);
      ThetaBit(w, p, x, y, z);
      assert w1[p[5 * x + y]] == Xor(w[p[5 * x + y]], ThetaWord(Args(w, p), 5 * x + y));
    }
    Fips202.SameBits(s, t);
  }

  lemma OffsetStep(x: nat, y: nat, cx: nat, cy: nat, t: nat)
    requires t < 24
    ensures Fips202.OffsetFrom(x, y, cx, cy, t)
            == if x == cx && y == cy then (t + 1) * (t + 2) / 2 else Fips202.OffsetFrom(x, y, cy, (2 * cx + 3 * cy) % 5, t + 1)
  {
  }

  // The walk of section 3.2.2, step by step.
  lemma OffsetWalk0(x: nat, y: nat)
    ensures Fips202.OffsetFrom(x, y, 1, 0, 0) == if x == 1 && y == 0 then 1 else Fips202.OffsetFrom(x, y, 0, 2, 1)
    ensures Fips202.OffsetFrom(x, y, 0, 2, 1) == if x == 0 && y == 2 then 3 else Fips202.OffsetFrom(x, y, 2, 1, 2)
    ensures Fips202.OffsetFrom(x, y, 2, 1, 2) == if x == 2 && y == 1 then 6 else Fips202.OffsetFrom(x, y, 1, 2, 3)
    ensures Fips202.OffsetFrom(x, y, 1, 2, 3) == if x == 1 && y == 2 then 10 else Fips202.OffsetFrom(x, y, 2, 3, 4)
    ensures Fips202.OffsetFrom(x, y, 2, 3, 4) == if x == 2 && y == 3 then 15 else Fips202.OffsetFrom(x, y, 3, 3, 5)
    ensures Fips202.OffsetFrom(x, y, 3, 3, 5) == if x == 3 && y == 3 then 21 else Fips202.OffsetFrom(x, y, 3, 0, 6)
  {
    hide Fips202.OffsetFrom;
    OffsetStep(x, y, 1, 0, 0);
    OffsetStep(x, y, 0, 2, 1);
    OffsetStep(x, y, 2, 1, 2);
    OffsetStep(x, y, 1, 2, 3);
    OffsetStep(x, y, 2, 3, 4);
    OffsetStep(x, y, 3, 3, 5);
  }

  lemma OffsetWalk1(x: nat, y: nat)
    ensures Fips202.OffsetFrom(x, y, 3, 0, 6) == if x == 3 && y == 0 then 28 else Fips202.OffsetFrom(x, y, 0, 1, 7)
    ensures Fips202.OffsetFrom(x, y, 0, 1, 7) == if x == 0 && y == 1 then 36 else Fips202.OffsetFrom(x, y, 1, 3, 8)
    ensures Fips202.OffsetFrom(x, y, 1, 3, 8) == if x == 1 && y == 3 then 45 else Fips202.OffsetFrom(x, y, 3, 1, 9)
    ensures Fips202.OffsetFrom(x, y, 3, 1, 9) == if x == 3 && y == 1 then 55 else Fips202.OffsetFrom(x, y, 1, 4, 10)
    ensures Fips202.OffsetFrom(x, y, 1, 4, 10) == if x == 1 && y == 4 then 66 else Fips202.OffsetFrom(x, y, 4, 4, 11)
    ensures Fips202.OffsetFrom(x, y, 4, 4, 11) == if x == 4 && y == 4 then 78 else Fips202.OffsetFrom(x, y, 4, 0, 12)
  {
    hide Fips202.OffsetFrom;
    OffsetStep(x, y, 3, 0, 6);
    OffsetStep(x, y, 0, 1, 7);
    OffsetStep(x, y, 1, 3, 8);
    OffsetStep(x, y, 3, 1, 9);
    OffsetStep(x, y, 1, 4, 10);
    OffsetStep(x, y, 4, 4, 11);
  }

  lemma OffsetWalk2(x: nat, y: nat)
    ensures Fips202.OffsetFrom(x, y, 4, 0, 12) == if x == 4 && y == 0 then 91 else Fips202.OffsetFrom(x, y, 0, 3, 13)
    ensures Fips202.OffsetFrom(x, y, 0, 3, 13) == if x == 0 && y == 3 then 105 else Fips202.OffsetFrom(x, y, 3, 4, 14)
    ensures Fips202.OffsetFrom(x, y, 3, 4, 14) == if x == 3 && y == 4 then 120 else Fips202.OffsetFrom(x, y, 4, 3, 15)
    ensures Fips202.OffsetFrom(x, y, 4, 3, 15) == if x == 4 && y == 3 then 136 else Fips202.OffsetFrom(x, y, 3, 2, 16)
    ensures Fips202.OffsetFrom(x, y, 3, 2, 16) == if x == 3 && y == 2 then 153 else Fips202.OffsetFrom(x, y, 2, 2, 17)
    ensures Fips202.OffsetFrom(x, y, 2, 2, 17) == if x == 2 && y == 2 then 171 else Fips202.OffsetFrom(x, y, 2, 0, 18)
  {
    hide Fips202.OffsetFrom;
    OffsetStep(x, y, 4, 0, 12);
    OffsetStep(x, y, 0, 3, 13);
    OffsetStep(x, y, 3, 4, 14);
    OffsetStep(x, y, 4, 3, 15);
    OffsetStep(x, y, 3, 2, 16);
    OffsetStep(x, y, 2, 2, 17);
  }

  lemma OffsetWalk3(x: nat, y: nat)
    ensures Fips202.OffsetFrom(x, y, 2, 0, 18) == if x == 2 && y == 0 then 190 else Fips202.OffsetFrom(x, y, 0, 4, 19)
    ensures Fips202.OffsetFrom(x, y, 0, 4, 19) == if x == 0 && y == 4 then 210 else Fips202.OffsetFrom(x, y, 4, 2, 20)
    ensures Fips202.OffsetFrom(x, y, 4, 2, 20) == if x == 4 && y == 2 then 231 else Fips202.OffsetFrom(x, y, 2, 4, 21)
    ensures Fips202.OffsetFrom(x, y, 2, 4, 21) == if x == 2 && y == 4 then 253 else Fips202.OffsetFrom(x, y, 4, 1, 22)
    ensures Fips202.OffsetFrom(x, y, 4, 1, 22) == if x == 4 && y == 1 then 276 else Fips202.OffsetFrom(x, y, 1, 1, 23)
    ensures Fips202.OffsetFrom(x, y, 1, 1, 23) == if x == 1 && y == 1 then 300 else Fips202.OffsetFrom(x, y, 1, 0, 24)
  {
    hide Fips202.OffsetFrom;
    OffsetStep(x, y, 2, 0, 18);
    OffsetStep(x, y, 0, 4, 19);
    OffsetStep(x, y, 4, 2, 20);
    OffsetStep(x, y, 2, 4, 21);
    OffsetStep(x, y, 4, 1, 22);
    OffsetStep(x, y, 1, 1, 23);
  }

  // It meets the offsets RHO uses.
  lemma OffsetTable(x: nat, y: nat)
    requires x < 5 && y < 5
    ensures Fips202.Offset(x, y) == OffsetRow(x, y)
  {
    hide Fips202.OffsetFrom;
    OffsetWalk0(x, y);
    OffsetWalk1(x, y);
    OffsetWalk2(x, y);
    OffsetWalk3(x, y);
  }

  lemma RolBit(v: Word, n: nat, z: nat)
    requires z < 64 && n < 64
    ensures Rol(v, n)[z] == v[(z + 64 - n) % 64]
  {
    hide Rol;
    assert (z + 64 - n) % 64 == if n <= z then z - n else z - n + 64;
  }

  lemma RhoIsRho(w: State, w1: State, p: seq<nat>)
    requires Naming(p)
    requires forall x: nat, y: nat {:trigger Fips202.Offset(x, y)} :: x < 5 && y < 5 ==>
               Fips202.Offset(x, y) < 64 && w1[p[5 * x + y]] == Rol(w[p[5 * x + y]], Fips202.Offset(x, y))
    ensures View(w1, p) == Fips202.Rho(View(w, p))
  {
    hide Rol, Fips202.Offset, Fips202.FromBits, Build, Naming, View, Args;
    NamingRange(p);
    var s, t := View(w1, p), Fips202.Rho(View(w, p));
    forall x: nat, y: nat, z: nat | x < 5 && y < 5 && z < 64
      ensures Fips202.Bit(s, x, y, z) == Fips202.Bit(t, x, y, z)
    {
      ArgLane(w, p, x, y);
      ArgLane(w1, p, x, y);
      RolBit(w[p[5 * x + y]], Fips202.Offset(x, y), z);
    }
    Fips202.SameBits(s, t);
  }

  lemma RhoStep(w: State, w1: State, p: seq<nat>)
    requires Naming(p)
    requires forall x: nat, y: nat {:trigger OffsetRow(x, y)} :: x < 5 && y < 5 ==>
               w1[p[5 * x + y]] == Rol(w[p[5 * x + y]], OffsetRow(x, y))
    ensures View(w1, p) == Fips202.Rho(View(w, p))
  {
    hide Naming, Rol, Fips202.Offset, View, Fips202.Rho, OffsetRow;
    NamingRange(p);
    forall x: nat, y: nat | x < 5 && y < 5
      ensures Fips202.Offset(x, y) < 64 && w1[p[5 * x + y]] == Rol(w[p[5 * x + y]], Fips202.Offset(x, y))
    {
      OffsetTable(x, y);
    }
    RhoIsRho(w, w1, p);
  }

  // KHI as a function of the state.
  function KhiState(s: State): State {
    Build((x: nat, y: nat) requires x < 5 && y < 5 => RowLane(KhiRow(y, LaneRow(s, y)), x))
  }

  function RowLane(r: Row, x: nat): Word
    requires x < 5
  {
    if x == 0 then r.w0 else if x == 1 then r.w1 else if x == 2 then r.w2 else if x == 3 then r.w3 else r.w4
  }

  function LaneRow(s: State, y: nat): Row
    requires y < 5
  {
    Row(Lane(s, 0, y), Lane(s, 1, y), Lane(s, 2, y), Lane(s, 3, y), Lane(s, 4, y))
  }

  lemma RowView(w: State, p: seq<nat>, y: nat)
    requires Naming(p) && y < 5
    ensures RowOf(Args(w, p), y) == LaneRow(View(w, p), y)
  {
    ArgLane(w, p, 0, y);
    ArgLane(w, p, 1, y);
    ArgLane(w, p, 2, y);
    ArgLane(w, p, 3, y);
    ArgLane(w, p, 4, y);
  }

  lemma KhiIsKhi(w: State, w1: State, p: seq<nat>)
    requires Naming(p)
    requires forall y: nat :: y < 5 ==> RowOf(Args(w1, p), y) == KhiRow(y, RowOf(Args(w, p), y))
    ensures View(w1, p) == KhiState(View(w, p))
  {
    hide KhiRow, Naming, View, Args;
    var s, t := View(w1, p), KhiState(View(w, p));
    forall x: nat, y: nat | x < 5 && y < 5
      ensures Lane(s, x, y) == Lane(t, x, y)
    {
      RowView(w, p, y);
      RowView(w1, p, y);
      assert Lane(s, x, y) == RowLane(LaneRow(s, y), x);
      assert RowOf(Args(w1, p), y) == KhiRow(y, RowOf(Args(w, p), y));
    }
    SameLanes(s, t);
  }

  // ---------- the complemented lanes through one round ----------

  // Complemented between rounds: a10 a20 a31 a22 a23 a04.
  const MASK: Mask := [false, true, true, false, false, false, false, false, true, false, false, false, true,
                   false, false, false, false, true, false, false, true, false, false, false, false]

  // After theta.
  const THETA_MASK: Mask := [true, true, true, true, false, true, false, false, false, false, true, false, true,
                   true, false, true, false, true, true, false, false, false, false, true, false]

  // On input to KHI: a00 a01 a02 a04 a13 a20 a21 a22 a30 a33 a34 a43.
  const KHI_MASK: Mask := [true, false, true, true, false, true, false, true, false, false, true, false, true,
                   false, false, false, true, false, true, true, true, false, false, true, false]

  lemma MaskedBit(s: State, m: Mask, x: nat, y: nat, z: nat)
    requires x < 5 && y < 5 && z < 64
    ensures Fips202.Bit(Masked(s, m), x, y, z) == (Fips202.Bit(s, x, y, z) != m[x + 5 * y])
  {
  }

  function Parity(m: Mask, x: nat): bool
    requires x < 5
  {
    (((m[x] != m[x + 5]) != m[x + 10]) != m[x + 15]) != m[x + 20]
  }

  lemma MaskedC(s: State, m: Mask, x: nat, z: nat)
    requires x < 5 && z < 64
    ensures Fips202.C(Masked(s, m), x, z) == (Fips202.C(s, x, z) != Parity(m, x))
  {
    hide Fips202.Bit, Masked;
    MaskedBit(s, m, x, 0, z);
    MaskedBit(s, m, x, 1, z);
    MaskedBit(s, m, x, 2, z);
    MaskedBit(s, m, x, 3, z);
    MaskedBit(s, m, x, 4, z);
  }

  lemma MaskParities()
    ensures Parity(MASK, 0) && Parity(MASK, 1) && Parity(MASK, 2) && Parity(MASK, 3) && !Parity(MASK, 4)
  {
  }

  // The theta expansion turns the mask between rounds into THETA_MASK, and the renaming into KHI_MASK.
  lemma ThetaMaskTable(x: nat, y: nat)
    requires x < 5 && y < 5
    ensures THETA_MASK[x + 5 * y] == (MASK[x + 5 * y] != (Parity(MASK, (x + 4) % 5) != Parity(MASK, (x + 1) % 5)))
  {
    hide Parity;
    MaskParities();
    assert x == 0 || x == 1 || x == 2 || x == 3 || x == 4;
    assert y == 0 || y == 1 || y == 2 || y == 3 || y == 4;
  }

  lemma KhiMaskTable(x: nat, y: nat)
    requires x < 5 && y < 5
    ensures KHI_MASK[x + 5 * y] == THETA_MASK[(x + 3 * y) % 5 + 5 * x]
  {
    assert x == 0 || x == 1 || x == 2 || x == 3 || x == 4;
    assert y == 0 || y == 1 || y == 2 || y == 3 || y == 4;
  }

  lemma ThetaMasked(s: State)
    ensures Fips202.Theta(Masked(s, MASK)) == Masked(Fips202.Theta(s), THETA_MASK)
  {
    hide Fips202.C, Masked, Parity, MASK, THETA_MASK;
    var l, r := Fips202.Theta(Masked(s, MASK)), Masked(Fips202.Theta(s), THETA_MASK);
    forall x: nat, y: nat, z: nat | x < 5 && y < 5 && z < 64
      ensures Fips202.Bit(l, x, y, z) == Fips202.Bit(r, x, y, z)
    {
      MaskedC(s, MASK, (x + 4) % 5, z);
      MaskedC(s, MASK, (x + 1) % 5, (z + 63) % 64);
      ThetaMaskTable(x, y);
      MaskedBit(s, MASK, x, y, z);
      MaskedBit(Fips202.Theta(s), THETA_MASK, x, y, z);
    }
    Fips202.SameBits(l, r);
  }

  lemma RhoMasked(s: State, m: Mask)
    ensures Fips202.Rho(Masked(s, m)) == Masked(Fips202.Rho(s), m)
  {
    hide Masked, Fips202.Offset;
    var l, r := Fips202.Rho(Masked(s, m)), Masked(Fips202.Rho(s), m);
    forall x: nat, y: nat, z: nat | x < 5 && y < 5 && z < 64
      ensures Fips202.Bit(l, x, y, z) == Fips202.Bit(r, x, y, z)
    {
      MaskedBit(s, m, x, y, (z + 64 - Fips202.Offset(x, y)) % 64);
      MaskedBit(Fips202.Rho(s), m, x, y, z);
    }
    Fips202.SameBits(l, r);
  }

  lemma PiMasked(s: State)
    ensures Fips202.Pi(Masked(s, THETA_MASK)) == Masked(Fips202.Pi(s), KHI_MASK)
  {
    hide Masked, Parity, MASK, THETA_MASK, KHI_MASK;
    var l, r := Fips202.Pi(Masked(s, THETA_MASK)), Masked(Fips202.Pi(s), KHI_MASK);
    forall x: nat, y: nat, z: nat | x < 5 && y < 5 && z < 64
      ensures Fips202.Bit(l, x, y, z) == Fips202.Bit(r, x, y, z)
    {
      KhiMaskTable(x, y);
      MaskedBit(s, THETA_MASK, (x + 3 * y) % 5, x, z);
      MaskedBit(Fips202.Pi(s), KHI_MASK, x, y, z);
    }
    Fips202.SameBits(l, r);
  }

  function ChiBit(a: Word, b: Word, c: Word, z: nat): bool
    requires z < 64
  {
    a[z] != (!b[z] && c[z])
  }

  // A row with its lanes complemented as m says.
  function MaskedRow(m: Mask, y: nat, b: Row): Row
    requires y < 5
  {
    Row(MaskedWord(m[5 * y], b.w0), MaskedWord(m[5 * y + 1], b.w1), MaskedWord(m[5 * y + 2], b.w2),
        MaskedWord(m[5 * y + 3], b.w3), MaskedWord(m[5 * y + 4], b.w4))
  }

  function MaskedWord(c: bool, w: Word): Word { if c then Not(w) else w }

  lemma MaskedWordAt(c: bool, w: Word, z: nat)
    requires z < 64
    ensures MaskedWord(c, w)[z] == (w[z] != c)
  {
  }

  // KHI on one bit of each lane of a row.
  function KhiBits(y: nat, a: bool, b: bool, c: bool, d: bool, e: bool): (bool, bool, bool, bool, bool)
    requires y < 5
  {
    if y == 0 then (a != (b || c), b != (!c || d), c != (d && e), d != (e || a), e != (a && b))
    else if y == 1 then (a != (b || c), b != (c && d), c != (d || !e), d != (e || a), e != (a && b))
    else if y == 2 then (a != (b || c), b != (c && d), c != (!d && e), !d != (e || a), e != (a && b))
    else if y == 3 then (a != (b && c), b != (c || d), c != (!d || e), !d != (e && a), e != (a || b))
    else (a != (!b && c), !b != (c || d), c != (d && e), d != (e || a), e != (a && b))
  }

  lemma KhiRowAt(y: nat, r: Row, z: nat)
    requires y < 5 && z < 64
    ensures var k := KhiRow(y, r);
            (k.w0[z], k.w1[z], k.w2[z], k.w3[z], k.w4[z]) == KhiBits(y, r.w0[z], r.w1[z], r.w2[z], r.w3[z], r.w4[z])
  {
    hide Not, KhiXo, KhiXa;
    assert y == 0 || y == 1 || y == 2 || y == 3 || y == 4;
  }

  // On bits complemented as KHI_MASK says it is chi, complemented as MASK says.
  lemma KhiBitsMasked(y: nat, a: bool, b: bool, c: bool, d: bool, e: bool)
    requires y < 5
    ensures KhiBits(y, a != KHI_MASK[5 * y], b != KHI_MASK[5 * y + 1], c != KHI_MASK[5 * y + 2], d != KHI_MASK[5 * y + 3],
                    e != KHI_MASK[5 * y + 4])
            == ((a != (!b && c)) != MASK[5 * y], (b != (!c && d)) != MASK[5 * y + 1], (c != (!d && e)) != MASK[5 * y + 2],
                (d != (!e && a)) != MASK[5 * y + 3], (e != (!a && b)) != MASK[5 * y + 4])
  {
    assert y == 0 || y == 1 || y == 2 || y == 3 || y == 4;
  }

  lemma KhiRowBits(y: nat, b: Row, z: nat)
    requires y < 5 && z < 64
    ensures var k := KhiRow(y, MaskedRow(KHI_MASK, y, b));
            (k.w0[z], k.w1[z], k.w2[z], k.w3[z], k.w4[z])
            == (ChiBit(b.w0, b.w1, b.w2, z) != MASK[5 * y], ChiBit(b.w1, b.w2, b.w3, z) != MASK[5 * y + 1],
                ChiBit(b.w2, b.w3, b.w4, z) != MASK[5 * y + 2], ChiBit(b.w3, b.w4, b.w0, z) != MASK[5 * y + 3],
                ChiBit(b.w4, b.w0, b.w1, z) != MASK[5 * y + 4])
  {
    hide KhiRow, KHI_MASK, MASK, MaskedWord, KhiBits;
    KhiRowAt(y, MaskedRow(KHI_MASK, y, b), z);
    MaskedWordAt(KHI_MASK[5 * y], b.w0, z);
    MaskedWordAt(KHI_MASK[5 * y + 1], b.w1, z);
    MaskedWordAt(KHI_MASK[5 * y + 2], b.w2, z);
    MaskedWordAt(KHI_MASK[5 * y + 3], b.w3, z);
    MaskedWordAt(KHI_MASK[5 * y + 4], b.w4, z);
    KhiBitsMasked(y, b.w0[z], b.w1[z], b.w2[z], b.w3[z], b.w4[z]);
  }

  lemma KhiRowBit(y: nat, b: Row, x: nat, z: nat)
    requires x < 5 && y < 5 && z < 64
    ensures RowLane(KhiRow(y, MaskedRow(KHI_MASK, y, b)), x)[z]
            == (ChiBit(RowLane(b, x), RowLane(b, (x + 1) % 5), RowLane(b, (x + 2) % 5), z) != MASK[5 * y + x])
  {
    hide KhiRow, KHI_MASK, MASK, MaskedRow, ChiBit;
    KhiRowBits(y, b, z);
    assert x == 0 || x == 1 || x == 2 || x == 3 || x == 4;
  }

  lemma MaskedLane(s: State, m: Mask, x: nat, y: nat)
    requires x < 5 && y < 5
    ensures Lane(Masked(s, m), x, y) == if m[x + 5 * y] then Not(Lane(s, x, y)) else Lane(s, x, y)
  {
    hide Not;
  }

  lemma LaneRowMasked(s: State, m: Mask, y: nat)
    requires y < 5
    ensures LaneRow(Masked(s, m), y) == MaskedRow(m, y, LaneRow(s, y))
  {
    hide Masked, Not, Lane;
    MaskedLane(s, m, 0, y);
    MaskedLane(s, m, 1, y);
    MaskedLane(s, m, 2, y);
    MaskedLane(s, m, 3, y);
    MaskedLane(s, m, 4, y);
  }

  lemma ChiAt(s: State, x: nat, y: nat, z: nat, x1: nat, x2: nat)
    requires x < 5 && y < 5 && z < 64 && x1 == (x + 1) % 5 && x2 == (x + 2) % 5
    ensures Fips202.Bit(Fips202.Chi(s), x, y, z) == (Fips202.Bit(s, x, y, z) != (!Fips202.Bit(s, x1, y, z) && Fips202.Bit(s, x2, y, z)))
  {
    hide Lane, Fips202.FromBits, Fips202.Bit, Build;
    assert x == 0 || x == 1 || x == 2 || x == 3 || x == 4;
  }

  lemma ChiBitIsChi(s: State, x: nat, y: nat, z: nat)
    requires x < 5 && y < 5 && z < 64
    ensures Fips202.Bit(Fips202.Chi(s), x, y, z) == ChiBit(Lane(s, x, y), Lane(s, (x + 1) % 5, y), Lane(s, (x + 2) % 5, y), z)
  {
    hide Lane, Fips202.Chi;
    ChiAt(s, x, y, z, (x + 1) % 5, (x + 2) % 5);
  }

  lemma KhiLane(s: State, x: nat, y: nat)
    requires x < 5 && y < 5
    ensures Lane(KhiState(s), x, y) == RowLane(KhiRow(y, LaneRow(s, y)), x)
  {
  }

  lemma RowLaneIs(s: State, x: nat, y: nat)
    requires x < 5 && y < 5
    ensures RowLane(LaneRow(s, y), x) == Lane(s, x, y)
  {
  }

  lemma KhiBit(s: State, x: nat, y: nat, z: nat)
    requires x < 5 && y < 5 && z < 64
    ensures Fips202.Bit(KhiState(Masked(s, KHI_MASK)), x, y, z) == (Fips202.Bit(Fips202.Chi(s), x, y, z) != MASK[x + 5 * y])
  {
    hide KhiState, KhiRow, Masked, Fips202.Chi, MASK, KHI_MASK, LaneRow, RowLane, MaskedRow, ChiBit, Lane;
    var b := LaneRow(s, y);
    KhiLane(Masked(s, KHI_MASK), x, y);
    LaneRowMasked(s, KHI_MASK, y);
    KhiRowBit(y, b, x, z);
    ChiBitIsChi(s, x, y, z);
    RowLaneIs(s, x, y);
    RowLaneIs(s, (x + 1) % 5, y);
    RowLaneIs(s, (x + 2) % 5, y);
  }

  // KHI on the complemented lanes is chi, and leaves the lanes of MASK complemented.
  lemma KhiMasked(s: State)
    ensures KhiState(Masked(s, KHI_MASK)) == Masked(Fips202.Chi(s), MASK)
  {
    hide Masked, MASK, KHI_MASK, Fips202.Chi, KhiState;
    var l, r := KhiState(Masked(s, KHI_MASK)), Masked(Fips202.Chi(s), MASK);
    forall x: nat, y: nat, z: nat | x < 5 && y < 5 && z < 64
      ensures Fips202.Bit(l, x, y, z) == Fips202.Bit(r, x, y, z)
    {
      KhiBit(s, x, y, z);
      MaskedBit(Fips202.Chi(s), MASK, x, y, z);
    }
    Fips202.SameBits(l, r);
  }

  // ---------- round constants ----------

  // The table of round constants of the source.
  function RC(ir: nat): nat
    requires ir < 24
  {
    if ir == 0 then 0x0000000000000001
    else if ir == 1 then 0x0000000000008082
    else if ir == 2 then 0x800000000000808A
    else if ir == 3 then 0x8000000080008000
    else if ir == 4 then 0x000000000000808B
    else if ir == 5 then 0x0000000080000001
    else if ir == 6 then 0x8000000080008081
    else if ir == 7 then 0x8000000000008009
    else if ir == 8 then 0x000000000000008A
    else if ir == 9 then 0x0000000000000088
    else if ir == 10 then 0x0000000080008009
    else if ir == 11 then 0x000000008000000A
    else if ir == 12 then 0x000000008000808B
    else if ir == 13 then 0x800000000000008B
    else if ir == 14 then 0x8000000000008089
    else if ir == 15 then 0x8000000000008003
    else if ir == 16 then 0x8000000000008002
    else if ir == 17 then 0x8000000000000080
    else if ir == 18 then 0x000000000000800A
    else if ir == 19 then 0x800000008000000A
    else if ir == 20 then 0x8000000080008081
    else if ir == 21 then 0x8000000000008080
    else if ir == 22 then 0x0000000080000001
    else 0x8000000080008008
  }

  function WordOf(n: nat): (w: Word)
    ensures forall z :: 0 <= z < 64 ==> w[z] == BitAt(n, z)
  {
    seq(64, z requires 0 <= z < 64 => BitAt(n, z))
  }

  // A number with bits at 0, 1, 3, 7, 15, 31 and 63 only.
  function Sparse(b0: bool, b1: bool, b2: bool, b3: bool, b4: bool, b5: bool, b6: bool): nat {
    Num(b0) + 2 * (Num(b1) + 4 * (Num(b2) + 16 * SparseFrom7(b3, b4, b5, b6)))
  }

  function SparseFrom7(b3: bool, b4: bool, b5: bool, b6: bool): nat {
    Num(b3) + 256 * (Num(b4) + 65536 * (Num(b5) + 4294967296 * Num(b6)))
  }

  lemma Powers()
    ensures Pow2(1) == 2 && Pow2(2) == 4 && Pow2(4) == 16 && Pow2(8) == 256 && Pow2(16) == 65536 && Pow2(32) == 4294967296
  {
    PowSum(8, 8);
    PowSum(16, 16);
  }

  lemma SparseFrom7Bit(b3: bool, b4: bool, b5: bool, b6: bool, z: nat)
    requires z < 57
    ensures BitAt(SparseFrom7(b3, b4, b5, b6), z)
            == if z == 0 then b3 else if z == 8 then b4 else if z == 24 then b5 else if z == 56 then b6 else false
  {
    Powers();
    hide BitAt, Pow2, Num;
    var n6 := Num(b6);
    var n5 := Num(b5) + 4294967296 * n6;
    var n4 := Num(b4) + 65536 * n5;
    BitHorner(b3, 8, n4, z);
    if z >= 8 { BitHorner(b4, 16, n5, z - 8); }
    if z >= 24 { BitHorner(b5, 32, n6, z - 24); }
    if z >= 56 { NumBit(b6, z - 56); }
  }

  lemma SparseBit(b0: bool, b1: bool, b2: bool, b3: bool, b4: bool, b5: bool, b6: bool, z: nat)
    requires z < 64
    ensures BitAt(Sparse(b0, b1, b2, b3, b4, b5, b6), z)
            == if z == 0 then b0 else if z == 1 then b1 else if z == 3 then b2 else if z == 7 then b3
               else if z == 15 then b4 else if z == 31 then b5 else if z == 63 then b6 else false
  {
    Powers();
    hide BitAt, Pow2, Num, SparseFrom7;
    var n3 := SparseFrom7(b3, b4, b5, b6);
    var n2 := Num(b2) + 16 * n3;
    var n1 := Num(b1) + 4 * n2;
    BitHorner(b0, 1, n1, z);
    if z >= 1 { BitHorner(b1, 2, n2, z - 1); }
    if z >= 3 { BitHorner(b2, 4, n3, z - 3); }
    if z >= 7 { SparseFrom7Bit(b3, b4, b5, b6, z - 7); }
  }

  lemma NumBit(b: bool, z: nat)
    ensures z == 0 ==> BitAt(Num(b), z) == b
  {
  }

  // The seven bits Algorithm 6 draws for round ir, as a number.
  function RcNumber(ir: nat): nat {
    Sparse(Fips202.Rc(7 * ir), Fips202.Rc(7 * ir + 1), Fips202.Rc(7 * ir + 2), Fips202.Rc(7 * ir + 3), Fips202.Rc(7 * ir + 4),
           Fips202.Rc(7 * ir + 5), Fips202.Rc(7 * ir + 6))
  }

  lemma RcNumberBits(ir: nat, z: nat)
    requires z < 64
    ensures WordOf(RcNumber(ir))[z] == Fips202.RoundConstantBit(ir, z)
  {
    hide BitAt, Fips202.Rc;
    SparseBit(Fips202.Rc(7 * ir), Fips202.Rc(7 * ir + 1), Fips202.Rc(7 * ir + 2), Fips202.Rc(7 * ir + 3),
              Fips202.Rc(7 * ir + 4), Fips202.Rc(7 * ir + 5), Fips202.Rc(7 * ir + 6), z);
  }

  // One step of the register, and what seven steps give.
  function Shifted(r: Fips202.Register): Fips202.Register {
    Fips202.R(r.r7, r.r0, r.r1, r.r2, r.r3 != r.r7, r.r4 != r.r7, r.r5 != r.r7, r.r6)
  }

  function Drawn(r: Fips202.Register): nat {
    var s1 := Shifted(r);
    var s2 := Shifted(s1);
    var s3 := Shifted(s2);
    var s4 := Shifted(s3);
    var s5 := Shifted(s4);
    var s6 := Shifted(s5);
    Sparse(r.r0, s1.r0, s2.r0, s3.r0, s4.r0, s5.r0, s6.r0)
  }

  function Shifted7(r: Fips202.Register): Fips202.Register {
    Shifted(Shifted(Shifted(Shifted(Shifted(Shifted(Shifted(r)))))))
  }

  lemma LfsrNext(t: nat)
    ensures Fips202.Lfsr(t + 1) == Shifted(Fips202.Lfsr(t))
  {
  }

  lemma RcIs(t: nat)
    requires t < 255
    ensures Fips202.Rc(t) == Fips202.Lfsr(t).r0
  {
    assert t % 255 == t;
  }

  lemma LfsrRow(ir: nat, r: Fips202.Register)
    requires ir < 24 && Fips202.Lfsr(7 * ir) == r
    ensures RcNumber(ir) == Drawn(r) && Fips202.Lfsr(7 * (ir + 1)) == Shifted7(r)
  {
    hide Shifted, Fips202.Lfsr, Fips202.Rc, Sparse;
    LfsrNext(7 * ir);
    LfsrNext(7 * ir + 1);
    LfsrNext(7 * ir + 2);
    LfsrNext(7 * ir + 3);
    LfsrNext(7 * ir + 4);
    LfsrNext(7 * ir + 5);
    LfsrNext(7 * ir + 6);
    RcIs(7 * ir);
    RcIs(7 * ir + 1);
    RcIs(7 * ir + 2);
    RcIs(7 * ir + 3);
    RcIs(7 * ir + 4);
    RcIs(7 * ir + 5);
    RcIs(7 * ir + 6);
  }

  // The register at the start of round ir.
  function RegAt(ir: nat): Fips202.Register {
    if ir == 0 then Fips202.R(true, false, false, false, false, false, false, false)
    else if ir == 1 then Fips202.R(false, false, false, false, false, false, false, true)
    else if ir == 2 then Fips202.R(false, false, false, true, true, false, true, true)
    else if ir == 3 then Fips202.R(false, true, false, true, true, false, false, false)
    else if ir == 4 then Fips202.R(true, true, true, true, true, false, true, true)
    else if ir == 5 then Fips202.R(true, false, false, true, false, false, false, false)
    else if ir == 6 then Fips202.R(true, false, true, false, true, true, false, false)
    else if ir == 7 then Fips202.R(true, true, true, true, false, false, true, false)
    else if ir == 8 then Fips202.R(false, true, false, true, false, false, true, true)
    else if ir == 9 then Fips202.R(false, false, false, false, true, true, true, false)
    else if ir == 10 then Fips202.R(true, false, false, false, false, false, true, false)
    else if ir == 11 then Fips202.R(false, false, true, true, false, true, true, true)
    else if ir == 12 then Fips202.R(true, false, true, false, true, false, true, true)
    else if ir == 13 then Fips202.R(true, false, true, true, false, false, true, true)
    else if ir == 14 then Fips202.R(true, true, false, false, false, true, true, false)
    else if ir == 15 then Fips202.R(true, true, false, true, false, true, false, true)
    else if ir == 16 then Fips202.R(false, true, false, true, false, true, false, true)
    else if ir == 17 then Fips202.R(false, true, false, true, false, true, false, false)
    else if ir == 18 then Fips202.R(false, true, false, false, true, true, true, true)
    else if ir == 19 then Fips202.R(false, false, false, true, false, true, true, true)
    else if ir == 20 then Fips202.R(true, true, true, false, true, true, false, false)
    else if ir == 21 then Fips202.R(false, true, true, true, true, true, false, false)
    else if ir == 22 then Fips202.R(true, true, false, true, false, false, false, false)
    else if ir == 23 then Fips202.R(false, false, true, false, false, false, true, false)
    else Fips202.R(false, true, true, true, false, false, false, true)
  }

  // Seven steps at once, and the bits drawn on the way.
  function Leap(r: Fips202.Register): Fips202.Register {
    Fips202.R((r.r1 != r.r3) != r.r4, (r.r2 != r.r4) != r.r5, (r.r3 != r.r5) != r.r6, (r.r4 != r.r6) != r.r7,
              (((r.r1 != r.r3) != r.r4) != r.r5) != r.r7, (((r.r1 != r.r2) != r.r3) != r.r5) != r.r6,
              ((r.r1 != r.r2) != r.r6) != r.r7, ((r.r0 != r.r2) != r.r3) != r.r7)
  }

  function LeapDraw(r: Fips202.Register): nat {
    Sparse(r.r0, r.r7, r.r6, r.r5 != r.r7, (r.r4 != r.r6) != r.r7, (r.r3 != r.r5) != r.r6, (r.r2 != r.r4) != r.r5)
  }

  lemma LeapIs(r: Fips202.Register)
    ensures Shifted7(r) == Leap(r)
  {
  }

  lemma LeapDrawIs(r: Fips202.Register)
    ensures Drawn(r) == LeapDraw(r)
  {
  }

  lemma LeapDraws(ir: nat)
    requires ir < 24
    ensures LeapDraw(RegAt(ir)) == RC(ir)
  {
    assert ir == 0 || ir == 1 || ir == 2 || ir == 3 || ir == 4 || ir == 5 || ir == 6 || ir == 7
           || ir == 8 || ir == 9 || ir == 10 || ir == 11 || ir == 12 || ir == 13 || ir == 14 || ir == 15
           || ir == 16 || ir == 17 || ir == 18 || ir == 19 || ir == 20 || ir == 21 || ir == 22 || ir == 23;
  }

  lemma Leaps(ir: nat)
    requires ir < 24
    ensures Leap(RegAt(ir)) == RegAt(ir + 1)
  {
    assert ir == 0 || ir == 1 || ir == 2 || ir == 3 || ir == 4 || ir == 5 || ir == 6 || ir == 7
           || ir == 8 || ir == 9 || ir == 10 || ir == 11 || ir == 12 || ir == 13 || ir == 14 || ir == 15
           || ir == 16 || ir == 17 || ir == 18 || ir == 19 || ir == 20 || ir == 21 || ir == 22 || ir == 23;
  }

  // Round ir draws the constant in the table of the source.
  lemma RoundDraws(ir: nat)
    requires ir < 24
    ensures Drawn(RegAt(ir)) == RC(ir) && Shifted7(RegAt(ir)) == RegAt(ir + 1)
  {
    hide Leap, LeapDraw, Drawn, Shifted7, RegAt, RC;
    LeapIs(RegAt(ir));
    LeapDrawIs(RegAt(ir));
    LeapDraws(ir);
    Leaps(ir);
  }

  lemma {:induction false} LfsrAt(ir: nat)
    requires ir <= 24
    ensures Fips202.Lfsr(7 * ir) == RegAt(ir)
  {
    hide Shifted7, Drawn, RC, RcNumber;
    if ir == 0 {
    } else {
      LfsrAt(ir - 1);
      LfsrRow(ir - 1, RegAt(ir - 1));
      RoundDraws(ir - 1);
    }
  }

  // The table of the source holds the constants of Algorithm 6.
  lemma RcTable(ir: nat)
    requires ir < 24
    ensures RcNumber(ir) == RC(ir)
  {
    hide Shifted7, Drawn, RC, RcNumber, Fips202.Lfsr, RegAt;
    LfsrAt(ir);
    LfsrRow(ir, RegAt(ir));
    RoundDraws(ir);
  }

  // ---------- iota and the whole round ----------

  // IOTA
  method Iota(a: array<Word>, ir: nat)
    requires a.Length == 25 && ir < 24
    modifies a
    ensures a[..] == old(a[..])[a00 := Xor(old(a[a00]), WordOf(RC(ir)))]
  {
    a[a00] := Xor(a[a00], WordOf(RC(ir)));
  }

  lemma IotaIsIota(w: State, s: State, p: seq<nat>, ir: nat)
    requires Naming(p) && p[0] == a00 && ir < 24
    requires View(w, p) == Masked(s, MASK)
    ensures View(w[a00 := Xor(w[a00], WordOf(RC(ir)))], p) == Masked(Fips202.Iota(s, ir), MASK)
  {
    hide Masked, RC, RcNumber, Fips202.RoundConstantBit, BitAt, Xor;
    var w1: State := w[a00 := Xor(w[a00], WordOf(RC(ir)))];
    var l, r := View(w1, p), Masked(Fips202.Iota(s, ir), MASK);
    RcTable(ir);
    forall x: nat, y: nat, z: nat | x < 5 && y < 5 && z < 64
      ensures Fips202.Bit(l, x, y, z) == Fips202.Bit(r, x, y, z)
    {
      RcNumberBits(ir, z);
      MaskedBit(s, MASK, x, y, z);
      MaskedBit(Fips202.Iota(s, ir), MASK, x, y, z);
      assert Lane(l, x, y) == w1[p[5 * x + y]];
      assert Lane(View(w, p), x, y) == w[p[5 * x + y]];
      NotMasked();
    }
    Fips202.SameBits(l, r);
  }

  lemma NotMasked()
    ensures !MASK[0]
  {
  }

  // KF_ELT, given the argument lists before and after the renaming: one round.
  method KfElt(a: array<Word>, p: seq<nat>, q: seq<nat>, ir: nat, ghost s: State)
    requires a.Length == 25 && ir < 24 && Naming(p) && Naming(q) && q == Renamed(p) && q[0] == a00
    requires View(a[..], p) == Masked(s, MASK)
    modifies a
    ensures View(a[..], q) == Masked(Fips202.Rnd(s, ir), MASK)
  {
    hide Naming, Renamed, Masked, MASK, Fips202.Theta, Fips202.Rho, Fips202.Pi, Fips202.Chi, Fips202.Iota, Xor, Rol, RC,
         WordOf, View, KhiRow, RowOf, Args, ThetaWord, KhiState;
    NamingRange(p);
    NamingRange(q);
    ghost var w0 := a[..];
    Theta(a, p);
    ghost var w1 := a[..];
    ThetaIsTheta(w0, w1, p);
    ThetaMasked(s);
    Rho(a, p);
    ghost var w2 := a[..];
    RhoStep(w1, w2, p);
    RhoMasked(Fips202.Theta(s), THETA_MASK);
    RenamingIsPi(w2, p);
    PiMasked(Fips202.Rho(Fips202.Theta(s)));
    Khi(a, q);
    ghost var w3 := a[..];
    KhiIsKhi(w2, w3, q);
    KhiMasked(Fips202.Pi(Fips202.Rho(Fips202.Theta(s))));
    Iota(a, ir);
    IotaIsIota(w3, Fips202.Chi(Fips202.Pi(Fips202.Rho(Fips202.Theta(s)))), q, ir);
  }

  // Eight rounds, each in its own naming.
  method EightRounds(a: array<Word>, j: nat, ghost s: State)
    requires a.Length == 25 && j + 8 <= 24
    requires Naming(P0) && Naming(P8) && View(a[..], P0) == Masked(Fips202.Rounds(s, j), MASK)
    modifies a
    ensures View(a[..], P8) == Masked(Fips202.Rounds(s, j + 8), MASK)
  {
    hide Naming, Renamed, Masked, MASK, Fips202.Rnd, Fips202.Rounds, View, P0, P1, P2, P3, P4, P5, P6, P7, P8;
    AllNamings();
    NamingsRename();
    FirstSlot();
    KfElt(a, P0, P1, j, Fips202.Rounds(s, j));
    RoundsNext(s, j);
    KfElt(a, P1, P2, j + 1, Fips202.Rounds(s, j + 1));
    RoundsNext(s, j + 1);
    KfElt(a, P2, P3, j + 2, Fips202.Rounds(s, j + 2));
    RoundsNext(s, j + 2);
    KfElt(a, P3, P4, j + 3, Fips202.Rounds(s, j + 3));
    RoundsNext(s, j + 3);
    KfElt(a, P4, P5, j + 4, Fips202.Rounds(s, j + 4));
    RoundsNext(s, j + 4);
    KfElt(a, P5, P6, j + 5, Fips202.Rounds(s, j + 5));
    RoundsNext(s, j + 5);
    KfElt(a, P6, P7, j + 6, Fips202.Rounds(s, j + 6));
    RoundsNext(s, j + 6);
    KfElt(a, P7, P8, j + 7, Fips202.Rounds(s, j + 7));
    RoundsNext(s, j + 7);
  }

  lemma RoundsNext(s: State, n: nat)
    ensures Fips202.Rounds(s, n + 1) == Fips202.Rnd(Fips202.Rounds(s, n), n)
  {
  }

  // IOTA always meets the same slot.
  lemma FirstSlot()
    ensures P1[0] == a00 && P2[0] == a00 && P3[0] == a00 && P4[0] == a00
    ensures P5[0] == a00 && P6[0] == a00 && P7[0] == a00 && P8[0] == a00
  {
  }

  lemma P8At(x: nat, y: nat)
    requires x < 5 && y < 5
    ensures P8[5 * x + y] == SlotFor(x, y)
  {
    assert x == 0 || x == 1 || x == 2 || x == 3 || x == 4;
    assert y == 0 || y == 1 || y == 2 || y == 3 || y == 4;
  }

  // Where P8_TO_P0 takes lane (x, y) from.
  function SlotFor(x: nat, y: nat): nat
    requires x < 5 && y < 5
  {
    if x == 0 then (if y == 0 then a00 else if y == 1 then a11 else if y == 2 then a22 else if y == 3 then a33 else a44)
    else if x == 1 then (if y == 0 then a32 else if y == 1 then a43 else if y == 2 then a04 else if y == 3 then a10 else a21)
    else if x == 2 then (if y == 0 then a14 else if y == 1 then a20 else if y == 2 then a31 else if y == 3 then a42 else a03)
    else if x == 3 then (if y == 0 then a41 else if y == 1 then a02 else if y == 2 then a13 else if y == 3 then a24 else a30)
    else (if y == 0 then a23 else if y == 1 then a34 else if y == 2 then a40 else if y == 3 then a01 else a12)
  }

  // P8_TO_P0 brings the state back to the order of the source.
  method Restore(a: array<Word>)
    requires a.Length == 25 && Naming(P8)
    modifies a
    ensures a[..] == View(old(a[..]), P8)
  {
    hide Naming, View, P8;
    NamingRange(P8);
    P8ToP0(a);
    ghost var s := View(old(a[..]), P8);
    forall x: nat, y: nat | x < 5 && y < 5
      ensures Lane(a[..], x, y) == Lane(s, x, y)
    {
      P8At(x, y);
      assert a[x + 5 * y] == old(a[SlotFor(x, y)]) by {
        assert x == 0 || x == 1 || x == 2 || x == 3 || x == 4;
        assert y == 0 || y == 1 || y == 2 || y == 3 || y == 4;
      }
      assert Lane(s, x, y) == old(a[..])[P8[5 * x + y]];
    }
    SameLanes(a[..], s);
  }

  // KECCAK_F_1600: on a state with its six lanes complemented, KECCAK-f[1600] with the same lanes complemented.
  method KeccakF1600(a: array<Word>)
    requires a.Length == 25
    modifies a
    ensures a[..] == Masked(Fips202.KeccakF(Masked(old(a[..]), MASK)), MASK)
  {
    hide Naming, Masked, MASK, Fips202.Rounds, View, P0, P8;
    AllNamings();
    ghost var s := Masked(a[..], MASK);
    MaskTwice(a[..], MASK);
    NoRounds(s);
    var j := 0;
    while j < 24
      invariant j % 8 == 0 && j <= 24
      invariant a[..] == Masked(Fips202.Rounds(s, j), MASK)
    {
      SourceOrder(a[..]);
      EightRounds(a, j, s);
      Restore(a);
      j := j + 8;
    }
  }

  lemma NoRounds(s: State)
    ensures Fips202.Rounds(s, 0) == s
  {
  }
}
