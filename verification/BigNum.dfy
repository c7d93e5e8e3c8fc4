/** CBigNum: integers to and from sign-magnitude bytes, 64-bit words and the compact form of a target.

    A BIGNUM is an integer. The byte stream OpenSSL reads and writes is big endian, its most significant
    bit is the sign, and it has a zero byte in front when that bit belongs to the magnitude. */
module BigNum {
  import opened Bytes
  import opened Numbers
  import opened Radix

  const TWO_64 := 0x1_0000_0000_0000_0000
  const TWO_63 := 0x8000_0000_0000_0000
  const TWO_32 := 0x1_0000_0000

  function Abs(n: int): nat { if n < 0 then -n else n }

  // ---------- sign and magnitude, least significant byte first ----------

  function Last(s: seq<Byte>): Byte
    requires s != []
  {
    s[|s| - 1]
  }

  function WithLast(s: seq<Byte>, b: Byte): seq<Byte>
    requires s != []
  {
    s[|s| - 1 := b]
  }

  function SignedValue(v: seq<Byte>): int {
    if v == [] then 0
    else if Last(v) >= 0x80 then -(Value(256, WithLast(v, Last(v) - 0x80)) as int)
    else Value(256, v)
  }

  // The bytes of a magnitude with room for a sign bit.
  function Roomy(m: nat): (v: seq<Byte>)
    ensures v == [] <==> m == 0
    ensures v != [] ==> Last(v) < 0x80
  {
    var d := MinimalBytes(m);
    if d != [] && Last(d) >= 0x80 then d + [0] else d
  }

  function MinimalBytes(m: nat): (d: seq<Byte>)
    ensures d == Minimal(256, m)
  {
    Minimal(256, m)
  }

  function SignedBytes(n: int): seq<Byte> {
    var v := Roomy(Abs(n));
    if n < 0 then WithLast(v, Last(v) + 0x80) else v
  }

  // No shorter bytes stand for the same number.
  ghost predicate Canonical(v: seq<Byte>) {
    v == [] || Last(v) % 0x80 != 0 || (|v| >= 2 && v[|v| - 2] >= 0x80)
  }

  lemma ValueOfRoomy(m: nat)
    ensures Value(256, Roomy(m)) == m
  {
    ValueOfMinimal(256, m);
    var d := MinimalBytes(m);
    ValueTrailing(256, d, 1);
    assert d + Zeros(1) == d + [0];
  }

  lemma RoomyCanonical(m: nat)
    ensures Canonical(Roomy(m))
  {
    var d := MinimalBytes(m);
    if d != [] && Last(d) >= 0x80 {
      assert Roomy(m)[|d| - 1] == Last(d);
    }
  }

  // getvch, then setvch.
  lemma BytesRoundTrip(n: int)
    ensures SignedValue(SignedBytes(n)) == n && Canonical(SignedBytes(n))
  {
    var v := Roomy(Abs(n));
    ValueOfRoomy(Abs(n));
    RoomyCanonical(Abs(n));
    if n < 0 {
      assert WithLast(WithLast(v, Last(v) + 0x80), Last(v)) == v;
    }
  }

  lemma RoomyOfValue(v: seq<Byte>)
    requires Canonical(v) && (v != [] ==> Last(v) < 0x80)
    ensures Roomy(Value(256, v)) == v
  {
    hide Value, Minimal;
    var d := MinimalBytes(Value(256, v));
    MinimalOfValue(256, v);
    var z := |v| - |d|;
    if v != [] {
      if z == 1 {
        assert Last(v) == 0;
        assert v[|v| - 2] == d[|d| - 1];
        assert v == d + [0];
      } else if z == 0 {
        assert v == d;
      }
    }
  }

  lemma CanonicalMagnitude(v: seq<Byte>)
    requires Canonical(v) && v != [] && Last(v) >= 0x80
    ensures Canonical(WithLast(v, Last(v) - 0x80)) && Value(256, WithLast(v, Last(v) - 0x80)) > 0
  {
    var w := WithLast(v, Last(v) - 0x80);
    assert |v| >= 2 ==> w[|v| - 2] == v[|v| - 2];
    RoomyOfValue(w);
    assert Roomy(Value(256, w)) != [];
  }

  lemma NegativeRoundTrip(v: seq<Byte>)
    requires Canonical(v) && v != [] && Last(v) >= 0x80
    ensures SignedBytes(SignedValue(v)) == v
  {
    hide Value, Minimal, Roomy, Canonical;
    var w := WithLast(v, Last(v) - 0x80);
    CanonicalMagnitude(v);
    RoomyOfValue(w);
    assert WithLast(w, Last(v)) == v;
  }

  // setvch, then getvch, gives the bytes back exactly when they were the shortest.
  lemma ValueRoundTrip(v: seq<Byte>)
    ensures SignedBytes(SignedValue(v)) == v <==> Canonical(v)
  {
    if !Canonical(v) {
      BytesRoundTrip(SignedValue(v));
    } else if v != [] && Last(v) >= 0x80 {
      NegativeRoundTrip(v);
    } else {
      RoomyOfValue(v);
    }
  }

  // BN_mpi2bn and BN_bn2mpi, the size in front left away.
  function FromMpi(be: seq<Byte>): int { SignedValue(Reverse(be)) }

  function ToMpi(n: int): seq<Byte> { Reverse(SignedBytes(n)) }

  // ---------- 64-bit words ----------

  // The digits of m, most significant first.
  ghost function BigEndian(be: seq<Byte>): nat { Value(256, Reverse(be)) }

  function Signed(negative: bool, m: nat): int { if negative then 0 - m else m }

  lemma BigEndianPush(be: seq<Byte>, c: Byte)
    ensures BigEndian(be + [c]) == 256 * BigEndian(be) + c
  {
    assert Reverse(be + [c]) == [c] + Reverse(be);
    ValueCons(256, c, Reverse(be));
  }

  lemma BigEndianSign(be: seq<Byte>, negative: bool)
    requires be != [] ==> be[0] < 0x80
    requires be == [] ==> !negative
    ensures FromMpi(if negative then be[0 := be[0] + 0x80] else be) == Signed(negative, BigEndian(be))
  {
    var r := Reverse(be);
    if negative {
      var s := Reverse(be[0 := be[0] + 0x80]);
      assert Last(s) == be[0] + 0x80;
      assert WithLast(s, be[0]) == r;
    } else if be != [] {
      assert Last(r) == be[0];
    }
  }

  lemma BigEndianNothing()
    ensures BigEndian([]) == 0
  {
  }

  lemma PowersOf256()
    ensures Pow(256, 0) == 1 && Pow(256, 1) == 256 && Pow(256, 7) == 0x100_0000_0000_0000 && Pow(256, 8) == TWO_64
  {
    assert Pow(256, 2) == 65536;
    PowSum(256, 2, 2);
    PowSum(256, 4, 2);
    PowSum(256, 6, 1);
    PowSum(256, 7, 1);
  }

  // The top byte of a word that has been shifted left by i bytes.
  lemma TopByte(lo: nat, i: nat)
    requires i < 8 && lo < Pow(256, 8 - i)
    ensures var n, a := lo * Pow(256, i), Pow(256, 7 - i);
            && a > 0 && n < TWO_64
            && n / 0x100_0000_0000_0000 == lo / a < 256
            && n * 256 % TWO_64 == (lo % a) * Pow(256, i + 1) && lo % a < a
  {
    hide Pow;
    PowersOf256();
    PowPositive(256, 7 - i);
    PowPositive(256, i);
    PowSum(256, 7 - i, i);
    PowStep(256, 7 - i);
    PowStep(256, i);
    TopOf(lo, Pow(256, 7 - i), Pow(256, i));
  }

  lemma TopOf(lo: nat, a: nat, p: nat)
    requires a > 0 && p > 0 && a * p == 0x100_0000_0000_0000 && lo < 256 * a
    ensures lo * p < TWO_64 && lo * p / 0x100_0000_0000_0000 == lo / a < 256
    ensures lo * p * 256 % TWO_64 == (lo % a) * (256 * p) && lo % a < a
  {
    var c, r := lo / a, lo % a;
    assert lo == a * c + r;
    Split(a, p, c, r, lo);
    DigitBelow(a, c, r, 256);
    Wraps(c, r * p, 0x100_0000_0000_0000);
    Swap(r, p);
  }

  lemma Swap(r: nat, p: nat)
    ensures r * (256 * p) == (r * p) * 256
  {
  }

  lemma Split(a: nat, p: nat, c: nat, r: nat, lo: nat)
    requires lo == a * c + r && r < a && p > 0
    ensures lo * p == (a * p) * c + r * p && r * p < a * p
  {
    MulMono(p, r + 1, a);
    assert (a * c) * p == (a * p) * c;
    assert lo * p == (a * c) * p + r * p;
  }

  lemma DigitBelow(a: nat, c: nat, r: nat, k: nat)
    requires a * c + r < k * a
    ensures c < k
  {
    if c >= k {
      MulMono(a, k, c);
    }
  }

  lemma Wraps(c: nat, l: nat, top: nat)
    requires c < 256 && l < top && top == 0x100_0000_0000_0000
    ensures (top * c + l) / top == c && top * c + l < 256 * top
    ensures (top * c + l) * 256 % (256 * top) == l * 256
  {
  }

  // After i steps: hi is what the top i bytes of word say, lo the rest, n the word shifted left.
  ghost predicate Stepped(word: nat, i: nat, hi: nat, lo: nat, n: nat)
    requires i <= 8
  {
    lo < Pow(256, 8 - i) && n == lo * Pow(256, i) && word == hi * Pow(256, 8 - i) + lo
  }

  lemma SteppedEnds(word: nat)
    requires word < TWO_64
    ensures Stepped(word, 0, 0, word, word)
    ensures forall hi: nat, lo: nat, n: nat :: Stepped(word, 8, hi, lo, n) ==> hi == word
  {
    PowersOf256();
  }

  lemma SteppedNext(word: nat, i: nat, hi: nat, lo: nat, n: nat)
    requires i < 8 && Stepped(word, i, hi, lo, n)
    ensures var a := Pow(256, 7 - i);
            && a > 0 && n / 0x100_0000_0000_0000 == lo / a < 256
            && Stepped(word, i + 1, 256 * hi + lo / a, lo % a, n * 256 % TWO_64)
  {
    hide Pow;
    TopByte(lo, i);
    PowStep(256, 7 - i);
    NextHi(hi, lo, Pow(256, 7 - i));
  }

  lemma NextHi(hi: nat, lo: nat, a: nat)
    requires a > 0
    ensures hi * (256 * a) + lo == (256 * hi + lo / a) * a + lo % a
  {
    assert lo == a * (lo / a) + lo % a;
    assert (256 * hi + lo / a) * a == 256 * hi * a + (lo / a) * a;
  }

  // The loop of setint64 and setuint64: the bytes of a word from the top, without leading zeros, with the sign.
  method WordBytes(word: nat, fNegative: bool) returns (p: seq<Byte>)
    requires word < TWO_64 && (fNegative ==> word != 0)
    ensures FromMpi(p) == Signed(fNegative, word)
  {
    hide Pow, FromMpi, BigEndian, Stepped;
    ghost var hi: nat, lo: nat, be: seq<Byte> := 0, word, [];
    SteppedEnds(word);
    BigEndianNothing();
    var n: nat := word;
    p := [];
    var fLeadingZeroes := true;
    for i := 0 to 8
      invariant Stepped(word, i, hi, lo, n)
      invariant BigEndian(be) == hi && (fLeadingZeroes ==> be == []) && (fLeadingZeroes <==> hi == 0)
      invariant be != [] ==> be[0] < 0x80
      invariant p == if fNegative && be != [] then be[0 := be[0] + 0x80] else be
    {
      SteppedNext(word, i, hi, lo, n);
      var c: Byte := n / 0x100_0000_0000_0000 % 0x100;
      n := n * 256 % TWO_64;
      hi, lo := 256 * hi + c, lo % Pow(256, 7 - i);
      if fLeadingZeroes {
        if c == 0 {
          continue;
        }
        Pushes(c);
        be := if c >= 0x80 then [0, c] else [c];
        if c >= 0x80 {
          p := p + [if fNegative then 0x80 else 0];
        } else if fNegative {
          c := c + 0x80;
        }
        fLeadingZeroes := false;
      } else {
        BigEndianPush(be, c);
        be := be + [c];
      }
      p := p + [c];
    }
    BigEndianSign(be, fNegative && be != []);
  }

  lemma Pushes(c: Byte)
    ensures BigEndian([c]) == BigEndian([0, c]) == c
  {
    BigEndianNothing();
    BigEndianPush([], c);
    BigEndianPush([], 0);
    BigEndianPush([0], c);
    assert [] + [c] == [c] && [] + [0] == [0] && [0] + [c] == [0, c];
  }

  lemma {:induction false} ValueBound(d: seq<Byte>)
    ensures Value(256, d) < Pow(256, |d|)
  {
    if d != [] {
      ValueBound(d[1..]);
    }
  }

  lemma LowBytes(le: seq<Byte>, i: nat)
    requires i <= |le| && (i == 8 || i == |le| < 8)
    ensures Value(256, le[..i]) == Value(256, le) % TWO_64
  {
    hide Pow, Value;
    PowersOf256();
    ValueBound(le[..i]);
    PowMono(256, i, 8);
    ValueAppend(256, le[..i], le[i..]);
    assert le[..i] + le[i..] == le;
    if i == 8 {
      DivUnique(Value(256, le), TWO_64, Value(256, le[i..]), Value(256, le[..i]));
    } else {
      assert le[..i] == le;
    }
  }

  lemma {:induction false} PowMono(b: nat, j: nat, k: nat)
    requires b > 0 && j <= k
    ensures Pow(b, j) <= Pow(b, k)
  {
    if j < k {
      PowMono(b, j, k - 1);
      PowPositive(b, k - 1);
      MulMono(Pow(b, k - 1), 1, b);
    }
  }

  lemma ValueNext(le: seq<Byte>, i: nat)
    requires i < |le|
    ensures Value(256, le[..i + 1]) == Value(256, le[..i]) + Pow(256, i) * le[i]
  {
    ValueAppend(256, le[..i], [le[i]]);
    assert le[..i + 1] == le[..i] + [le[i]];
    assert Value(256, [le[i]]) == le[i];
  }

  // ---------- the compact form ----------

  const MANTISSA := 0x100_0000
  const SIGN := 0x80_0000

  // A size, a sign and a 23-bit word: the word times 256 to the size - 3, rounded down.
  function Expanded(c: nat): int {
    Signed(c / SIGN % 2 == 1, Scaled(c % SIGN, c / MANTISSA))
  }

  function Scaled(word: nat, size: nat): nat { word * Pow(256, size) / MANTISSA }

  // How many bytes a magnitude and its sign bit take, and its leading 23 bits.
  function Size(m: nat): nat { |Roomy(m)| }

  function Mantissa(m: nat, size: nat): nat {
    PowPositive(256, size);
    m * MANTISSA / Pow(256, size)
  }

  // What GetCompact gives: the size is cut to the eight bits there are for it.
  function Compacted(n: int): nat {
    var size := Size(Abs(n));
    size % 0x100 * MANTISSA + (if n < 0 then SIGN else 0) + Mantissa(Abs(n), size)
  }

  lemma TopOfMinimal(m: nat)
    requires m > 0
    ensures var d := MinimalBytes(m);
            Last(d) >= 0x80 <==> m >= 0x80 * Pow(256, |d| - 1)
  {
    hide Pow, Value;
    var d := MinimalBytes(m);
    var k := |d| - 1;
    ValueOfMinimal(256, m);
    ValueNext(d, k);
    ValueBound(d[..k]);
    assert d[..k + 1] == d;
    TopCompare(Value(256, d[..k]), Pow(256, k), d[k]);
  }

  lemma TopCompare(l: nat, p: nat, top: nat)
    requires l < p
    ensures top >= 0x80 <==> l + p * top >= 0x80 * p
  {
    if top >= 0x80 {
      MulMono(p, 0x80, top);
    } else {
      MulMono(p, top, 0x7F);
    }
  }

  lemma SizeBounds(m: nat)
    requires m > 0
    ensures Size(m) >= 1 && m < 0x80 * Pow(256, Size(m) - 1)
    ensures Size(m) >= 2 ==> m >= 0x80 * Pow(256, Size(m) - 2)
  {
    hide Pow, Minimal;
    MinimalLength(256, m);
    TopOfMinimal(m);
    var k := |MinimalBytes(m)|;
    PowStep(256, k - 1);
    if k >= 2 {
      PowStep(256, k - 2);
    }
  }

  lemma SizeLeast(m: nat, s: nat)
    requires s >= 1 && m < 0x80 * Pow(256, s - 1)
    ensures Size(m) <= s
  {
    hide Pow;
    if m > 0 {
      SizeBounds(m);
      if Size(m) > s {
        PowMono(256, s - 1, Size(m) - 2);
      }
    }
  }

  lemma SizeMono(a: nat, b: nat)
    requires a <= b
    ensures Size(a) <= Size(b)
  {
    hide Pow;
    if b > 0 {
      SizeBounds(b);
      SizeLeast(a, Size(b));
    }
  }

  lemma DivMono(x: nat, y: nat, d: nat)
    requires d > 0 && x <= y
    ensures x / d <= y / d
  {
    assert x == d * (x / d) + x % d && y == d * (y / d) + y % d;
    MulBound(d, x / d - y / d);
    assert d * (x / d - y / d) == d * (x / d) - d * (y / d);
    if d == 1 {
      assert x / d == x && y / d == y;
    }
  }

  lemma DivExact(x: nat, d: nat)
    requires d > 0
    ensures x * d / d == x
  {
    DivUnique(x * d, d, x, 0);
  }

  // (x * d) / (y * d) == x / y
  lemma DivCancel(x: nat, y: nat, d: nat)
    requires d > 0 && y > 0
    ensures y * d > 0 && (x * d) / (y * d) == x / y
  {
    var q, r := x / y, x % y;
    ScaleUp(x, y, q, r, d);
    DivUnique(x * d, y * d, q, r * d);
  }

  lemma ScaleUp(x: nat, y: nat, q: nat, r: nat, d: nat)
    requires x == y * q + r && r < y && d > 0
    ensures x * d == (y * d) * q + r * d && r * d < y * d
  {
    assert (y * q + r) * d == (y * q) * d + r * d;
    assert (y * q) * d == (y * d) * q;
    assert y * d - r * d == (y - r) * d;
    MulMono(d, 1, y - r);
  }

  lemma DivAtLeast(x: nat, p: nat, k: nat)
    requires p > 0
    ensures x / p >= k <==> x >= k * p
  {
    assert x == p * (x / p) + x % p;
    if x / p >= k {
      MulMono(p, k, x / p);
    } else {
      MulMono(p, x / p + 1, k);
      assert p * (x / p + 1) == p * (x / p) + p;
    }
  }

  lemma MantissaAtLeast(m: nat, size: nat, k: nat)
    ensures Mantissa(m, size) >= k <==> m * MANTISSA >= k * Pow(256, size)
  {
    hide Pow;
    PowPositive(256, size);
    DivAtLeast(m * MANTISSA, Pow(256, size), k);
  }

  lemma MantissaLarge(m: nat, size: nat)
    requires size >= 3
    ensures Pow(256, size - 3) > 0 && Mantissa(m, size) == m / Pow(256, size - 3)
  {
    hide Pow;
    PowPositive(256, size - 3);
    PowSum(256, size - 3, 3);
    ThreeBytes();
    DivCancel(m, Pow(256, size - 3), MANTISSA);
  }

  lemma ThreeBytes()
    ensures Pow(256, 0) == 1 && Pow(256, 1) == 0x100 && Pow(256, 2) == 0x1_0000 && Pow(256, 3) == MANTISSA
  {
  }

  lemma MantissaSmall(m: nat, size: nat)
    requires size <= 3
    ensures Mantissa(m, size) == m * Pow(256, 3 - size)
  {
    hide Pow;
    PowPositive(256, size);
    PowSum(256, size, 3 - size);
    ThreeBytes();
    assert m * MANTISSA == (m * Pow(256, 3 - size)) * Pow(256, size);
    DivExact(m * Pow(256, 3 - size), Pow(256, size));
  }

  // The word always leaves the sign bit free.
  lemma MantissaBound(m: nat)
    ensures Mantissa(m, Size(m)) < SIGN
  {
    hide Pow, Mantissa, Size;
    var s := Size(m);
    MantissaAtLeast(m, s, SIGN);
    PowPositive(256, s);
    if m > 0 {
      SizeBounds(m);
      PowStep(256, s - 1);
    }
  }

  // Expanding what was compacted keeps the leading bits of the magnitude.
  function Kept(m: nat): nat {
    var s := Size(m);
    if s <= 3 then m
    else
      PowPositive(256, s - 3);
      Floor(m, Pow(256, s - 3))
  }

  lemma Fields(size: nat, sign: nat, word: nat)
    requires word < SIGN && sign < 2
    ensures var c := size * MANTISSA + sign * SIGN + word;
            c / MANTISSA == size && c / SIGN % 2 == sign && c % SIGN == word
  {
    var c := size * MANTISSA + sign * SIGN + word;
    assert c / SIGN == 2 * size + sign;
  }

  lemma ExpandedParts(size: nat, negative: bool, word: nat)
    requires word < SIGN
    ensures Expanded(size * MANTISSA + (if negative then SIGN else 0) + word) == Signed(negative, Scaled(word, size))
  {
    hide Pow, Scaled;
    Fields(size, if negative then 1 else 0, word);
  }

  lemma ScaledLarge(word: nat, size: nat)
    requires size >= 3
    ensures Scaled(word, size) == word * Pow(256, size - 3)
  {
    hide Pow;
    ThreeBytes();
    PowSum(256, size - 3, 3);
    assert word * (Pow(256, size - 3) * MANTISSA) == (word * Pow(256, size - 3)) * MANTISSA;
    DivExact(word * Pow(256, size - 3), MANTISSA);
  }

  lemma ScaledSmall(word: nat, size: nat)
    requires size <= 3
    ensures Pow(256, 3 - size) > 0 && Scaled(word, size) == word / Pow(256, 3 - size)
  {
    hide Pow;
    ThreeBytes();
    PowPositive(256, size);
    PowPositive(256, 3 - size);
    PowSum(256, 3 - size, size);
    DivCancel(word, Pow(256, 3 - size), Pow(256, size));
  }

  lemma ExpandedCompacted(n: int)
    requires Size(Abs(n)) < 0x100
    ensures Expanded(Compacted(n)) == Signed(n < 0, Kept(Abs(n)))
  {
    hide Pow, Expanded, Mantissa, Size, Scaled;
    var m := Abs(n);
    var s := Size(m);
    MantissaBound(m);
    ExpandedParts(s, n < 0, Mantissa(m, s));
    if s <= 3 {
      ScaledSmall(Mantissa(m, s), s);
      MantissaSmall(m, s);
      DivExact(m, Pow(256, 3 - s));
    } else {
      ScaledLarge(Mantissa(m, s), s);
      MantissaLarge(m, s);
    }
  }

  lemma ExpandedMagnitude(c: nat)
    ensures Abs(Expanded(c)) == Scaled(c % SIGN, c / MANTISSA)
  {
  }

  // A second trip through the compact form changes nothing.
  lemma CompactIdempotent(c: nat)
    requires c < TWO_32
    ensures Expanded(Compacted(Expanded(c))) == Expanded(c)
  {
    hide Pow, Expanded, Mantissa, Size, Compacted, Scaled, Floor;
    var n, size, word := Expanded(c), c / MANTISSA, c % SIGN;
    var m := Abs(n);
    ExpandedMagnitude(c);
    ScaledFits(word, size);
    ExpandedCompacted(n);
    var s := Size(m);
    if s > 3 {
      ScaledLarge(word, size);
      PowPositive(256, s - 3);
      PowSum(256, s - 3, size - s);
      FloorExact(word, Pow(256, s - 3), Pow(256, size - s));
    }
  }

  lemma FloorExact(word: nat, p: nat, q: nat)
    requires p > 0
    ensures Floor(word * (p * q), p) == word * (p * q)
  {
    assert word * (p * q) == (word * q) * p;
    DivExact(word * q, p);
  }

  lemma ScaledFits(word: nat, size: nat)
    requires word < SIGN
    ensures Size(Scaled(word, size)) <= size
  {
    hide Pow, Size, Scaled;
    var m := Scaled(word, size);
    ThreeBytes();
    if size > 3 {
      ScaledLarge(word, size);
      FitsLarge(word, size);
      SizeLeast(m, size);
    } else {
      ScaledSmall(word, size);
      var a := Pow(256, 3 - size);
      assert word == a * m + word % a;
      if size == 0 {
        DigitBelow(a, m, word % a, 1);
        NoBytes();
      } else {
        PowSum(256, 3 - size, size - 1);
        FitsSmall(a, Pow(256, size - 1), m, word);
        SizeLeast(m, size);
      }
    }
  }

  lemma FitsLarge(word: nat, size: nat)
    requires word < SIGN && size >= 3
    ensures word * Pow(256, size - 3) < 0x80 * Pow(256, size - 1)
  {
    hide Pow;
    PowStep(256, size - 3);
    PowStep(256, size - 2);
    PowPositive(256, size - 3);
    MulMono(Pow(256, size - 3), word, SIGN - 1);
  }

  lemma FitsSmall(a: nat, p: nat, m: nat, word: nat)
    requires a > 0 && a * p == 0x1_0000 && word < SIGN && a * m <= word
    ensures m < 0x80 * p
  {
    assert a * (0x80 * p) == SIGN;
    DigitBelow(a, m, 0, 0x80 * p);
  }

  lemma NoBytes()
    ensures Size(0) == 0
  {
  }

  // On targets, larger numbers have larger compact forms.
  lemma CompactMonotone(a: nat, b: nat)
    requires a <= b < 0x80 * Pow(256, 254)
    ensures Compacted(a) <= Compacted(b)
  {
    hide Pow, Mantissa, Size;
    SizeMono(a, b);
    SizeLeast(b, 255);
    MantissaBound(a);
    MantissaBound(b);
    if Size(a) == Size(b) {
      MantissaMono(a, b, Size(a));
    }
  }

  lemma MantissaMono(a: nat, b: nat, s: nat)
    requires a <= b
    ensures Mantissa(a, s) <= Mantissa(b, s)
  {
    PowPositive(256, s);
    DivMono(a * MANTISSA, b * MANTISSA, Pow(256, s));
  }

  lemma KeptAccurate(m: nat)
    requires m > 0
    ensures Kept(m) <= m && (m - Kept(m)) * 0x8000 < m
  {
    hide Pow, Size, Floor;
    var s := Size(m);
    if s > 3 {
      SizeBounds(m);
      PowPositive(256, s - 3);
      PowStep(256, s - 3);
    }
  }

  // The compact form loses less than one part in 2 to the 15, rounding down, exactly up to the
  // numbers whose size still fits eight bits.
  lemma CompactAccurate(n: nat)
    requires n > 0
    ensures (Expanded(Compacted(n)) <= n && (n - Expanded(Compacted(n))) * 0x8000 < n) <==> n < 0x80 * Pow(256, 254)
  {
    hide Pow, Size, Mantissa, Expanded, Compacted;
    if n < 0x80 * Pow(256, 254) {
      SizeLeast(n, 255);
      ExpandedCompacted(n);
      KeptAccurate(n);
    } else {
      SizeBounds(n);
      if Size(n) <= 255 {
        PowMono(256, Size(n) - 1, 254);
      }
      TooLarge(n);
    }
  }

  lemma TooLarge(n: nat)
    requires n > 0 && Size(n) >= 256
    ensures 0 <= 2 * Expanded(Compacted(n)) <= n
  {
    hide Pow, Size, Mantissa, Expanded, Scaled;
    var s := Size(n);
    var word, t := Mantissa(n, s), s % 0x100;
    MantissaBound(n);
    ExpandedParts(t, false, word);
    SizeBounds(n);
    ThreeBytes();
    var x := Scaled(word, t);
    if t == 0 {
      ScaledSmall(word, 0);
      assert x == 0;
    } else {
      PowPositive(256, 254);
      ScaledFits(word, t);
      SizeAtMost(x, t);
      PowMono(256, 255, s - 2);
      PowStep(256, 254);
    }
  }

  lemma SizeAtMost(x: nat, t: nat)
    requires Size(x) <= t <= 255
    ensures x < 0x80 * Pow(256, 254)
  {
    hide Pow, Size;
    PowPositive(256, 254);
    if x > 0 {
      SizeBounds(x);
      PowMono(256, Size(x) - 1, 254);
    }
  }

  // Without the sign bit the bytes are those of the magnitude.
  lemma Unsigned(n: int)
    ensures var vch := ToMpi(n);
            Reverse(Roomy(Abs(n))) == if |vch| > 0 then vch[0 := vch[0] % 0x80] else vch
  {
    hide Minimal;
  }

  class CBigNum {
    var bn: int

    constructor ()
      ensures bn == 0
    {
      bn := 0;
    }

    method SetInt64(sn: int)
      requires -TWO_63 <= sn < TWO_63
      modifies this
      ensures bn == sn
    {
      var n, fNegative;
      if sn < 0 {
        n := -(sn + 1);
        n := n + 1;
        fNegative := true;
      } else {
        n := sn;
        fNegative := false;
      }
      var pch := WordBytes(n, fNegative);
      bn := FromMpi(pch);
    }

    method SetUint64(n: nat)
      requires n < TWO_64
      modifies this
      ensures bn == n
    {
      var pch := WordBytes(n, false);
      bn := FromMpi(pch);
    }

    // The low 64 bits of the magnitude.
    method GetUint64() returns (n: nat)
      ensures n == Abs(bn) % TWO_64
    {
      hide Pow, Value, Roomy, ToMpi;
      ghost var le := Roomy(Abs(bn));
      ValueOfRoomy(Abs(bn));
      var vch := ToMpi(bn);
      Unsigned(bn);
      if |vch| > 0 {
        vch := vch[0 := vch[0] % 0x80];
      }
      n := 0;
      ValueNothing(256);
      var i, j := 0, |vch| - 1;
      while i < 8 && j >= 0
        invariant 0 <= i <= 8 && j == |vch| - 1 - i && j >= -1
        invariant n == Value(256, le[..i])
      {
        ValueNext(le, i);
        n := n + Pow(256, i) * vch[j];
        i, j := i + 1, j - 1;
      }
      LowBytes(le, i);
    }

    method SetVch(vch: seq<Byte>)
      modifies this
      ensures bn == SignedValue(vch)
    {
      ReverseTwice(vch);
      bn := FromMpi(Reverse(vch));
    }

    method GetVch() returns (vch: seq<Byte>)
      ensures vch == SignedBytes(bn)
    {
      ReverseTwice(SignedBytes(bn));
      vch := Reverse(ToMpi(bn));
    }

    method SetCompact(nCompact: nat)
      requires nCompact < TWO_32
      modifies this
      ensures bn == Expanded(nCompact)
    {
      hide Pow, Scaled;
      var nSize := nCompact / MANTISSA;
      var fNegative := nCompact / SIGN % 2 == 1;
      var nWord := nCompact % SIGN;
      if nSize <= 3 {
        ScaledSmall(nWord, nSize);
        nWord := nWord / Pow(256, 3 - nSize);
        bn := nWord;
      } else {
        ScaledLarge(nWord, nSize);
        bn := nWord;
        bn := bn * Pow(256, nSize - 3);
      }
      // BN_set_negative
      bn := Signed(fNegative, Abs(bn));
    }

    // The leading three of nSize bytes.
    method LeadingWord(nSize: nat) returns (nCompact: nat)
      requires nSize == |MinimalBytes(Abs(bn))|
      ensures nCompact == Mantissa(Abs(bn), nSize)
    {
      hide Pow, Mantissa;
      if nSize <= 3 {
        MantissaSmall(Abs(bn), nSize);
        nCompact := Abs(bn) * Pow(256, 3 - nSize);
      } else {
        MantissaLarge(Abs(bn), nSize);
        nCompact := Abs(bn) / Pow(256, nSize - 3);
      }
    }

    method GetCompact() returns (nCompact: nat)
      ensures nCompact == Compacted(bn)
    {
      hide Pow, Mantissa, Size;
      // BN_num_bytes
      var nSize := |MinimalBytes(Abs(bn))|;
      CompactWord(Abs(bn), nSize);
      nCompact := LeadingWord(nSize);
      // The sign bit must be free.
      if nCompact / SIGN % 2 == 1 {
        nCompact := nCompact / 0x100;
        nSize := nSize + 1;
      }
      SizeField(nSize);
      nCompact := nCompact + nSize * MANTISSA % TWO_32;
      nCompact := nCompact + (if bn < 0 then SIGN else 0);
    }
  }

  lemma SizeField(size: nat)
    ensures size * MANTISSA % TWO_32 == size % 0x100 * MANTISSA
  {
  }

  lemma CompactWord(m: nat, k: nat)
    requires k == |MinimalBytes(m)|
    ensures Size(m) == k + (if Mantissa(m, k) / SIGN % 2 == 1 then 1 else 0)
    ensures Mantissa(m, k + 1) == Mantissa(m, k) / 0x100
  {
    hide Pow, Mantissa, Minimal;
    MantissaNext(m, k);
    MantissaAtLeast(m, k, SIGN);
    MantissaAtLeast(m, k, MANTISSA);
    PowPositive(256, k);
    if m > 0 {
      MinimalLength(256, m);
      TopOfMinimal(m);
      PowStep(256, k - 1);
    }
    TopBitSet(Mantissa(m, k));
  }

  lemma TopBitSet(w: nat)
    requires w < MANTISSA
    ensures w / SIGN % 2 == 1 <==> w >= SIGN
  {
  }

  lemma MantissaNext(m: nat, k: nat)
    ensures Mantissa(m, k + 1) == Mantissa(m, k) / 0x100
  {
    hide Pow;
    PowPositive(256, k);
    PowStep(256, k);
    DivTwice(m * MANTISSA, Pow(256, k), 0x100);
  }

  lemma DivTwice(x: nat, a: nat, b: nat)
    requires a > 0 && b > 0
    ensures b * a > 0 && x / (b * a) == x / a / b
  {
    DivTwiceParts(x, a, b, x / a, x % a, x / a / b, x / a % b);
  }

  lemma DivTwiceParts(x: nat, a: nat, b: nat, q: nat, r: nat, u: nat, v: nat)
    requires a > 0 && b > 0 && x == a * q + r && r < a && q == b * u + v && v < b
    ensures b * a > 0 && x / (b * a) == u
  {
    Regroup(x, a, b, u, v, r);
    DivUnique(x, b * a, u, a * v + r);
  }

  lemma Regroup(x: nat, a: nat, b: nat, u: nat, v: nat, r: nat)
    requires a > 0 && b > 0 && x == a * (b * u + v) + r && r < a && v < b
    ensures 0 <= a * v + r < b * a && x == (b * a) * u + (a * v + r)
  {
    MulMono(a, v + 1, b);
    MulMono(a, 0, v);
    assert a * (v + 1) == a * v + a;
    assert a * (b * u + v) == (b * a) * u + a * v;
  }
}
