/** BLAKE-28 and BLAKE-32 of blake.c: buffering, padding and the bit counter, over an abstract compression function. */
module Blake {
  import opened BitOps
  import opened Bytes

  // The chaining value of eight words.
  type Chain = h: seq<nat> | |h| == 8 && forall k :: 0 <= k < 8 ==> h[k] < 0x1_0000_0000 witness seq(8, _ => 0)

  // The compression function, given the chaining value, the bits of a block and the counter words T0 and T1.
  type Compress = (Chain, seq<bool>, nat, nat) -> Chain

  const TWO_32 := 0x1_0000_0000
  const TWO_64 := 0x1_0000_0000_0000_0000

  // ---------- the specification ----------

  // The bits of a byte string, each byte from its bit 7 down.
  function Bits(m: seq<Byte>): (r: seq<bool>)
    ensures |r| == 8 * |m|
    ensures forall k :: 0 <= k < 8 * |m| ==> r[k] == BitAt(m[k / 8], 7 - k % 8)
  {
    BitsOf(m, true)
  }

  function Length64(l: nat): (r: seq<bool>)
    ensures |r| == 64 && forall k :: 0 <= k < 64 ==> r[k] == BitAt(l, 63 - k)
  {
    seq(64, k requires 0 <= k < 64 => BitAt(l, 63 - k))
  }

  // Section 2.1.3: a 1, zeros up to 447 modulo 512, a 1 for BLAKE-32 or a 0 for BLAKE-28, and the length.
  function Padded(n: seq<bool>, full: bool): (p: seq<bool>)
    ensures |p| % 512 == 0 && |p| >= |n| + 66 && p[..|n|] == n
  {
    n + [true] + seq((446 - |n|) % 512, _ => false) + [full] + Length64(|n|)
  }

  // The counter of block i of a message of l bits: the message bits hashed so far, or 0 if the block has none.
  function Counter(i: nat, l: nat): nat {
    if 512 * i >= l then 0 else if 512 * (i + 1) <= l then 512 * (i + 1) else l
  }

  function CompressAt(c: Compress, h: Chain, block: seq<bool>, t: nat): Chain {
    c(h, block, t % TWO_32, t / TWO_32)
  }

  // The chaining value after k blocks of p.
  function Chained(c: Compress, iv: Chain, p: seq<bool>, l: nat, k: nat): Chain
    requires 512 * k <= |p|
  {
    if k == 0 then iv
    else CompressAt(c, Chained(c, iv, p, l, k - 1), p[512 * (k - 1)..512 * k], Counter(k - 1, l))
  }

  // The hash of the bits n, without the final cut.
  function Hashed(c: Compress, iv: Chain, n: seq<bool>, full: bool): Chain {
    Chained(c, iv, Padded(n, full), |n|, |Padded(n, full)| / 512)
  }

  // ---------- what the block loop does ----------

  // The whole blocks of s, each with the counter 512 further.
  function Run(c: Compress, h: Chain, t: nat, s: seq<Byte>): Chain
    decreases |s|
  {
    if |s| < 64 then h
    else Run(c, CompressAt(c, h, Bits(s[..64]), (t + 512) % TWO_64), (t + 512) % TWO_64, s[64..])
  }

  lemma RunStep(c: Compress, h: Chain, t: nat, block: seq<Byte>, rest: seq<Byte>)
    requires |block| == 64
    ensures Run(c, h, t, block + rest)
            == Run(c, CompressAt(c, h, Bits(block), (t + 512) % TWO_64), (t + 512) % TWO_64, rest)
  {
    assert (block + rest)[..64] == block && (block + rest)[64..] == rest;
  }

  lemma RunShort(c: Compress, h: Chain, t: nat, s: seq<Byte>)
    requires |s| < 64
    ensures Run(c, h, t, s) == h
  {
  }

  // Whole blocks first, then the rest.
  lemma {:induction false} RunAppend(c: Compress, h: Chain, t: nat, a: seq<Byte>, b: seq<Byte>)
    requires |a| % 64 == 0 && t < TWO_64
    ensures Run(c, h, t, a + b) == Run(c, Run(c, h, t, a), (t + 8 * |a|) % TWO_64, b)
    decreases |a|
  {
    hide Run;
    if a == [] {
      assert a + b == b;
      RunShort(c, h, t, a);
    } else {
      var block, rest := a[..64], a[64..];
      var t' := (t + 512) % TWO_64;
      assert a == block + rest && a + b == block + (rest + b);
      RunStep(c, h, t, block, rest);
      RunStep(c, h, t, block, rest + b);
      RunAppend(c, CompressAt(c, h, Bits(block), t'), t', rest, b);
      ModSum(t + 512, 8 * |rest|);
    }
  }

  // Bytes that do not fill a block change nothing.
  lemma RunWhole(c: Compress, h: Chain, t: nat, s: seq<Byte>)
    requires t < TWO_64
    ensures Run(c, h, t, s) == Run(c, h, t, s[..|s| / 64 * 64])
  {
    hide Run;
    var q := |s| / 64 * 64;
    assert s == s[..q] + s[q..];
    RunAppend(c, h, t, s[..q], s[q..]);
    RunShort(c, Run(c, h, t, s[..q]), (t + 8 * q) % TWO_64, s[q..]);
  }

  // ---------- padding, byte by byte ----------

  lemma BitsAppend(a: seq<Byte>, b: seq<Byte>)
    ensures Bits(a + b) == Bits(a) + Bits(b)
  {
    BitsOfAppend(a, b, true);
  }

  // The n extra bits, from bit 7 of ub down.
  function Extra(ub: nat, n: nat): (r: seq<bool>)
    requires n <= 7
    ensures |r| == n && forall k :: 0 <= k < n ==> r[k] == BitAt(ub % 256, 7 - k)
  {
    seq(n, k requires 0 <= k < n => BitAt(ub % 256, 7 - k))
  }

  // ((ub & -z) | z) & 0xFF for z = 0x80 >> n
  function FirstByte(ub: nat, n: nat): Byte
    requires n <= 7
  {
    ByteParts(ub % 256, n);
    ub % 256 / Pow2(8 - n) * Pow2(8 - n) + Pow2(7 - n)
  }

  lemma FirstByteBit(ub: nat, n: nat, k: nat)
    requires n <= 7 && k < 8
    ensures BitAt(FirstByte(ub, n), 7 - k) == if k < n then Extra(ub, n)[k] else k == n
  {
    hide BitAt, Pow2;
    var u, p := ub % 256, Pow2(8 - n);
    ByteParts(u, n);
    SplitBit(u / p, Pow2(7 - n), 8 - n, 7 - k);
    SplitBit(u / p, u % p, 8 - n, 7 - k);
    BitShiftedBit(true, 7 - n, 7 - k);
  }

  lemma ByteParts(u: nat, n: nat)
    requires u < 256 && n <= 7
    ensures var p := Pow2(8 - n);
            0 < Pow2(7 - n) < p && u == u / p * p + u % p && 0 <= u / p * p && u / p * p + Pow2(7 - n) < 256
  {
    hide Pow2;
    EightPowers();
    assert n == 0 || n == 1 || n == 2 || n == 3 || n == 4 || n == 5 || n == 6 || n == 7;
    FloorPart(u, Pow2(8 - n));
  }

  lemma FloorPart(u: nat, p: nat)
    requires u < 256 && (p == 2 || p == 4 || p == 8 || p == 16 || p == 32 || p == 64 || p == 128 || p == 256)
    ensures u == u / p * p + u % p && 0 <= u / p * p && u / p * p + p <= 256
  {
  }

  lemma EightPowers()
    ensures Pow2(0) == 1 && Pow2(1) == 2 && Pow2(2) == 4 && Pow2(3) == 8 && Pow2(4) == 16 && Pow2(5) == 32
    ensures Pow2(6) == 64 && Pow2(7) == 128 && Pow2(8) == 256
  {
  }

  // b | 1
  function WithBit0(b: Byte): Byte { b / 2 * 2 + 1 }

  lemma WithBit0Bit(b: Byte, k: nat)
    ensures BitAt(WithBit0(b), k) == (BitAt(b, k) || k == 0)
  {
    assert WithBit0(b) / 2 == b / 2;
  }

  // The last bytes before the length, when the buffer holds ptr bytes.
  function Head(ub: nat, n: nat, full: bool, ptr: nat): seq<Byte>
    requires n <= 7 && ptr < 64
  {
    var last: Byte := if full then 1 else 0;
    if 8 * ptr + n > 446 then [FirstByte(ub, n)] + seq(118 - ptr, _ => 0) + [last]
    else if ptr < 55 then [FirstByte(ub, n)] + seq(54 - ptr, _ => 0) + [last]
    else [if full then WithBit0(FirstByte(ub, n)) else FirstByte(ub, n)]
  }

  lemma ShortHead(ub: nat, n: nat, full: bool)
    requires n <= 6
    ensures var f := FirstByte(ub, n);
            Bits([if full then WithBit0(f) else f]) == Extra(ub, n) + [true] + seq(6 - n, _ => false) + [full]
  {
    hide BitAt, FirstByte, Extra, WithBit0;
    var f := FirstByte(ub, n);
    var h, r := [if full then WithBit0(f) else f], Extra(ub, n) + [true] + seq(6 - n, _ => false) + [full];
    forall k | 0 <= k < 8
      ensures Bits(h)[k] == r[k]
    {
      WithBit0Bit(f, 7 - k);
      FirstByteBit(ub, n, k);
    }
  }

  lemma LongHead(ub: nat, n: nat, full: bool, j: nat)
    requires n <= 7
    ensures Bits([FirstByte(ub, n)] + seq(j, _ => 0) + [if full then 1 else 0])
            == Extra(ub, n) + [true] + seq(8 * j + 14 - n, _ => false) + [full]
  {
    hide BitAt, FirstByte, Extra;
    var h: seq<Byte> := [FirstByte(ub, n)] + seq(j, _ => 0) + [if full then 1 else 0];
    var r := Extra(ub, n) + [true] + seq(8 * j + 14 - n, _ => false) + [full];
    forall k | 0 <= k < 8 * |h|
      ensures Bits(h)[k] == r[k]
    {
      if k < 8 {
        FirstByteBit(ub, n, k);
      } else if k < 8 * j + 8 {
        assert h[k / 8] == 0;
        ZeroBit(7 - k % 8);
      } else {
        LastByte(full, k - 8 * j - 8);
      }
    }
  }

  lemma HeadBits(ub: nat, n: nat, full: bool, ptr: nat)
    requires n <= 7 && ptr < 64
    ensures var z := (446 - (8 * ptr + n)) % 512;
            && 8 * |Head(ub, n, full, ptr)| == n + z + 2
            && Bits(Head(ub, n, full, ptr)) == Extra(ub, n) + [true] + seq(z, _ => false) + [full]
  {
    hide Bits, FirstByte, Extra, WithBit0;
    if 8 * ptr + n > 446 {
      LongHead(ub, n, full, 118 - ptr);
      ModIs(446 - (8 * ptr + n), 8 * (118 - ptr) + 14 - n);
    } else if ptr < 55 {
      LongHead(ub, n, full, 54 - ptr);
      ModIs(446 - (8 * ptr + n), 8 * (54 - ptr) + 14 - n);
    } else {
      ModIs(446 - (8 * ptr + n), 6 - n);
      ShortHead(ub, n, full);
    }
  }

  lemma ModIs(a: int, z: nat)
    requires z < 512 && (a == z || a == z - 512)
    ensures a % 512 == z
  {
  }

  lemma LastByte(full: bool, k: nat)
    requires k < 8
    ensures BitAt(if full then 1 else 0, 7 - k) == (full && k == 7)
  {
    ZeroBit(7 - k);
    OneBit(7 - k);
  }

  // sph_enc32be
  function Enc32(x: nat): (r: seq<Byte>)
    ensures |r| == 4
  {
    [x / 0x100_0000 % 256, x / 0x1_0000 % 256, x / 0x100 % 256, x % 256]
  }

  lemma ByteOfWord(x: nat, p: nat, m: nat, k: nat)
    requires k < 8 && p == Pow2(m) && p > 0
    ensures BitAt(x / p % 256, k) == BitAt(x, m + k)
  {
    hide BitAt, Pow2;
    assert x == x / p * p + x % p;
    SplitBit(x / p, x % p, m, m + k);
    var y := x / p;
    EightPowers();
    SplitBit(y / 256, y % 256, 8, k);
  }

  lemma {:induction false} Enc32Bit(x: nat, k: nat)
    requires k < 32
    ensures Bits(Enc32(x))[k] == BitAt(x, 31 - k)
  {
    hide BitAt, Pow2;
    EightPowers();
    PowSum(8, 8);
    PowSum(8, 16);
    var l := 7 - k % 8;
    if k < 8 {
      ByteOfWord(x, 0x100_0000, 24, l);
    } else if k < 16 {
      ByteOfWord(x, 0x1_0000, 16, l);
    } else if k < 24 {
      ByteOfWord(x, 0x100, 8, l);
    } else {
      ByteOfWord(x, 1, 0, l);
    }
  }

  lemma LengthBits(th: nat, tl: nat)
    requires tl < TWO_32
    ensures Bits(Enc32(th) + Enc32(tl)) == Length64(th * TWO_32 + tl)
  {
    hide BitAt, Pow2, Enc32;
    BitsAppend(Enc32(th), Enc32(tl));
    EightPowers();
    PowSum(8, 8);
    PowSum(16, 16);
    forall k | 0 <= k < 64
      ensures (Bits(Enc32(th)) + Bits(Enc32(tl)))[k] == Length64(th * TWO_32 + tl)[k]
    {
      SplitBit(th, tl, 32, 63 - k);
      if k < 32 {
        Enc32Bit(th, k);
      } else {
        Enc32Bit(tl, k - 32);
      }
    }
  }

  // The last bytes: the head and the length in two words.
  function Tail(ub: nat, n: nat, full: bool, ptr: nat, th: nat, tl: nat): seq<Byte>
    requires n <= 7 && ptr < 64
  {
    Head(ub, n, full, ptr) + (Enc32(th) + Enc32(tl))
  }

  lemma PaddedIsBytes(m: seq<Byte>, ub: nat, n: nat, full: bool, th: nat, tl: nat)
    requires n <= 7 && tl < TWO_32 && th * TWO_32 + tl == 8 * |m| + n
    ensures Padded(Bits(m) + Extra(ub, n), full) == Bits(m + Tail(ub, n, full, |m| % 64, th, tl))
  {
    hide Bits, Extra, Head, Enc32, Length64;
    var ptr, l := |m| % 64, 8 * |m| + n;
    HeadBits(ub, n, full, ptr);
    LengthBits(th, tl);
    BitsAppend(Head(ub, n, full, ptr), Enc32(th) + Enc32(tl));
    BitsAppend(m, Tail(ub, n, full, ptr, th, tl));
    SameZeros(|m|, n);
    Regroup(Bits(m), Extra(ub, n), [true] + seq((446 - l) % 512, _ => false) + [full], Length64(l));
    var z := (446 - l) % 512;
    assert Extra(ub, n) + ([true] + seq(z, _ => false) + [full]) == Extra(ub, n) + [true] + seq(z, _ => false) + [full];
    assert Bits(m) + Extra(ub, n) + ([true] + seq(z, _ => false) + [full])
           == Bits(m) + Extra(ub, n) + [true] + seq(z, _ => false) + [full];
  }

  lemma SameZeros(l: nat, n: nat)
    ensures (446 - (8 * l + n)) % 512 == (446 - (8 * (l % 64) + n)) % 512
  {
    assert 8 * l == 512 * (l / 64) + 8 * (l % 64);
  }

  lemma Regroup(a: seq<bool>, b: seq<bool>, c: seq<bool>, d: seq<bool>)
    ensures a + ((b + c) + d) == (a + b) + c + d
  {
  }

  lemma BitsSlice(w: seq<Byte>, i: nat, j: nat)
    requires i <= j <= |w|
    ensures Bits(w[i..j]) == Bits(w)[8 * i..8 * j]
  {
    hide Bits;
    assert w == w[..i] + (w[i..j] + w[j..]);
    BitsAppend(w[..i], w[i..j] + w[j..]);
    BitsAppend(w[i..j], w[j..]);
  }

  lemma ChainedStep(c: Compress, iv: Chain, w: seq<Byte>, l: nat, k: nat)
    requires 64 * (k + 1) <= |w|
    ensures Chained(c, iv, Bits(w), l, k + 1)
            == CompressAt(c, Chained(c, iv, Bits(w), l, k), Bits(w[64 * k..64 * k + 64]), Counter(k, l))
  {
    hide Bits, CompressAt;
    BitsSlice(w, 64 * k, 64 * k + 64);
  }

  // While a block is all message, the counter of the block loop is the one the specification wants.
  lemma {:induction false} ChainedRun(c: Compress, iv: Chain, w: seq<Byte>, l: nat, k: nat)
    requires 64 * k <= |w| && 512 * k <= l < TWO_64
    ensures Chained(c, iv, Bits(w), l, k) == Run(c, iv, 0, w[..64 * k])
  {
    hide Bits, CompressAt, Run;
    if k == 0 {
      RunShort(c, iv, 0, w[..0]);
    } else {
      var a, b := w[..64 * (k - 1)], w[64 * (k - 1)..64 * k];
      ChainedRun(c, iv, w, l, k - 1);
      ChainedStep(c, iv, w, l, k - 1);
      assert w[..64 * k] == a + b && b + [] == b;
      RunAppend(c, iv, 0, a, b);
      RunStep(c, Run(c, iv, 0, a), 512 * (k - 1), b, []);
      RunShort(c, CompressAt(c, Run(c, iv, 0, a), Bits(b), 512 * k), 512 * k, []);
    }
  }

  // One final block, or two.
  lemma FinalBlocks(c: Compress, iv: Chain, m: seq<Byte>, ub: nat, n: nat, full: bool, th: nat, tl: nat)
    requires n <= 7 && tl < TWO_32 && th * TWO_32 + tl == 8 * |m| + n < TWO_64
    ensures var ptr := |m| % 64;
            var last := m[|m| - ptr..] + Tail(ub, n, full, ptr, th, tl);
            var t := if 8 * ptr + n == 0 then 0 else 8 * |m| + n;
            && |last| == (if 8 * ptr + n <= 446 then 64 else 128)
            && var h := CompressAt(c, Run(c, iv, 0, m), Bits(last[..64]), t);
               Hashed(c, iv, Bits(m) + Extra(ub, n), full)
               == if 8 * ptr + n <= 446 then h else CompressAt(c, h, Bits(last[64..]), 0)
  {
    hide Bits, CompressAt, Run, Padded, Chained, Tail, Extra, Counter;
    var ptr, l := |m| % 64, 8 * |m| + n;
    var tail := Tail(ub, n, full, ptr, th, tl);
    var w, q := m + tail, |m| / 64;
    var last := m[|m| - ptr..] + tail;
    TailLength(ub, n, full, ptr, th, tl);
    PaddedIsBytes(m, ub, n, full, th, tl);
    LastCounters(|m|, n);
    ChainedRun(c, iv, w, l, q);
    RunWhole(c, iv, 0, m);
    Cut(m, tail, w, last, q);
    ChainedStep(c, iv, w, l, q);
    if 8 * ptr + n > 446 {
      ChainedStep(c, iv, w, l, q + 1);
    }
  }

  lemma TailLength(ub: nat, n: nat, full: bool, ptr: nat, th: nat, tl: nat)
    requires n <= 7 && ptr < 64
    ensures ptr + |Tail(ub, n, full, ptr, th, tl)| == if 8 * ptr + n <= 446 then 64 else 128
  {
    hide FirstByte, WithBit0, Enc32;
  }

  lemma LastCounters(m: nat, n: nat)
    requires n <= 7
    ensures var q, l, r := m / 64, 8 * m + n, 8 * (m % 64) + n;
            && 512 * q <= l && Counter(q, l) == (if r == 0 then 0 else l) && Counter(q + 1, l) == 0
  {
    assert m == 64 * (m / 64) + m % 64;
  }

  lemma Cut(m: seq<Byte>, tail: seq<Byte>, w: seq<Byte>, last: seq<Byte>, q: nat)
    requires w == m + tail && q == |m| / 64 && last == m[|m| - |m| % 64..] + tail && (|last| == 64 || |last| == 128)
    ensures 64 * q <= |m| && w[..64 * q] == m[..|m| / 64 * 64]
    ensures |w| == 64 * q + |last| && w[64 * q..64 * q + 64] == last[..64]
    ensures |last| == 128 ==> w[64 * (q + 1)..64 * (q + 1) + 64] == last[64..]
  {
    assert w[64 * q..] == last;
  }

  // ---------- the context ----------

  // Of s, `eaten` bytes have been compressed.
  ghost predicate Eaten(c: Compress, h0: Chain, t0: nat, s: seq<Byte>, eaten: nat, h: Chain, t: nat) {
    && eaten % 64 == 0 && eaten <= |s|
    && Run(c, h, t, s[eaten..]) == Run(c, h0, t0, s)
    && t == (t0 + 8 * eaten) % TWO_64
  }

  lemma EatenNothing(c: Compress, h: Chain, t: nat, s: seq<Byte>)
    requires t < TWO_64
    ensures Eaten(c, h, t, s, 0, h, t)
  {
    assert s[0..] == s;
  }

  lemma EatenNext(c: Compress, h0: Chain, t0: nat, s: seq<Byte>, eaten: nat, h: Chain, t: nat, block: seq<Byte>, rest: seq<Byte>)
    requires Eaten(c, h0, t0, s, eaten, h, t) && |block| == 64 && s[eaten..] == block + rest
    ensures rest == s[eaten + 64..]
    ensures Eaten(c, h0, t0, s, eaten + 64, CompressAt(c, h, Bits(block), (t + 512) % TWO_64), (t + 512) % TWO_64)
  {
    hide Run, CompressAt, Bits;
    assert s[eaten..][64..] == s[eaten + 64..];
    RunStep(c, h, t, block, rest);
  }

  lemma EatenAll(c: Compress, h0: Chain, t0: nat, s: seq<Byte>, eaten: nat, h: Chain, t: nat)
    requires Eaten(c, h0, t0, s, eaten, h, t) && |s| < eaten + 64
    ensures h == Run(c, h0, t0, s) && |s| - eaten == |s| % 64 && t == (t0 + 8 * eaten) % TWO_64
  {
    hide Run;
    RunShort(c, h, t, s[eaten..]);
    LastPart(|s|, eaten);
  }

  lemma LastPart(n: nat, eaten: nat)
    requires eaten % 64 == 0 && eaten <= n < eaten + 64
    ensures n - eaten == n % 64
  {
  }

  class SmallContext {
    const compress: Compress
    ghost const iv: Chain
    const buf: array<Byte>
    var ptr: nat
    var H: Chain
    var T0: nat
    var T1: nat

    ghost predicate Shape()
      reads this
    {
      buf.Length == 64 && ptr < 64 && T0 < TWO_32 && T1 < TWO_32
    }

    ghost function T(): nat
      reads this
    {
      T1 * TWO_32 + T0
    }

    // The context has been fed m since blake32_init.
    ghost predicate Fed(m: seq<Byte>)
      reads this, buf
    {
      && Shape()
      && ptr == |m| % 64 && buf[..ptr] == m[|m| - ptr..]
      && T() == 8 * (|m| - ptr) % TWO_64
      && H == Run(compress, iv, 0, m)
    }

    // blake32_init
    constructor (compress: Compress, iv: Chain)
      ensures Fed([]) && this.compress == compress && this.iv == iv && fresh(buf)
    {
      this.compress, this.iv := compress, iv;
      buf := new Byte[64](_ => 0);
      ptr := 0;
      H := iv;
      T0, T1 := 0, 0;
      new;
      RunShort(compress, iv, 0, []);
      assert buf[..0] == [];
    }

    // The counter goes up by 512, with carry; then the buffer is compressed.
    method CompressBuffer()
      requires buf.Length == 64 && T0 < TWO_32 && T1 < TWO_32
      modifies this`T0, this`T1, this`H
      ensures T0 < TWO_32 && T1 < TWO_32 && T() == (old(T()) + 512) % TWO_64
      ensures H == CompressAt(compress, old(H), Bits(buf[..]), T())
    {
      hide Bits;
      Carry(T0, T1);
      T0 := (T0 + 512) % TWO_32;
      if T0 < 512 {
        T1 := (T1 + 1) % TWO_32;
      }
      H := compress(H, Bits(buf[..]), T0, T1);
    }

    // clen more bytes go into the buffer, which is compressed when full.
    method Feed(p: nat, data: seq<Byte>, off: nat, clen: nat) returns (ptr': nat)
      requires buf.Length == 64 && T0 < TWO_32 && T1 < TWO_32 && p + clen <= 64 && off + clen <= |data|
      modifies this`T0, this`T1, this`H, buf
      ensures T0 < TWO_32 && T1 < TWO_32 && ptr' == if p + clen == 64 then 0 else p + clen
      ensures var b := old(buf[..p]) + data[off..off + clen];
              if p + clen == 64
              then H == CompressAt(compress, old(H), Bits(b), T()) && T() == (old(T()) + 512) % TWO_64
              else H == old(H) && T() == old(T()) && buf[..ptr'] == b
    {
      hide CompressAt, Bits;
      Copy(buf, p, data, off, clen);
      ptr' := p + clen;
      if ptr' == 64 {
        assert buf[..] == buf[..64];
        CompressBuffer();
        ptr' := 0;
      }
    }

    // blake32
    method Core(data: seq<Byte>)
      requires Shape()
      modifies this`ptr, this`T0, this`T1, this`H, buf
      ensures Shape()
      ensures var s := old(buf[..ptr]) + data;
              && H == Run(compress, old(H), old(T()), s) && ptr == |s| % 64
              && buf[..ptr] == s[|s| - ptr..] && T() == (old(T()) + 8 * (|s| - ptr)) % TWO_64
    {
      hide Run, CompressAt, Bits, Eaten;
      EatenNothing(compress, H, T(), buf[..ptr] + data);
      ghost var s := buf[..ptr] + data;
      var p: nat := ptr;
      var len := |data|;
      if len < 64 - p {
        Copy(buf, p, data, 0, len);
        assert data[0..len] == data;
        ptr := p + len;
        EatenAll(compress, H, T(), s, 0, H, T());
        assert s[|s| - ptr..] == s;
        return;
      }
      ghost var eaten: nat := 0;
      assert s[0..] == s;
      while len > 0
        invariant 0 <= len <= |data| && p < 64 && T0 < TWO_32 && T1 < TWO_32
        invariant eaten + p + len == |s| && buf[..p] + data[|data| - len..] == s[eaten..]
        invariant Eaten(compress, old(H), old(T()), s, eaten, H, T())
      {
        var off := |data| - len;
        var clen := 64 - p;
        if clen > len {
          clen := len;
        }
        ghost var block := buf[..p] + data[off..off + clen];
        Moved(buf[..p], data, off, clen, s[eaten..]);
        if p + clen == 64 {
          EatenNext(compress, old(H), old(T()), s, eaten, H, T(), block, data[off + clen..]);
          eaten := eaten + 64;
        }
        p := Feed(p, data, off, clen);
        len := len - clen;
      }
      ptr := p;
      assert data[|data|..] == [] && buf[..p] == s[eaten..];
      EatenAll(compress, old(H), old(T()), s, eaten, H, T());
    }

    // sph_blake224, sph_blake256
    method Update(data: seq<Byte>, ghost m: seq<Byte>)
      requires Fed(m)
      modifies this`ptr, this`T0, this`T1, this`H, buf
      ensures Fed(m + data)
    {
      hide Run;
      ghost var q: nat := |m| - ptr;
      ghost var rest := buf[..ptr];
      MoreFed(compress, iv, m, rest, data);
      Core(data);
      Suffix(m + data, m[..q], rest + data, ptr);
    }

    // Set the counter back so that the block loop brings it to the bits hashed, or to 0 when the block has none.
    method Rewind(bit_len: nat)
      requires Shape() && T0 % 512 == 0 && bit_len < 512
      modifies this`T0, this`T1
      ensures Shape() && (T() + 512) % TWO_64 == if bit_len == 0 then 0 else old(T()) + bit_len
    {
      if bit_len == 0 {
        T0 := 0xFFFF_FE00;
        T1 := 0xFFFF_FFFF;
      } else if T0 == 0 {
        T0 := 0xFFFF_FE00 + bit_len;
        T1 := (T1 + TWO_32 - 1) % TWO_32;
      } else {
        T0 := T0 - (512 - bit_len);
      }
    }

    // The length fits the block that holds the first padding byte.
    method CloseInOne(ub: nat, n: nat, out_size_w32: nat, th: nat, tl: nat)
      requires Shape() && n <= 7 && out_size_w32 in {7, 8} && 8 * ptr + n <= 446
      modifies this`ptr, this`T0, this`T1, this`H, buf
      ensures var last := old(buf[..ptr]) + Tail(ub, n, out_size_w32 == 8, old(ptr), th, tl);
              |last| == 64 && H == CompressAt(compress, old(H), Bits(last), (old(T()) + 512) % TWO_64)
    {
      hide Run, CompressAt, Bits, FirstByte, WithBit0, Enc32, Head;
      ghost var t, rest := T(), buf[..ptr];
      var u := [FirstByte(ub, n)] + seq(55 - ptr, _ => 0);
      if out_size_w32 == 8 {
        u := u[55 - ptr := WithBit0(u[55 - ptr])];
      }
      HeadInPlace(ub, n, out_size_w32 == 8, ptr, u);
      u := u + (Enc32(th) + Enc32(tl));
      OneBlock(compress, H, t, rest + u);
      Core(u);
    }

    // A block of padding only.
    method PaddingBlock(out_size_w32: nat, th: nat, tl: nat)
      requires Shape() && ptr == 0
      modifies this`ptr, this`T0, this`T1, this`H, buf
      ensures H == CompressAt(compress, old(H), Bits(PaddingOnly(out_size_w32 == 8, th, tl)), 0)
    {
      hide Run, CompressAt, Bits, Enc32;
      T0 := 0xFFFF_FE00;
      T1 := 0xFFFF_FFFF;
      var v := seq(55, _ => 0) + [if out_size_w32 == 8 then 1 else 0];
      v := v + (Enc32(th) + Enc32(tl));
      assert buf[..ptr] + v == v;
      OneBlock(compress, H, T(), v);
      Core(v);
    }

    // It goes into one more block.
    method CloseInTwo(ub: nat, n: nat, out_size_w32: nat, th: nat, tl: nat)
      requires Shape() && n <= 7 && out_size_w32 in {7, 8} && 8 * ptr + n > 446
      modifies this`ptr, this`T0, this`T1, this`H, buf
      ensures var last := old(buf[..ptr]) + Tail(ub, n, out_size_w32 == 8, old(ptr), th, tl);
              && |last| == 128
              && H == CompressAt(compress, CompressAt(compress, old(H), Bits(last[..64]), (old(T()) + 512) % TWO_64), Bits(last[64..]), 0)
    {
      hide Run, CompressAt, Bits, FirstByte, Tail, PaddingOnly;
      ghost var rest := buf[..ptr];
      var u := [FirstByte(ub, n)] + seq(63 - ptr, _ => 0);
      TwoBlocks(ub, n, out_size_w32 == 8, ptr, th, tl, rest, u);
      OneBlock(compress, H, T(), rest + u);
      Core(u);
      PaddingBlock(out_size_w32, th, tl);
    }

    // The final blocks, the first of them under counter t.
    method CloseBlocks(ub: nat, n: nat, out_size_w32: nat, th: nat, tl: nat, ghost t: nat)
      requires Shape() && n <= 7 && out_size_w32 in {7, 8} && t == (T() + 512) % TWO_64
      modifies this`ptr, this`T0, this`T1, this`H, buf
      ensures var last := old(buf[..ptr]) + Tail(ub, n, out_size_w32 == 8, old(ptr), th, tl);
              && |last| == (if 8 * old(ptr) + n <= 446 then 64 else 128)
              && var h := CompressAt(compress, old(H), Bits(last[..64]), t);
                 H == if 8 * old(ptr) + n <= 446 then h else CompressAt(compress, h, Bits(last[64..]), 0)
    {
      hide CompressAt, Bits, Tail;
      if 8 * ptr + n <= 446 {
        ghost var last := buf[..ptr] + Tail(ub, n, out_size_w32 == 8, ptr, th, tl);
        CloseInOne(ub, n, out_size_w32, th, tl);
        assert last[..64] == last;
      } else {
        CloseInTwo(ub, n, out_size_w32, th, tl);
      }
    }

    // blake32_close, for out_size_w32 of 7 or 8
    method Close(ub: nat, n: nat, out_size_w32: nat, ghost m: seq<Byte>) returns (dst: seq<Byte>)
      requires Fed(m) && n <= 7 && out_size_w32 in {7, 8} && 8 * |m| + n < TWO_64
      modifies this`ptr, this`T0, this`T1, this`H, buf
      ensures |dst| == 4 * out_size_w32
      ensures var h := Hashed(compress, iv, Bits(m) + Extra(ub, n), out_size_w32 == 8);
              forall i :: 0 <= i < 32 * out_size_w32 ==> Bits(dst)[i] == BitAt(h[i / 32], 31 - i % 32)
    {
      hide Run, CompressAt, Bits, Hashed, Extra, Tail, BitAt, Enc32;
      var bit_len := 8 * ptr + n;
      var tl := T0 + bit_len;
      var th := T1;
      CounterParts(|m|, ptr, T0, T1);
      FinalBlocks(compress, iv, m, ub, n, out_size_w32 == 8, th, tl);
      Rewind(bit_len);
      CloseBlocks(ub, n, out_size_w32, th, tl, if bit_len == 0 then 0 else 8 * |m| + n);
      ghost var h := H;
      dst := [];
      for k := 0 to out_size_w32
        invariant |dst| == 4 * k && H == h
        invariant forall i :: 0 <= i < 32 * k ==> Bits(dst)[i] == BitAt(h[i / 32], 31 - i % 32)
      {
        WordOut(dst, h, k);
        dst := dst + Enc32(H[k]);
      }
    }
  }

  // A word of the result, most significant byte first.
  lemma WordOut(dst: seq<Byte>, h: Chain, k: nat)
    requires k < 8 && |dst| == 4 * k && forall i :: 0 <= i < 32 * k ==> Bits(dst)[i] == BitAt(h[i / 32], 31 - i % 32)
    ensures var r := dst + Enc32(h[k]);
            |r| == 4 * (k + 1) && forall i :: 0 <= i < 32 * (k + 1) ==> Bits(r)[i] == BitAt(h[i / 32], 31 - i % 32)
  {
    hide Bits, BitAt, Enc32;
    var r := dst + Enc32(h[k]);
    BitsAppend(dst, Enc32(h[k]));
    forall i | 0 <= i < 32 * (k + 1)
      ensures Bits(r)[i] == BitAt(h[i / 32], 31 - i % 32)
    {
      if i >= 32 * k {
        Enc32Bit(h[k], i - 32 * k);
      }
    }
  }

  function PaddingOnly(full: bool, th: nat, tl: nat): (v: seq<Byte>)
    ensures |v| == 64
  {
    seq(55, _ => 0) + [if full then 1 else 0] + (Enc32(th) + Enc32(tl))
  }

  lemma TwoBlocks(ub: nat, n: nat, full: bool, ptr: nat, th: nat, tl: nat, rest: seq<Byte>, u: seq<Byte>)
    requires n <= 7 && |rest| == ptr < 64 && 8 * ptr + n > 446 && u == [FirstByte(ub, n)] + seq(63 - ptr, _ => 0)
    ensures var last := rest + Tail(ub, n, full, ptr, th, tl);
            |last| == 128 && last[..64] == rest + u && last[64..] == PaddingOnly(full, th, tl)
  {
    hide FirstByte, Enc32, Head;
    var v: seq<Byte> := seq(55, _ => 0) + [if full then 1 else 0];
    HeadInTwo(ub, n, full, ptr, u, v);
    Shift(rest, u, v, Enc32(th) + Enc32(tl));
  }

  lemma Shift(a: seq<Byte>, b: seq<Byte>, c: seq<Byte>, d: seq<Byte>)
    ensures var s := a + ((b + c) + d); s[..|a + b|] == a + b && s[|a + b|..] == c + d
  {
  }

  lemma OneBlock(c: Compress, h: Chain, t: nat, s: seq<Byte>)
    requires |s| == 64
    ensures Run(c, h, t, s) == CompressAt(c, h, Bits(s), (t + 512) % TWO_64)
  {
    assert s == s + [];
    RunStep(c, h, t, s, []);
  }

  lemma CounterParts(l: nat, ptr: nat, t0: nat, t1: nat)
    requires ptr == l % 64 && t0 < TWO_32 && t1 < TWO_32 && 8 * l < TWO_64
    requires t1 * TWO_32 + t0 == 8 * (l - ptr) % TWO_64
    ensures t0 % 512 == 0 && t1 * TWO_32 + t0 == 8 * (l - ptr) && t0 + 511 < TWO_32
  {
    assert l - ptr == 64 * (l / 64);
    assert t0 == 512 * (l / 64) - t1 * TWO_32;
  }

  lemma HeadInPlace(ub: nat, n: nat, full: bool, ptr: nat, u: seq<Byte>)
    requires n <= 7 && 8 * ptr + n <= 446 && ptr < 64
    requires var v: seq<Byte> := [FirstByte(ub, n)] + seq(55 - ptr, _ => 0);
             u == if full then v[55 - ptr := WithBit0(v[55 - ptr])] else v
    ensures u == Head(ub, n, full, ptr)
  {
    hide FirstByte;
  }

  lemma HeadInTwo(ub: nat, n: nat, full: bool, ptr: nat, u: seq<Byte>, v: seq<Byte>)
    requires n <= 7 && 8 * ptr + n > 446 && ptr < 64
    requires u == [FirstByte(ub, n)] + seq(63 - ptr, _ => 0) && v == seq(55, _ => 0) + [if full then 1 else 0]
    ensures u + v == Head(ub, n, full, ptr)
  {
    hide FirstByte;
  }

  lemma MoreFed(c: Compress, iv: Chain, m: seq<Byte>, rest: seq<Byte>, data: seq<Byte>)
    requires |rest| == |m| % 64 && rest == m[|m| - |rest|..]
    ensures var q, s := |m| - |rest|, rest + data;
            && Run(c, Run(c, iv, 0, m), 8 * q % TWO_64, s) == Run(c, iv, 0, m + data)
            && m + data == m[..q] + s && |s| % 64 == |m + data| % 64
            && |m + data| == q + |s|
            && (8 * q % TWO_64 + 8 * (|s| - |s| % 64)) % TWO_64 == 8 * (|m + data| - |s| % 64) % TWO_64
  {
    hide Run;
    var q, s := |m| - |rest|, rest + data;
    assert m == m[..q] + rest;
    assert m + data == m[..q] + s;
    RunWhole(c, iv, 0, m);
    WholeBlocks(|m|, q);
    RunAppend(c, iv, 0, m[..q], s);
    assert |m + data| == q + |s|;
    Counters(q, |s|);
  }

  lemma Suffix(whole: seq<Byte>, a: seq<Byte>, s: seq<Byte>, p: nat)
    requires whole == a + s && p <= |s|
    ensures whole[|whole| - p..] == s[|s| - p..]
  {
  }

  lemma WholeBlocks(l: nat, q: nat)
    requires q == l - l % 64
    ensures q == l / 64 * 64 && q % 64 == 0
  {
  }

  lemma Counters(q: nat, s: nat)
    requires q % 64 == 0
    ensures (q + s) % 64 == s % 64
    ensures (8 * q % TWO_64 + 8 * (s - s % 64)) % TWO_64 == 8 * (q + s - s % 64) % TWO_64
  {
    assert q == 64 * (q / 64) && s == 64 * (s / 64) + s % 64;
    Mod64(q / 64, s);
    ModSum(8 * q, 8 * (s - s % 64));
  }

  lemma Mod64(k: nat, s: nat)
    ensures (64 * k + s) % 64 == s % 64
  {
  }

  lemma ModSum(x: nat, y: nat)
    ensures (x % TWO_64 + y) % TWO_64 == (x + y) % TWO_64
  {
  }

  lemma Carry(t0: nat, t1: nat)
    requires t0 < TWO_32 && t1 < TWO_32
    ensures var n0 := (t0 + 512) % TWO_32;
            var n1 := if n0 < 512 then (t1 + 1) % TWO_32 else t1;
            n1 * TWO_32 + n0 == (t1 * TWO_32 + t0 + 512) % TWO_64
  {
    if t0 + 512 >= TWO_32 {
      assert (t0 + 512) % TWO_32 == t0 + 512 - TWO_32;
    }
  }

  lemma Moved(was: seq<Byte>, data: seq<Byte>, off: nat, clen: nat, s: seq<Byte>)
    requires off + clen <= |data| && was + data[off..] == s
    ensures was + data[off..off + clen] == s[..|was| + clen]
    ensures (was + data[off..off + clen]) + data[off + clen..] == s
  {
    assert data[off..] == data[off..off + clen] + data[off + clen..];
  }

  // A whole use: however the message is cut into calls, the result is the hash of its bits.
  method Hash(compress: Compress, iv: Chain, chunks: seq<seq<Byte>>, ub: nat, n: nat, out_size_w32: nat) returns (dst: seq<Byte>)
    requires n <= 7 && out_size_w32 in {7, 8} && 8 * |Concat(chunks)| + n < TWO_64
    ensures |dst| == 4 * out_size_w32
    ensures var h := Hashed(compress, iv, Bits(Concat(chunks)) + Extra(ub, n), out_size_w32 == 8);
            forall i :: 0 <= i < 32 * out_size_w32 ==> Bits(dst)[i] == BitAt(h[i / 32], 31 - i % 32)
  {
    hide Hashed, Bits, Extra, Concat, BitAt, SmallContext.Fed;
    ConcatNothing();
    var sc := new SmallContext(compress, iv);
    for i := 0 to |chunks|
      invariant sc.Fed(Concat(chunks[..i])) && sc.compress == compress && sc.iv == iv
      invariant fresh(sc) && fresh(sc.buf)
    {
      ConcatNext(chunks, i);
      sc.Update(chunks[i], Concat(chunks[..i]));
    }
    ConcatAll(chunks);
    dst := sc.Close(ub, n, out_size_w32, Concat(chunks));
  }
}
