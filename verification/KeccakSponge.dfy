/** The sponge construction of section 4 of FIPS 202, over KECCAK-p[1600, 24]. */
module Sponge {
  import opened KeccakWords
  import Fips202
  import Radix

  // Section 5.1, pad10*1
  function Pad(x: nat, m: nat): (p: seq<bool>)
    requires x > 0
    ensures (m + |p|) % x == 0
  {
    var j := (-(m as int) - 2) % x;
    PadLength(x, m);
    [true] + seq(j, _ => false) + [true]
  }

  lemma PadLength(x: nat, m: nat)
    requires x > 0
    ensures (m + (-(m as int) - 2) % x + 2) % x == 0
  {
    var k := -(m as int) - 2;
    assert k == x * (k / x) + k % x;
    assert m + k % x + 2 == x * (-(k / x));
    MultipleMod(x, -(k / x));
  }

  lemma MultipleMod(x: nat, k: int)
    requires x > 0
    ensures (x * k) % x == 0
  {
    Radix.MulBound(x, k - (x * k) / x);
    assert x * k == x * ((x * k) / x) + (x * k) % x;
  }

  // The bits of one block are XORed into the front of the state.
  function XorBlock(s: State, block: seq<bool>): (r: State)
    ensures forall i, z {:trigger r[i][z]} :: 0 <= i < 25 && 0 <= z < 64 ==>
              r[i][z] == (s[i][z] != (64 * i + z < |block| && block[64 * i + z]))
  {
    seq(25, i requires 0 <= i < 25 =>
      seq(64, z requires 0 <= z < 64 => s[i][z] != (64 * i + z < |block| && block[64 * i + z])))
  }

  // Section 4, Algorithm 8, steps 3 to 6: the state after all blocks of p.
  function Absorb(p: seq<bool>, rate: nat): State
    requires rate > 0 && |p| % rate == 0
  {
    if p == [] then seq(25, _ => ZERO)
    else
      var n := |p| - rate;
      assert |p| >= rate && n % rate == 0 by { OneLess(|p|, rate); }
      Fips202.KeccakF(XorBlock(Absorb(p[..n], rate), p[n..]))
  }

  lemma OneLess(a: nat, b: nat)
    requires b > 0 && a % b == 0 && a > 0
    ensures a >= b && (a - b) % b == 0
  {
    assert a - b == b * (a / b - 1);
    MultipleMod(b, a / b - 1);
  }

  // The first d bits of a state, as the string of section 3.1.3.
  function Trunc(s: State, d: nat): (r: seq<bool>)
    requires d <= 1600
    ensures |r| == d && forall k :: 0 <= k < d ==> r[k] == s[k / 64][k % 64]
  {
    seq(d, k requires 0 <= k < d => s[k / 64][k % 64])
  }

  // KECCAK[1600 - rate](N, d), for an output that one block covers.
  function Keccak(n: seq<bool>, rate: nat, d: nat): (r: seq<bool>)
    requires 0 < rate && d <= rate <= 1600
    ensures |r| == d
  {
    Trunc(Absorb(n + Pad(rate, |n|), rate), d)
  }
}

/** The hash of keccak.c: a context that buffers bytes, and closes with up to seven extra bits. */
module KeccakHash {
  import opened BitOps
  import opened Bytes
  import opened KeccakWords
  import opened KeccakRounds
  import Fips202
  import Radix
  import Sponge

  // The bits of a byte string, each byte from its bit 0 up.
  function Bits(m: seq<Byte>): (r: seq<bool>)
    ensures |r| == 8 * |m|
    ensures forall k :: 0 <= k < 8 * |m| ==> r[k] == BitAt(m[k / 8], k % 8)
  {
    BitsOf(m, false)
  }

  lemma BitsAppend(a: seq<Byte>, b: seq<Byte>)
    ensures Bits(a + b) == Bits(a) + Bits(b)
  {
    BitsOfAppend(a, b, false);
  }

  // sph_dec64le_aligned
  function Dec64Le(buf: seq<Byte>, at: nat): (w: Word)
    requires at + 8 <= |buf|
    ensures forall z :: 0 <= z < 64 ==> w[z] == BitAt(buf[at + z / 8], z % 8)
  {
    seq(64, z requires 0 <= z < 64 => BitAt(buf[at + z / 8], z % 8))
  }

  lemma Pow2Is256()
    ensures Pow2(8) == 256
  {
  }

  // Byte j of sph_enc64le_aligned.
  function Enc64LeByte(w: Word, j: nat): (b: Byte)
    requires j < 8
    ensures forall k :: 0 <= k < 8 ==> BitAt(b, k) == w[8 * j + k]
  {
    Pow2Is256();
    var bits := w[8 * j..8 * j + 8];
    assert forall k :: 0 <= k < 8 ==> bits[k] == w[8 * j + k];
    assert forall k {:trigger bits[k]} :: 0 <= k < 8 ==> BitAt(NumberOf(bits), k) == bits[k] by {
      forall k | 0 <= k < 8
        ensures BitAt(NumberOf(bits), k) == bits[k]
      {
        NumberOfBit(bits, k);
      }
    }
    NumberOf(bits)
  }

  // The bits d output bytes carry: bytes first, and in a byte bit 0 first.
  function Encoded(s: State, d: nat): (r: seq<Byte>)
    requires d <= 200
    ensures |r| == d
    ensures Bits(r) == Sponge.Trunc(s, 8 * d)
  {
    var r: seq<Byte> := seq(d, i requires 0 <= i < d => Enc64LeByte(s[i / 8], i % 8));
    assert Bits(r) == Sponge.Trunc(s, 8 * d) by {
      EncodedBits(s, d, r);
    }
    r
  }

  lemma EncodedBits(s: State, d: nat, r: seq<Byte>)
    requires d <= 200 && |r| == d && forall i :: 0 <= i < d ==> r[i] == Enc64LeByte(s[i / 8], i % 8)
    ensures Bits(r) == Sponge.Trunc(s, 8 * d)
  {
    hide BitAt, Enc64LeByte, Bits, Sponge.Trunc;
    forall k | 0 <= k < 8 * d
      ensures Bits(r)[k] == Sponge.Trunc(s, 8 * d)[k]
    {
      EightDivisions(k);
      assert r[k / 8] == Enc64LeByte(s[k / 8 / 8], k / 8 % 8);
    }
  }

  lemma EightDivisions(k: nat)
    ensures k / 8 / 8 == k / 64 && 8 * (k / 8 % 8) + k % 8 == k % 64
  {
  }

  // ---------- absorbing ----------

  lemma EightTimes(m: nat, lim: nat)
    requires lim > 0 && m % lim == 0
    ensures (8 * m) % (8 * lim) == 0
  {
    assert 8 * m == (8 * lim) * (m / lim);
    Sponge.MultipleMod(8 * lim, m / lim);
  }

  // The state after the blocks of m.
  function Absorbed(m: seq<Byte>, lim: nat): State
    requires lim > 0 && |m| % lim == 0
  {
    EightTimes(|m|, lim);
    Sponge.Absorb(Bits(m), 8 * lim)
  }

  lemma AbsorbedNext(m: seq<Byte>, block: seq<Byte>, lim: nat)
    requires lim > 0 && |m| % lim == 0 && |block| == lim
    ensures |m + block| % lim == 0
    ensures Absorbed(m + block, lim) == Fips202.KeccakF(Sponge.XorBlock(Absorbed(m, lim), Bits(block)))
  {
    hide Bits, Fips202.KeccakF, Sponge.XorBlock;
    assert |m + block| == lim * (|m| / lim + 1);
    Sponge.MultipleMod(lim, |m| / lim + 1);
    EightTimes(|m|, lim);
    BitsAppend(m, block);
    var p := Bits(m + block);
    assert p[..|p| - 8 * lim] == Bits(m) && p[|p| - 8 * lim..] == Bits(block);
  }

  lemma NothingAbsorbed(lim: nat)
    requires lim > 0
    ensures Absorbed([], lim) == seq(25, _ => ZERO)
  {
    EightTimes(0, lim);
  }

  // XORing a block in leaves the same lanes complemented.
  lemma XorBlockMasked(s: State, block: seq<bool>)
    ensures Sponge.XorBlock(Masked(s, MASK), block) == Masked(Sponge.XorBlock(s, block), MASK)
  {
    hide MASK;
    var l, r := Sponge.XorBlock(Masked(s, MASK), block), Masked(Sponge.XorBlock(s, block), MASK);
    forall i | 0 <= i < 25
      ensures l[i] == r[i]
    {
      forall z | 0 <= z < 64
        ensures l[i][z] == r[i][z]
      {
      }
    }
  }

  lemma LaneOfBlock(s: State, block: seq<Byte>, i: nat)
    requires i < 25 && |block| % 8 == 0
    ensures 8 * i < |block| ==> 8 * i + 8 <= |block| && Sponge.XorBlock(s, Bits(block))[i] == Xor(s[i], Dec64Le(block, 8 * i))
    ensures 8 * i >= |block| ==> Sponge.XorBlock(s, Bits(block))[i] == s[i]
  {
    hide BitAt;
    var l := Sponge.XorBlock(s, Bits(block))[i];
    if 8 * i < |block| {
      forall z | 0 <= z < 64
        ensures l[z] == Xor(s[i], Dec64Le(block, 8 * i))[z]
      {
        assert (64 * i + z) / 8 == 8 * i + z / 8 && (64 * i + z) % 8 == z % 8;
      }
    } else {
      forall z | 0 <= z < 64
        ensures l[z] == s[i][z]
      {
      }
    }
  }

  // The state with the lanes below number j of a block already in.
  ghost predicate MixedTo(w: State, s: State, r: State, n: nat) {
    forall i :: 0 <= i < 25 ==> w[i] == if i < n then r[i] else s[i]
  }

  // INPUT_BUF
  method InputBuf(wide: array<Word>, buf: array<Byte>, size: nat)
    requires wide.Length == 25 && size <= buf.Length && size <= 200 && size % 8 == 0
    modifies wide
    ensures wide[..] == Sponge.XorBlock(old(wide[..]), Bits(buf[..size]))
  {
    hide Xor, Dec64Le, Bits, Sponge.XorBlock, MixedTo;
    ghost var s, block := wide[..], buf[..size];
    ghost var r := Sponge.XorBlock(s, Bits(block));
    MixedNone(s, r);
    var j := 0;
    while j < size
      invariant j <= size && j % 8 == 0
      invariant MixedTo(wide[..], s, r, j / 8)
      invariant buf[..size] == block
    {
      LaneOfBlock(s, block, j / 8);
      MixedNext(wide[..], s, r, j / 8);
      wide[j / 8] := Xor(wide[j / 8], Dec64Le(buf[..size], j));
      j := j + 8;
    }
    RestOfBlock(s, block, wide[..]);
  }

  lemma MixedNone(s: State, r: State)
    ensures MixedTo(s, s, r, 0)
  {
  }

  lemma MixedNext(w: State, s: State, r: State, n: nat)
    requires n < 25 && MixedTo(w, s, r, n)
    ensures w[n] == s[n] && MixedTo(w[n := r[n]], s, r, n + 1)
  {
  }

  // Beyond the block the lanes stay.
  lemma RestOfBlock(s: State, block: seq<Byte>, w: State)
    requires |block| % 8 == 0 && MixedTo(w, s, Sponge.XorBlock(s, Bits(block)), |block| / 8)
    ensures w == Sponge.XorBlock(s, Bits(block))
  {
    hide Sponge.XorBlock, Bits;
    forall i | 0 <= i < 25
      ensures w[i] == Sponge.XorBlock(s, Bits(block))[i]
    {
      LaneOfBlock(s, block, i);
    }
  }

  // ---------- closing bits ----------

  // The n extra bits: those numbered 8 - n to 7 of ub, in that order.
  function Extra(ub: nat, n: nat): (r: seq<bool>)
    requires n <= 7
    ensures |r| == n
  {
    seq(n, k requires 0 <= k < n => BitAt(ub % 256, 8 - n + k))
  }

  // Bit k of a byte, counted from the top.
  function BitDown(ub: nat, k: nat): bool
    requires k < 8
  {
    BitAt(ub % 256, 7 - k)
  }

  // The n extra bits in the order the header gives: from number 7 of ub down to 8 - n.
  function HeaderExtra(ub: nat, n: nat): (r: seq<bool>)
    requires n <= 7
    ensures |r| == n
  {
    seq(n, k requires 0 <= k < n => BitDown(ub, k))
  }

  // The code takes them the other way round; the two agree exactly if the top n bits read the same both ways.
  lemma ExtraOrder(ub: nat, n: nat)
    requires n <= 7
    ensures Extra(ub, n) == Reverse(HeaderExtra(ub, n))
    ensures Extra(ub, n) == HeaderExtra(ub, n) <==> forall k: nat :: k < n ==> BitDown(ub, k) == BitDown(ub, n - 1 - k)
  {
    hide BitAt;
    forall k: nat | k < n
      ensures Extra(ub, n)[k] == BitDown(ub, n - 1 - k) && HeaderExtra(ub, n)[k] == BitDown(ub, k)
    {
    }
  }

  lemma ExtraOrderDiffers()
    ensures Extra(0x80, 2) == [false, true] && HeaderExtra(0x80, 2) == [true, false]
  {
    assert 0x80 % 256 == 128;
    assert BitAt(128, 7) && !BitAt(128, 6);
  }

  // (0x100 | (ub & 0xFF)) >> (8 - n)
  function Eb(ub: nat, n: nat): (eb: Byte)
    requires n <= 7
    ensures forall k: nat :: BitAt(eb, k) == if k < n then Extra(ub, n)[k] else k == n
    ensures n < 7 ==> eb < 128
  {
    EbBits(ub, n);
    ShiftRight(0x100 + ub % 256, 8 - n)
  }

  lemma SmallPowers()
    ensures Pow2(0) == 1 && Pow2(7) == 128 && Pow2(8) == 256 && Pow2(9) == 512
  {
  }

  lemma EbBits(ub: nat, n: nat)
    requires n <= 7
    ensures var eb := ShiftRight(0x100 + ub % 256, 8 - n);
            && eb < 256 && (n < 7 ==> eb < 128)
            && forall k: nat :: BitAt(eb, k) == if k < n then Extra(ub, n)[k] else k == n
  {
    hide BitAt, ShiftRight, Pow2;
    SmallPowers();
    ShiftRightBound(0x100 + ub % 256, 8 - n, n + 1);
    Pow2Mono(n + 1, if n < 7 then 7 else 8);
    forall k: nat
      ensures BitAt(ShiftRight(0x100 + ub % 256, 8 - n), k) == if k < n then Extra(ub, n)[k] else k == n
    {
      ShiftRightBit(0x100 + ub % 256, 8 - n, k);
      TopBit(ub % 256, 8, 8 - n + k);
    }
  }

  lemma Bit80(b: nat, k: nat)
    requires b < 128 && k < 8
    ensures BitAt(b + 128, k) == (BitAt(b, k) || k == 7)
  {
    hide BitAt, Pow2;
    SmallPowers();
    TopBit(b, 7, k);
  }

  lemma PadIs(x: nat, m: nat, z: nat)
    requires z < x && (m + z + 2) % x == 0
    ensures Sponge.Pad(x, m) == [true] + seq(z, _ => false) + [true]
  {
    var a := -(m as int) - 2;
    var q := -((m + z + 2) / x);
    assert a == x * q + z;
    assert a == x * (a / x) + a % x;
    assert x * (q - a / x) == a % x - z;
    Radix.MulBound(x, q - a / x);
  }

  // The bytes keccak_close appends when the buffer holds ptr of lim bytes.
  function Tail(ub: nat, n: nat, ptr: nat, lim: nat): seq<Byte>
    requires n <= 7 && ptr < lim
  {
    if ptr == lim - 1 && n == 7 then [Eb(ub, n)] + seq(lim - 1, _ => 0) + [0x80]
    else if ptr == lim - 1 then [Eb(ub, n) + 0x80]
    else [Eb(ub, n)] + seq(lim - ptr - 2, _ => 0) + [0x80]
  }

  lemma TailBits(ub: nat, n: nat, ptr: nat, lim: nat)
    requires n <= 7 && ptr < lim
    ensures var t := Tail(ub, n, ptr, lim);
            && 8 * |t| >= n + 2
            && Bits(t) == Extra(ub, n) + [true] + seq(8 * |t| - n - 2, _ => false) + [true]
  {
    hide BitAt, Eb, Extra;
    var t := Tail(ub, n, ptr, lim);
    var l := 8 * |t|;
    var r := Extra(ub, n) + [true] + seq(l - n - 2, _ => false) + [true];
    forall k | 0 <= k < l
      ensures Bits(t)[k] == r[k]
    {
      if |t| == 1 {
        Bit80(Eb(ub, n), k);
      } else if k < 8 {
        assert t[0] == Eb(ub, n);
      } else if k < l - 8 {
        assert t[k / 8] == 0;
        ZeroBit(k % 8);
      } else {
        assert k / 8 == |t| - 1;
        assert t[k / 8] == 0 + 0x80;
        ZeroBit(k % 8);
        Bit80(0, k % 8);
      }
    }
  }

  // They are the extra bits and the padding.
  lemma TailIsPad(m: seq<Byte>, ub: nat, n: nat, ptr: nat, lim: nat)
    requires n <= 7 && ptr < lim && lim > 0 && ptr <= |m| && (|m| - ptr) % lim == 0
    ensures var t := Tail(ub, n, ptr, lim);
            var bits := Bits(m) + Extra(ub, n);
            && |m + t| % lim == 0
            && Bits(m + t) == bits + Sponge.Pad(8 * lim, |bits|)
  {
    hide Bits, Extra, Eb, Sponge.Pad, Tail;
    var t := Tail(ub, n, ptr, lim);
    TailFills(|m|, ub, n, ptr, lim);
    EightTimes(|m + t|, lim);
    TailBits(ub, n, ptr, lim);
    assert 8 * |m| + n + (8 * |t| - n - 2) + 2 == 8 * |m + t|;
    PadIs(8 * lim, 8 * |m| + n, 8 * |t| - n - 2);
    BitsAppend(m, t);
    assert Bits(m) + (Extra(ub, n) + [true] + seq(8 * |t| - n - 2, _ => false) + [true])
           == Bits(m) + Extra(ub, n) + ([true] + seq(8 * |t| - n - 2, _ => false) + [true]);
  }

  lemma TailFills(l: nat, ub: nat, n: nat, ptr: nat, lim: nat)
    requires n <= 7 && ptr < lim && ptr <= l && (l - ptr) % lim == 0
    ensures (l + |Tail(ub, n, ptr, lim)|) % lim == 0
    ensures 8 * |Tail(ub, n, ptr, lim)| < 8 * lim + n + 2
  {
    hide Eb;
    var q := (l - ptr) / lim + (if ptr == lim - 1 && n == 7 then 2 else 1);
    assert l + |Tail(ub, n, ptr, lim)| == lim * q;
    Sponge.MultipleMod(lim, q);
  }

  // ---------- the context ----------

  lemma InitialLanes(w: State)
    requires forall k :: 0 <= k < 25 ==> w[k] == if k in {1, 2, 8, 12, 17, 20} then ONES else ZERO
    ensures w == Masked(seq(25, _ => ZERO), MASK)
  {
    assert Not(ZERO) == ONES;
    forall k | 0 <= k < 25
      ensures MASK[k] == (k in {1, 2, 8, 12, 17, 20})
    {
    }
  }

  // The zero state, with the six lanes complemented.
  method ClearLanes(wide: array<Word>)
    requires wide.Length == 25
    modifies wide
    ensures wide[..] == Masked(seq(25, _ => ZERO), MASK)
  {
    hide Masked, MASK, ZERO, ONES;
    for i := 0 to 25
      invariant forall k :: 0 <= k < i ==> wide[k] == ZERO
    {
      wide[i] := ZERO;
    }
    wide[1] := ONES;
    wide[2] := ONES;
    wide[8] := ONES;
    wide[12] := ONES;
    wide[17] := ONES;
    wide[20] := ONES;
    InitialLanes(wide[..]);
  }

  class Context {
    var buf: array<Byte>
    var ptr: nat
    var lim: nat
    var wide: array<Word>
    // The blocks the state has absorbed.
    ghost var done: seq<Byte>

    ghost predicate Valid()
      reads this, buf, wide
    {
      && buf.Length == 144 && wide.Length == 25
      && 0 < lim <= 144 && lim % 8 == 0 && ptr < lim
      && |done| % lim == 0
      && wide[..] == Masked(Absorbed(done, lim), MASK)
    }

    // The message so far.
    ghost function Message(): seq<Byte>
      reads this, buf
      requires ptr <= buf.Length
    {
      done + buf[..ptr]
    }

    constructor (outSize: nat)
      requires outSize % 32 == 0 && 224 <= outSize <= 512
      ensures Valid() && Message() == [] && lim == 200 - outSize / 4
      ensures fresh(buf) && fresh(wide)
    {
      buf := new Byte[144](_ => 0);
      wide := new Word[25](_ => ZERO);
      new;
      Init(outSize);
    }

    // keccak_init
    method Init(outSize: nat)
      requires buf.Length == 144 && wide.Length == 25
      requires outSize % 32 == 0 && 224 <= outSize <= 512
      modifies this`ptr, this`lim, this`done, wide
      ensures Valid() && Message() == [] && lim == 200 - outSize / 4
    {
      hide Masked, MASK, Absorbed;
      ClearLanes(wide);
      ptr := 0;
      lim := 200 - outSize / 4;
      done := [];
      NothingAbsorbed(lim);
    }

    // A full buffer goes into the state.
    method AbsorbBuffer()
      requires buf.Length == 144 && wide.Length == 25 && 0 < lim <= 144 && lim % 8 == 0
      requires |done| % lim == 0 && wide[..] == Masked(Absorbed(done, lim), MASK)
      modifies this`done, wide
      ensures done == old(done) + buf[..lim]
      ensures |done| % lim == 0 && wide[..] == Masked(Absorbed(done, lim), MASK)
    {
      hide Masked, MASK, Absorbed, Fips202.KeccakF, Sponge.XorBlock, Bits;
      ghost var block := buf[..lim];
      AbsorbedNext(done, block, lim);
      XorBlockMasked(Absorbed(done, lim), Bits(block));
      InputBuf(wide, buf, lim);
      KeccakF1600(wide);
      MaskTwice(Sponge.XorBlock(Absorbed(done, lim), Bits(block)), MASK);
      done := done + block;
    }

    // clen more bytes go into the buffer, which is emptied when full.
    method Feed(p: nat, data: seq<Byte>, off: nat, clen: nat) returns (ptr': nat)
      requires buf.Length == 144 && wide.Length == 25 && 0 < lim <= 144 && lim % 8 == 0
      requires |done| % lim == 0 && wide[..] == Masked(Absorbed(done, lim), MASK)
      requires p + clen <= lim && off + clen <= |data|
      modifies this`done, buf, wide
      ensures ptr' == if p + clen == lim then 0 else p + clen
      ensures |done| % lim == 0 && wide[..] == Masked(Absorbed(done, lim), MASK)
      ensures done + buf[..ptr'] == old(done + buf[..p]) + data[off..off + clen]
    {
      hide Masked, MASK, Absorbed;
      Copy(buf, p, data, off, clen);
      ptr' := p + clen;
      assert done + buf[..ptr'] == old(done + buf[..p]) + data[off..off + clen];
      if ptr' == lim {
        AbsorbBuffer();
        ptr' := 0;
        NothingMore(done, buf[..ptr']);
      }
    }

    // keccak_core
    method Core(data: seq<Byte>, lim: nat)
      requires Valid() && lim == this.lim
      modifies this`ptr, this`done, buf, wide
      ensures Valid() && Message() == old(Message()) + data && this.lim == old(this.lim)
    {
      hide Masked, MASK, Absorbed;
      var p: nat := ptr;
      var len := |data|;
      if len < lim - p {
        Copy(buf, p, data, 0, len);
        assert data[0..len] == data;
        ptr := p + len;
        return;
      }
      ghost var m := Message();
      while len > 0
        invariant 0 <= len <= |data| && p < lim
        invariant |done| % lim == 0 && wide[..] == Masked(Absorbed(done, lim), MASK)
        invariant done + buf[..p] == m + data[..|data| - len]
      {
        var off := |data| - len;
        var clen := lim - p;
        if clen > len {
          clen := len;
        }
        Taken(m, data, off, clen);
        p := Feed(p, data, off, clen);
        len := len - clen;
      }
      assert data[..|data|] == data;
      ptr := p;
    }

    // DEFCLOSE(d, lim)
    method Close(ub: nat, n: nat, d: nat, lim: nat) returns (dst: seq<Byte>)
      requires Valid() && n <= 7 && lim == this.lim
      requires d in {28, 32, 48, 64} && lim == 200 - 2 * d
      modifies this`ptr, this`lim, this`done, buf, wide
      ensures Bits(dst) == Sponge.Keccak(Bits(old(Message())) + Extra(ub, n), 8 * lim, 8 * d)
      ensures Valid() && Message() == [] && this.lim == lim
    {
      hide Masked, MASK, Absorbed, Bits, Extra, Eb, Sponge.Pad, Sponge.Absorb, Fips202.KeccakF, Encoded;
      ghost var m := Message();
      TailIsPad(m, ub, n, ptr, lim);
      var eb := Eb(ub, n);
      var tmp: seq<Byte>;
      if ptr == lim - 1 {
        if n == 7 {
          tmp := [eb] + seq(lim - 1, _ => 0) + [0x80];
        } else {
          tmp := [eb + 0x80];
        }
      } else {
        var j := lim - ptr;
        tmp := [eb] + seq(j - 2, _ => 0) + [0x80];
      }
      assert tmp == Tail(ub, n, ptr, lim);
      Core(tmp, lim);
      assert done + buf[..ptr] == m + tmp;
      NoneLeft(|done|, ptr, lim);
      assert done == m + tmp;
      ghost var s := Absorbed(done, lim);
      AbsorbedIs(done, lim);
      Uncomplement(wide, s);
      dst := Encoded(wide[..], d);
      Init(8 * d);
    }
  }

  lemma AbsorbedIs(m: seq<Byte>, lim: nat)
    requires lim > 0 && |m| % lim == 0
    ensures (8 * |m|) % (8 * lim) == 0 && Absorbed(m, lim) == Sponge.Absorb(Bits(m), 8 * lim)
  {
    EightTimes(|m|, lim);
  }

  lemma Taken(m: seq<Byte>, data: seq<Byte>, off: nat, clen: nat)
    requires off + clen <= |data|
    ensures m + data[..off] + data[off..off + clen] == m + data[..off + clen]
  {
  }

  lemma NothingMore(done: seq<Byte>, rest: seq<Byte>)
    requires |rest| == 0
    ensures done + rest == done
  {
  }

  lemma NoneLeft(a: nat, ptr: nat, lim: nat)
    requires ptr < lim && a % lim == 0 && (a + ptr) % lim == 0
    ensures ptr == 0
  {
    assert a + ptr == lim * ((a + ptr) / lim) && a == lim * (a / lim);
    Radix.MulBound(lim, (a + ptr) / lim - a / lim);
    assert ptr == lim * ((a + ptr) / lim - a / lim);
  }

  // The six complemented lanes come back.
  method Uncomplement(wide: array<Word>, ghost s: State)
    requires wide.Length == 25 && wide[..] == Masked(s, MASK)
    modifies wide
    ensures wide[..] == s
  {
    hide Masked, MASK, Not;
    wide[1] := Not(wide[1]);
    wide[2] := Not(wide[2]);
    wide[8] := Not(wide[8]);
    wide[12] := Not(wide[12]);
    wide[17] := Not(wide[17]);
    wide[20] := Not(wide[20]);
    LanesBack(s, wide[..]);
  }

  lemma LanesBack(s: State, w: State)
    requires forall i :: 0 <= i < 25 ==> w[i] == if i in {1, 2, 8, 12, 17, 20} then Not(Masked(s, MASK)[i]) else Masked(s, MASK)[i]
    ensures w == s
  {
    hide Masked, MASK, Not;
    SixLanes(s);
    forall i | 0 <= i < 25
      ensures w[i] == s[i]
    {
      NotNot(s[i]);
    }
  }

  lemma SixLanes(s: State)
    ensures forall i :: 0 <= i < 25 ==> Masked(s, MASK)[i] == if i in {1, 2, 8, 12, 17, 20} then Not(s[i]) else s[i]
  {
    forall i | 0 <= i < 25
      ensures MASK[i] == (i in {1, 2, 8, 12, 17, 20})
    {
    }
  }

  // A whole use of a context: however the message is cut into calls, the output is the sponge of its bits.
  method Hash(chunks: seq<seq<Byte>>, ub: nat, n: nat, d: nat) returns (dst: seq<Byte>)
    requires n <= 7 && d in {28, 32, 48, 64}
    ensures Bits(dst) == Sponge.Keccak(Bits(Concat(chunks)) + Extra(ub, n), 8 * (200 - 2 * d), 8 * d)
  {
    hide Sponge.Keccak, Bits, Extra, Concat;
    ConcatNothing();
    var kc := new Context(8 * d);
    var lim := 200 - 2 * d;
    for i := 0 to |chunks|
      invariant kc.Valid() && kc.lim == lim && kc.Message() == Concat(chunks[..i])
      invariant fresh(kc) && fresh(kc.buf) && fresh(kc.wide)
    {
      ConcatNext(chunks, i);
      kc.Core(chunks[i], lim);
    }
    ConcatAll(chunks);
    dst := kc.Close(ub, n, d, lim);
  }
}
