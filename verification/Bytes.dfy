/** Bytes and their bits, and sequences reversed and put together. */
module Bytes {
  import opened BitOps

  type Byte = b: nat | b < 256 witness 0

  function Reverse<T>(s: seq<T>): (r: seq<T>)
    ensures |r| == |s| && forall i :: 0 <= i < |s| ==> r[i] == s[|s| - 1 - i]
  {
    seq(|s|, i requires 0 <= i < |s| => s[|s| - 1 - i])
  }

  lemma ReverseTwice<T>(s: seq<T>)
    ensures Reverse(Reverse(s)) == s
  {
  }

  // A message put together from its pieces.
  function Concat(chunks: seq<seq<Byte>>): seq<Byte> {
    if chunks == [] then [] else Concat(chunks[..|chunks| - 1]) + chunks[|chunks| - 1]
  }

  lemma ConcatNothing()
    ensures Concat([]) == []
  {
  }

  lemma ConcatNext(chunks: seq<seq<Byte>>, i: nat)
    requires i < |chunks|
    ensures Concat(chunks[..i + 1]) == Concat(chunks[..i]) + chunks[i]
  {
    assert chunks[..i + 1][..i] == chunks[..i];
  }

  lemma ConcatAll(chunks: seq<seq<Byte>>)
    ensures chunks[..|chunks|] == chunks
  {
  }

  // The bits of a byte string, each byte from its high bit down or from its low bit up.
  function BitsOf(m: seq<Byte>, high: bool): (r: seq<bool>)
    ensures |r| == 8 * |m|
    ensures forall k :: 0 <= k < 8 * |m| ==> r[k] == BitAt(m[k / 8], if high then 7 - k % 8 else k % 8)
  {
    seq(8 * |m|, k requires 0 <= k < 8 * |m| => BitAt(m[k / 8], if high then 7 - k % 8 else k % 8))
  }

  lemma BitsOfAppend(a: seq<Byte>, b: seq<Byte>, high: bool)
    ensures BitsOf(a + b, high) == BitsOf(a, high) + BitsOf(b, high)
  {
    hide BitsOf;
    forall k | 0 <= k < 8 * |a + b|
      ensures BitsOf(a + b, high)[k] == (BitsOf(a, high) + BitsOf(b, high))[k]
    {
      if k < 8 * |a| {
        SameByteBit(a + b, k, a, k, high);
      } else {
        ByteAfter(|a|, k);
        SameByteBit(a + b, k, b, k - 8 * |a|, high);
      }
    }
  }

  lemma SameByteBit(m: seq<Byte>, k: nat, l: seq<Byte>, j: nat, high: bool)
    requires k < 8 * |m| && j < 8 * |l| && m[k / 8] == l[j / 8] && k % 8 == j % 8
    ensures BitsOf(m, high)[k] == BitsOf(l, high)[j]
  {
    hide BitAt;
  }

  lemma ByteAfter(n: nat, k: nat)
    requires k >= 8 * n
    ensures k / 8 == n + (k - 8 * n) / 8 && k % 8 == (k - 8 * n) % 8
  {
  }

  // memcpy of n bytes of data, from number off on, to buf + at
  method Copy(buf: array<Byte>, at: nat, data: seq<Byte>, off: nat, n: nat)
    requires at + n <= buf.Length && off + n <= |data|
    modifies buf
    ensures buf[..at + n] == old(buf[..at]) + data[off..off + n]
  {
    forall i | 0 <= i < n {
      buf[at + i] := data[off + i];
    }
  }
}
