/** EncodeBase58 and DecodeBase58: byte strings as text in an alphabet of 58 letters. */
module Base58 {
  import opened BigNum
  import opened Bytes
  import opened Radix

  const DIGITS := "123456789"
  const UPPER := "ABCDEFGHJKLMNPQRSTUVWXYZ"
  const LOWER := "abcdefghijkmnopqrstuvwxyz"
  // pszBase58
  const LETTERS: string := DIGITS + UPPER + LOWER

  // ---------- the alphabet ----------

  lemma LettersIncrease(i: nat)
    requires i < 57
    ensures |LETTERS| == 58 && LETTERS[i] < LETTERS[i + 1]
  {
  }

  lemma {:induction false} LettersSorted(i: nat, j: nat)
    requires i < j < 58
    ensures |LETTERS| == 58 && LETTERS[i] < LETTERS[j]
  {
    hide LETTERS;
    LettersIncrease(j - 1);
    if i < j - 1 {
      LettersSorted(i, j - 1);
    }
  }

  // strchr: where c first occurs in s, or -1.
  function StrChr(s: string, c: char): (r: int)
    ensures -1 <= r < |s|
    ensures r >= 0 ==> s[r] == c
    ensures r == -1 <==> c !in s
  {
    if s == [] then -1
    else if s[0] == c then 0
    else
      var r := StrChr(s[1..], c);
      assert s == [s[0]] + s[1..];
      if r == -1 then -1 else r + 1
  }

  // The letters are the digits and the Latin letters without the four that look alike, 0, I, O and l.
  lemma LettersAre(c: char)
    ensures IsLetter(c) <==>
              || '1' <= c <= '9' || ('A' <= c <= 'Z' && c != 'I' && c != 'O') || ('a' <= c <= 'z' && c != 'l')
  {
    DigitsAre(c);
    UpperAre(c);
    LowerAre(c);
  }

  lemma DigitsAre(c: char)
    ensures c in DIGITS <==> '1' <= c <= '9'
  {
  }

  lemma UpperAre(c: char)
    ensures c in UPPER <==> 'A' <= c <= 'Z' && c != 'I' && c != 'O'
  {
  }

  lemma LowerAre(c: char)
    ensures c in LOWER <==> 'a' <= c <= 'z' && c != 'l'
  {
  }

  function IsSpace(c: char): bool {
    c == ' ' || '\t' as int <= c as int <= '\r' as int
  }

  // The six white-space characters of the C locale.
  lemma SpacesAre(c: char)
    ensures IsSpace(c) <==> c as int in {9, 10, 11, 12, 13, 32}
  {
  }

  function IsLetter(c: char): bool { StrChr(LETTERS, c) != -1 }

  lemma LetterIndex(k: nat)
    requires k < 58
    ensures |LETTERS| == 58 && StrChr(LETTERS, LETTERS[k]) == k
  {
    hide LETTERS, StrChr;
    LettersIncrease(0);
    var r := StrChr(LETTERS, LETTERS[k]);
    if r < k && r >= 0 {
      LettersSorted(r, k);
    } else if r > k {
      LettersSorted(k, r);
    }
  }

  lemma NotSpace(c: char)
    requires IsLetter(c)
    ensures !IsSpace(c) && c != '\0'
  {
    hide LETTERS, StrChr;
    LettersIncrease(0);
    var k := StrChr(LETTERS, c);
    FirstLetter();
    if k > 0 {
      LettersSorted(0, k);
    }
  }

  lemma FirstLetter()
    ensures |LETTERS| == 58 && LETTERS[0] == '1'
  {
    LettersIncrease(0);
  }

  function Text(d: seq<nat>): (s: string)
    requires Digits(58, d)
    ensures |s| == |d|
  {
    LettersIncrease(0);
    seq(|d|, i requires 0 <= i < |d| => LETTERS[d[i]])
  }

  function Indices(s: string): (d: seq<nat>)
    requires forall c :: c in s ==> IsLetter(c)
    ensures Digits(58, d) && |d| == |s|
  {
    seq(|s|, i requires 0 <= i < |s| => IndexOf(s[i]))
  }

  function IndexOf(c: char): (k: nat)
    requires IsLetter(c)
    ensures k < 58
  {
    LettersIncrease(0);
    StrChr(LETTERS, c)
  }

  lemma TextIndices(d: seq<nat>)
    requires Digits(58, d)
    ensures (forall c :: c in Text(d) ==> IsLetter(c)) && Indices(Text(d)) == d
  {
    hide LETTERS, StrChr;
    forall i | 0 <= i < |d|
      ensures IsLetter(Text(d)[i]) && StrChr(LETTERS, Text(d)[i]) == d[i]
    {
      LetterIndex(d[i]);
    }
  }

  lemma IndicesText(s: string)
    requires forall c :: c in s ==> IsLetter(c)
    ensures Text(Indices(s)) == s
  {
    hide LETTERS, StrChr;
  }

  // ---------- changing the base ----------

  // How many zeros d begins with.
  function Leading(d: seq<nat>): (n: nat)
    ensures n <= |d| && (forall i :: 0 <= i < n ==> d[i] == 0) && (n < |d| ==> d[n] != 0)
  {
    if d == [] || d[0] != 0 then 0
    else
      var n := Leading(d[1..]);
      assert forall i :: 0 < i < n + 1 ==> d[i] == d[1..][i - 1];
      n + 1
  }

  lemma LeadingIs(d: seq<nat>, n: nat)
    requires n <= |d| && (forall i :: 0 <= i < n ==> d[i] == 0) && (n < |d| ==> d[n] != 0)
    ensures Leading(d) == n
  {
  }

  // The number whose digits, most significant first, are d.
  function Number(b: Base, d: seq<nat>): nat { Value(b, Reverse(d)) }

  // d in another base; leading zeros stay.
  function Rebased(from: Base, to: Base, d: seq<nat>): (r: seq<nat>)
    ensures Digits(to, r)
  {
    Zeros(Leading(d)) + Reverse(Minimal(to, Number(from, d)))
  }

  lemma ReverseZeros(d: seq<nat>, n: nat)
    ensures Reverse(d + Zeros(n)) == Zeros(n) + Reverse(d)
  {
  }

  // Digits are their leading zeros and then the minimal digits of their number.
  lemma DigitsSplit(b: Base, d: seq<nat>)
    requires Digits(b, d)
    ensures d == Zeros(Leading(d)) + Reverse(Minimal(b, Number(b, d)))
  {
    hide Minimal, Value, Leading;
    var le := Reverse(d);
    MinimalOfValue(b, le);
    var m := Minimal(b, Value(b, le));
    var z := |le| - |m|;
    ReverseTwice(d);
    ReverseZeros(m, z);
    assert d == Zeros(z) + Reverse(m);
    LeadingOfPadded(z, m);
  }

  lemma LeadingOfPadded(z: nat, m: seq<nat>)
    requires m != [] ==> m[|m| - 1] != 0
    ensures Leading(Zeros(z) + Reverse(m)) == z
  {
    hide Leading;
    LeadingIs(Zeros(z) + Reverse(m), z);
  }

  lemma NumberOfRebased(b: Base, l: nat, n: nat)
    ensures var r := Zeros(l) + Reverse(Minimal(b, n)); Leading(r) == l && Number(b, r) == n
  {
    hide Minimal, Value, Leading;
    var m := Minimal(b, n);
    var r := Zeros(l) + Reverse(m);
    assert Reverse(r) == m + Zeros(l);
    ValueTrailing(b, m, l);
    ValueOfMinimal(b, n);
    LeadingOfPadded(l, m);
  }

  // There and back.
  lemma RebasedTwice(b: Base, c: Base, d: seq<nat>)
    requires Digits(b, d)
    ensures Rebased(c, b, Rebased(b, c, d)) == d
  {
    hide Minimal, Value, Leading;
    NumberOfRebased(c, Leading(d), Number(b, d));
    DigitsSplit(b, d);
  }

  // ---------- the codec ----------

  function Encoded(v: seq<Byte>): string { Text(Rebased(256, 58, v)) }

  function Decoded(s: string): seq<nat>
    requires forall c :: c in s ==> IsLetter(c)
  {
    Rebased(58, 256, Indices(s))
  }

  // Decoding undoes encoding on every byte string.
  lemma DecodeEncode(v: seq<Byte>)
    ensures (forall c :: c in Encoded(v) ==> IsLetter(c)) && Decoded(Encoded(v)) == v
  {
    hide Rebased;
    TextIndices(Rebased(256, 58, v));
    RebasedTwice(256, 58, v);
  }

  // Encoding undoes decoding on every string of letters.
  lemma EncodeDecode(s: string)
    requires forall c :: c in s ==> IsLetter(c)
    ensures Digits(256, Decoded(s)) && Encoded(Decoded(s)) == s
  {
    hide Rebased;
    RebasedTwice(58, 256, Indices(s));
    IndicesText(s);
  }

  lemma NextDigit(n: nat, le: seq<nat>, m: nat)
    requires m > 0 && Minimal(58, n) == le + Minimal(58, m)
    ensures m / 58 < m && Minimal(58, n) == (le + [m % 58]) + Minimal(58, m / 58)
  {
    hide Minimal;
    MinimalStep(58, m);
  }

  // The digits of bn, least significant first.
  method DivideOut(bn: CBigNum) returns (str: string)
    requires bn.bn >= 0
    modifies bn
    ensures str == Text(Minimal(58, old(bn.bn)))
  {
    hide LETTERS, Minimal, Text;
    ghost var n: nat := bn.bn;
    ghost var le: seq<nat> := [];
    FirstLetter();
    str := [];
    TextEmpty();
    assert le + Minimal(58, n) == Minimal(58, n);
    while bn.bn > 0
      invariant bn.bn >= 0 && Digits(58, le) && str == Text(le)
      invariant Minimal(58, n) == le + Minimal(58, bn.bn)
    {
      NextDigit(n, le, bn.bn);
      var dv, rem := bn.bn / 58, bn.bn % 58;
      bn.bn := dv;
      TextPush(le, rem);
      le := le + [rem];
      str := str + [LETTERS[rem]];
    }
    assert le == Minimal(58, n);
  }

  // EncodeBase58
  method EncodeBase58(v: seq<Byte>) returns (str: string)
    ensures str == Encoded(v)
  {
    hide LETTERS, Minimal, Value, Text, Leading;
    // A zero top byte keeps SetVch from reading a sign.
    var vchTmp := Reverse(v) + [0];
    PositiveValue(Reverse(v));
    var bn := new CBigNum();
    bn.SetVch(vchTmp);
    ghost var n: nat := bn.bn;
    assert Reverse<nat>(v) == Reverse<Byte>(v);
    assert n == Number(256, v);
    str := DivideOut(bn);
    FirstLetter();
    // Each zero byte in front becomes a letter 1.
    var p := 0;
    assert Minimal(58, n) + Zeros(0) == Minimal(58, n);
    while p < |v| && v[p] == 0
      invariant p <= |v| && forall i :: 0 <= i < p ==> v[i] == 0
      invariant Digits(58, Minimal(58, n) + Zeros(p)) && str == Text(Minimal(58, n) + Zeros(p))
    {
      TextPush(Minimal(58, n) + Zeros(p), 0);
      assert Minimal(58, n) + Zeros(p) + [0] == Minimal(58, n) + Zeros(p + 1);
      str := str + [LETTERS[0]];
      p := p + 1;
    }
    LeadingIs(v, p);
    ReverseZeros(Minimal(58, n), p);
    TextReverse(Minimal(58, n) + Zeros(p));
    str := Reverse(str);
  }

  lemma PositiveValue(le: seq<Byte>)
    ensures SignedValue(le + [0]) == Value(256, le)
  {
    ValueTrailing(256, le, 1);
    assert Zeros(1) == [0];
  }

  lemma TextEmpty()
    ensures Text([]) == []
  {
  }

  lemma TextPush(d: seq<nat>, x: nat)
    requires Digits(58, d) && x < 58
    ensures Digits(58, d + [x]) && |LETTERS| == 58 && Text(d + [x]) == Text(d) + [LETTERS[x]]
  {
    hide LETTERS;
    FirstLetter();
  }

  lemma TextReverse(d: seq<nat>)
    requires Digits(58, d)
    ensures Digits(58, Reverse(d)) && Text(Reverse(d)) == Reverse(Text(d))
  {
    hide LETTERS;
    FirstLetter();
  }

  // White space, letters, white space, with the letters from i to j.
  ghost predicate Spaced(s: string, i: nat, j: nat) {
    && i <= j <= |s|
    && (forall k :: 0 <= k < i ==> IsSpace(s[k]))
    && (forall c :: c in s[i..j] ==> IsLetter(c))
    && (forall k :: j <= k < |s| ==> IsSpace(s[k]))
  }

  // There is one way to read a string so.
  lemma SpacedUnique(s: string, i: nat, j: nat, i': nat, j': nat)
    requires Spaced(s, i, j) && Spaced(s, i', j')
    ensures s[i..j] == s[i'..j']
  {
    hide IsSpace, IsLetter;
    if i < j {
      Inside(s, i, j, i', j', i);
      Inside(s, i, j, i', j', j - 1);
    }
    if i' < j' {
      Inside(s, i', j', i, j, i');
      Inside(s, i', j', i, j, j' - 1);
    }
  }

  lemma Inside(s: string, i: nat, j: nat, i': nat, j': nat, k: nat)
    requires Spaced(s, i, j) && Spaced(s, i', j') && i <= k < j
    ensures i' <= k < j'
  {
    hide IsSpace, IsLetter;
    assert s[k] == s[i..j][k - i];
    NotSpace(s[k]);
  }

  lemma SpacedAt(s: string, i: nat, j: nat, k: nat)
    requires Spaced(s, i, j) && k < |s|
    ensures (i <= k < j && IsLetter(s[k])) || (!(i <= k < j) && IsSpace(s[k]))
  {
    hide IsSpace, IsLetter;
    if i <= k < j {
      assert s[k] == s[i..j][k - i];
    }
  }

  lemma NotSpacedOut(s: string, i: nat, p: nat, q: nat, i': nat, j': nat)
    requires i <= p <= q < |s| && !IsSpace(s[i]) && !IsLetter(s[p]) && !IsSpace(s[q])
    ensures !Spaced(s, i', j')
  {
    hide IsSpace, IsLetter;
    if Spaced(s, i', j') {
      SpacedAt(s, i', j', i);
      SpacedAt(s, i', j', p);
      SpacedAt(s, i', j', q);
    }
  }

  lemma NextLetter(s: string, i: nat, p: nat)
    requires i <= p < |s| && (forall c :: c in s[i..p] ==> IsLetter(c)) && IsLetter(s[p])
    ensures s[i..p + 1] == s[i..p] + [s[p]] && forall c :: c in s[i..p + 1] ==> IsLetter(c)
    ensures Number(58, Indices(s[i..p + 1])) == Number(58, Indices(s[i..p])) * 58 + IndexOf(s[p])
  {
    hide IsLetter, Value, IndexOf;
    assert s[i..p + 1] == s[i..p] + [s[p]];
    var d := Indices(s[i..p]);
    assert Indices(s[i..p + 1]) == d + [IndexOf(s[p])];
    assert Reverse(d + [IndexOf(s[p])]) == [IndexOf(s[p])] + Reverse(d);
    ValueCons(58, IndexOf(s[p]), Reverse(d));
  }

  // The number the letters from i on say, and where they end.
  method ReadLetters(psz: string, i: nat) returns (ok: bool, j: nat, bn: nat)
    requires i <= |psz| && (forall k :: 0 <= k < i ==> IsSpace(psz[k])) && (i < |psz| ==> !IsSpace(psz[i]))
    ensures ok ==> Spaced(psz, i, j) && bn == Number(58, Indices(psz[i..j]))
    ensures !ok ==> forall i': nat, j': nat :: !Spaced(psz, i', j')
  {
    hide IsSpace, LETTERS, Number;
    bn := 0;
    NumberOfNothing();
    assert psz[i..i] == [];
    var p := i;
    while p < |psz|
      invariant i <= p <= |psz| && (forall c :: c in psz[i..p] ==> IsLetter(c))
      invariant bn == Number(58, Indices(psz[i..p]))
    {
      var p1 := StrChr(LETTERS, psz[p]);
      if p1 == -1 {
        var q := p;
        while q < |psz| && IsSpace(psz[q])
          invariant p <= q <= |psz| && forall k :: p <= k < q ==> IsSpace(psz[k])
        {
          q := q + 1;
        }
        if q != |psz| {
          forall i': nat, j': nat
            ensures !Spaced(psz, i', j')
          {
            NotSpacedOut(psz, i, p, q, i', j');
          }
          return false, p, bn;
        }
        break;
      }
      NextLetter(psz, i, p);
      bn := bn * 58;
      bn := bn + p1;
      p := p + 1;
    }
    return true, p, bn;
  }

  lemma NumberOfNothing()
    ensures Number(58, Indices([])) == 0
  {
  }

  lemma TrimIsMinimal(n: nat)
    ensures var v := SignedBytes(n);
            MinimalBytes(n) == if |v| >= 2 && v[|v| - 1] == 0 && v[|v| - 2] >= 0x80 then v[..|v| - 1] else v
  {
    var d := MinimalBytes(n);
    var v := SignedBytes(n);
    if d != [] && Last(d) >= 0x80 {
      assert v == d + [0];
      assert v[..|v| - 1] == d;
    }
  }

  // DecodeBase58 of a C string: ok exactly for letters between white space.
  method DecodeBase58(psz: string) returns (ok: bool, vchRet: seq<Byte>)
    requires '\0' !in psz
    ensures ok <==> exists i: nat, j: nat :: Spaced(psz, i, j)
    ensures forall i: nat, j: nat :: Spaced(psz, i, j) ==> vchRet == Decoded(psz[i..j])
    ensures !ok ==> vchRet == []
  {
    hide IsSpace, IsLetter, Value, Minimal, SignedBytes, Indices, IndexOf;
    vchRet := [];
    var i := 0;
    while i < |psz| && IsSpace(psz[i])
      invariant i <= |psz| && forall k :: 0 <= k < i ==> IsSpace(psz[k])
    {
      i := i + 1;
    }
    var j, n;
    ok, j, n := ReadLetters(psz, i);
    if !ok {
      return;
    }
    var bn := new CBigNum();
    bn.bn := n;
    var vchTmp := bn.GetVch();
    TrimIsMinimal(n);
    // The top byte of SetVch is its sign; a zero one is dropped.
    if |vchTmp| >= 2 && vchTmp[|vchTmp| - 1] == 0 && vchTmp[|vchTmp| - 2] >= 0x80 {
      vchTmp := vchTmp[..|vchTmp| - 1];
    }
    // Every leading 1 of the string stands for a zero byte.
    var nLeadingZeros := CountOnes(psz, i, j);
    vchRet := Zeros(nLeadingZeros) + Reverse(vchTmp);
    forall i': nat, j': nat | Spaced(psz, i', j')
      ensures vchRet == Decoded(psz[i'..j'])
    {
      SpacedUnique(psz, i, j, i', j');
    }
  }

  method CountOnes(psz: string, i: nat, ghost j: nat) returns (n: nat)
    requires Spaced(psz, i, j)
    ensures n == Leading(Indices(psz[i..j]))
  {
    hide IsSpace, IsLetter, LETTERS, StrChr, Leading;
    FirstLetter();
    ghost var d := Indices(psz[i..j]);
    n := 0;
    if j < |psz| {
      OneIsLetter();
    }
    while i + n < |psz| && psz[i + n] == LETTERS[0]
      invariant i + n <= j && forall k :: 0 <= k < n ==> d[k] == 0
    {
      OneIsLetter();
      assert i + n < j;
      assert psz[i..j][n] == psz[i + n];
      n := n + 1;
    }
    if i + n < j {
      assert psz[i..j][n] == psz[i + n];
      OtherLetter(psz[i + n]);
    }
    LeadingIs(d, n);
  }

  lemma OneIsLetter()
    ensures |LETTERS| == 58 && IsLetter(LETTERS[0]) && IndexOf(LETTERS[0]) == 0 && !IsSpace(LETTERS[0])
  {
    LetterIndex(0);
    NotSpace(LETTERS[0]);
  }

  lemma OtherLetter(c: char)
    requires IsLetter(c) && |LETTERS| == 58 && c != LETTERS[0]
    ensures IndexOf(c) != 0
  {
  }
}
