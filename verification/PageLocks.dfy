/** LockedPageManagerBase: stacking page locks over an operating system whose locks do not stack. */
module PageLocks {
  import opened BitOps
  import opened Numbers
  import Radix

  // size_t of 64 bits
  const TWO_64 := 0x1_0000_0000_0000_0000

  // ---------- masks ----------

  // page_size - 1, which wraps around at 0
  function Less(n: nat): nat
    requires n < TWO_64
  {
    if n == 0 then TWO_64 - 1 else n - 1
  }

  // The test the constructor asserts holds for exactly the powers of two, and for 0.
  lemma PowerOfTwoTest(n: nat)
    requires n < TWO_64
    ensures BitAnd(n, Less(n)) == 0 <==> n == 0 || exists k: nat :: n == Pow2(k)
  {
    if n == 0 {
      AndZero(Less(n));
    } else {
      if BitAnd(n, n - 1) == 0 {
        var k := PowerOfTwo(n);
      }
      forall k: nat | n == Pow2(k)
        ensures BitAnd(n, n - 1) == 0
      {
        PowerTest(k);
      }
    }
  }

  lemma {:induction false} AndZero(n: nat)
    ensures BitAnd(0, n) == 0 && BitAnd(n, 0) == 0
  {
    if n > 0 {
      AndZero(n / 2);
    }
  }

  lemma {:induction false} PowerOfTwo(n: nat) returns (k: nat)
    requires n > 0 && BitAnd(n, n - 1) == 0
    ensures n == Pow2(k)
  {
    if n % 2 == 0 {
      assert (n - 1) / 2 == n / 2 - 1;
      k := PowerOfTwo(n / 2);
      k := k + 1;
    } else {
      // n and n - 1 share the bits above the lowest.
      k := 0;
      assert (n - 1) / 2 == n / 2;
      AndSelf(n / 2);
    }
  }

  lemma {:induction false} AndSelf(n: nat)
    ensures BitAnd(n, n) == n
  {
    if n > 0 {
      AndSelf(n / 2);
    }
  }

  lemma {:induction false} PowerTest(k: nat)
    requires Pow2(k) > 0
    ensures BitAnd(Pow2(k), Pow2(k) - 1) == 0
  {
    if k > 0 {
      assert (Pow2(k) - 1) / 2 == Pow2(k - 1) - 1;
      PowerTest(k - 1);
    }
  }

  // ~(page_size - 1)
  function PageMask(pageSize: nat): nat
    requires pageSize < TWO_64
  {
    TWO_64 - 1 - Less(pageSize)
  }

  lemma MaskMeans(pageSize: nat)
    requires 0 < pageSize < TWO_64
    ensures PageMask(pageSize) == TWO_64 - pageSize
  {
  }

  lemma Pow2Of64()
    ensures Pow2(64) == TWO_64
  {
    assert Pow2(8) == 256;
    PowSum(8, 8);
    PowSum(16, 16);
    PowSum(32, 32);
  }

  // Masking an address gives the start of its page.
  lemma MaskIsFloor(a: nat, k: nat)
    requires a < TWO_64 && k < 64
    ensures 0 < Pow2(k) < TWO_64 && BitAnd(a, PageMask(Pow2(k))) == Floor(a, Pow2(k))
  {
    hide BitAt, Pow2, BitAnd, Floor;
    PageSizes(k);
    var p := Pow2(k);
    forall z: nat
      ensures BitAt(BitAnd(a, PageMask(p)), z) == BitAt(Floor(a, p), z)
    {
      FloorMasked(a, k, z);
    }
    SameBits(BitAnd(a, PageMask(p)), Floor(a, p));
  }

  lemma PageSizes(k: nat)
    requires k < 64
    ensures 0 < Pow2(k) < TWO_64 && 0 < Pow2(64 - k) && PageMask(Pow2(k)) == Pow2(k) * (Pow2(64 - k) - 1)
  {
    hide Pow2, PageMask;
    Pow2Of64();
    Pow2Mono(k, 63);
    Pow2Mono(0, k);
    Pow2Mono(0, 64 - k);
    SmallPowers();
    PowSum(64 - k, k);
    PowSum(63, 1);
    Radix.Factor(Pow2(k), Pow2(64 - k), 1);
    MaskMeans(Pow2(k));
  }

  lemma MaskBit(k: nat, z: nat)
    requires k < 64 && 0 < Pow2(k) < TWO_64
    ensures BitAt(PageMask(Pow2(k)), z) == (k <= z < 64)
  {
    hide BitAt, Pow2, PageMask;
    PageSizes(k);
    BitShift(Pow2(64 - k) - 1, k, z);
    if z >= k {
      OnesBit(64 - k, z - k);
    }
  }

  lemma FloorBit(a: nat, k: nat, z: nat)
    requires Pow2(k) > 0
    ensures BitAt(Floor(a, Pow2(k)), z) == (k <= z && BitAt(a, z))
  {
    hide BitAt, Pow2;
    PartBits(a / Pow2(k), a % Pow2(k), k, z);
    assert a == a / Pow2(k) * Pow2(k) + a % Pow2(k);
  }

  lemma PartBits(q: nat, r: nat, k: nat, z: nat)
    requires r < Pow2(k)
    ensures BitAt(q * Pow2(k), z) == (k <= z && BitAt(q * Pow2(k) + r, z))
  {
    hide BitAt, Pow2;
    SplitBit(q, 0, k, z);
    ZeroBit(z);
    SplitBit(q, r, k, z);
  }

  lemma FloorMasked(a: nat, k: nat, z: nat)
    requires a < TWO_64 && k < 64 && 0 < Pow2(k) < TWO_64
    ensures BitAt(BitAnd(a, PageMask(Pow2(k))), z) == BitAt(Floor(a, Pow2(k)), z)
  {
    hide BitAt, Pow2, BitAnd, PageMask, Floor;
    AndBit(a, PageMask(Pow2(k)), z);
    MaskBit(k, z);
    FloorBit(a, k, z);
    if z >= 64 {
      HighBit(a, z);
    }
  }

  lemma SmallPowers()
    ensures Pow2(0) == 1 && Pow2(1) == 2
  {
  }

  lemma HighBit(a: nat, z: nat)
    requires a < TWO_64 && z >= 64
    ensures !BitAt(a, z)
  {
    hide BitAt, Pow2;
    Pow2Of64();
    TopBit(a, 64, z);
  }

  // ---------- ranges and pages ----------

  datatype Range = Range(base: nat, size: nat)

  // A byte of the range lies in the page that starts at this address.
  ghost predicate Touches(r: Range, pageSize: nat, page: nat) {
    && pageSize > 0 && page % pageSize == 0
    && exists a: nat :: InPage(a, pageSize, page) && r.base <= a < r.base + r.size
  }

  predicate InPage(a: nat, pageSize: nat, page: nat) { page <= a < page + pageSize }

  ghost function Count(live: seq<Range>, pageSize: nat, page: nat): nat {
    if live == [] then 0
    else Count(live[..|live| - 1], pageSize, page) + (if Touches(live[|live| - 1], pageSize, page) then 1 else 0)
  }

  lemma {:induction false} CountWithout(live: seq<Range>, i: nat, pageSize: nat, page: nat)
    requires i < |live|
    ensures Count(live, pageSize, page)
            == Count(live[..i] + live[i + 1..], pageSize, page) + (if Touches(live[i], pageSize, page) then 1 else 0)
  {
    hide Touches;
    var n := |live| - 1;
    var less := live[..i] + live[i + 1..];
    if i == n {
      assert less == live[..n];
    } else {
      assert less[..n - 1] == live[..n][..i] + live[..n][i + 1..];
      assert less[n - 1] == live[n];
      CountWithout(live[..n], i, pageSize, page);
    }
  }

  lemma CountPositive(live: seq<Range>, i: nat, pageSize: nat, page: nat)
    requires i < |live| && Touches(live[i], pageSize, page)
    ensures Count(live, pageSize, page) > 0
  {
    hide Touches;
    CountWithout(live, i, pageSize, page);
  }

  // The pages from that of the first byte to that of the last are those the range touches.
  lemma TouchedPages(r: Range, p: nat, page: nat)
    requires p > 0 && r.size > 0
    ensures Touches(r, p, page) <==> page % p == 0 && Floor(r.base, p) <= page <= Floor(r.base + r.size - 1, p)
  {
    hide Floor;
    var first, last := r.base, r.base + r.size - 1;
    if page % p == 0 {
      SameOrNext(p, page, Floor(first, p));
      SameOrNext(p, Floor(last, p), page);
      if Floor(first, p) <= page <= Floor(last, p) {
        var a := if page <= first then first else page;
        assert InPage(a, p, page) && r.base <= a < r.base + r.size;
      }
    }
  }

  // Of two page starts, one not below the other is the same or at least a page above.
  lemma SameOrNext(p: nat, a: nat, b: nat)
    requires p > 0 && a % p == 0 && b % p == 0
    ensures a == b || a + p <= b || b + p <= a
  {
    assert a == p * (a / p) && b == p * (b / p);
    Radix.Factor(p, a / p, b / p);
    Radix.MulBound(p, a / p - b / p);
  }

  lemma NextPage(p: nat, a: nat)
    requires p > 0 && a % p == 0
    ensures (a + p) % p == 0
  {
    assert a == p * (a / p);
    Radix.DivUnique(a + p, p, a / p + 1, 0);
  }

  // Stepping past the last page does not overflow exactly when the range ends before the last page there is.
  lemma StepsPast(r: Range, k: nat)
    requires k < 64 && r.size > 0 && r.base + r.size <= TWO_64
    ensures 0 < Pow2(k)
    ensures Floor(r.base + r.size - 1, Pow2(k)) + Pow2(k) < TWO_64 <==> r.base + r.size <= TWO_64 - Pow2(k)
  {
    hide Pow2, Floor;
    PageSizes(k);
    var p, last := Pow2(k), r.base + r.size - 1;
    Pow2Of64();
    PowSum(64 - k, k);
    Radix.DivUnique(TWO_64, p, Pow2(64 - k), 0);
    NextPage(p, Floor(last, p));
    SameOrNext(p, Floor(last, p) + p, TWO_64);
  }

  // The loop variable after n steps, in a size_t.
  function PageAt(start: nat, pageSize: nat, n: nat): nat { (start + pageSize * n) % TWO_64 }

  // The loop over a range passes its last page after some steps.
  ghost predicate LoopEnds(pageSize: nat, base: nat, size: nat)
    requires pageSize < TWO_64 && size > 0
  {
    var startPage, endPage := BitAnd(base, PageMask(pageSize)), BitAnd(base + size - 1, PageMask(pageSize));
    exists n: nat :: PageAt(startPage, pageSize, n) > endPage
  }

  // It does exactly when pages have a size and the range ends before the last page there is.
  lemma LoopEndsExactly(pageSize: nat, base: nat, size: nat)
    requires pageSize < TWO_64 && BitAnd(pageSize, Less(pageSize)) == 0
    requires size > 0 && base + size <= TWO_64
    ensures LoopEnds(pageSize, base, size) <==> pageSize > 0 && base + size <= TWO_64 - pageSize
  {
    hide BitAnd, Pow2, Floor, PageAt, PageMask;
    if pageSize == 0 {
      ZeroSizeStays(base, size);
    } else {
      var k := PowerOfTwo(pageSize);
      SmallExponent(k);
      MaskIsFloor(base, k);
      MaskIsFloor(base + size - 1, k);
      StepsPast(Range(base, size), k);
      var startPage, endPage := Floor(base, pageSize), Floor(base + size - 1, pageSize);
      if endPage + pageSize < TWO_64 {
        FloorMono(base, base + size - 1, pageSize);
        var n := StepOver(startPage, endPage, pageSize);
      } else {
        NeverOver(startPage, endPage, k);
      }
    }
  }

  lemma FloorMono(a: nat, b: nat, p: nat)
    requires p > 0 && a <= b
    ensures Floor(a, p) <= Floor(b, p)
  {
    hide Floor;
    SameOrNext(p, Floor(a, p), Floor(b, p));
  }

  lemma ZeroSizeStays(base: nat, size: nat)
    requires size > 0
    ensures !LoopEnds(0, base, size)
  {
    hide BitAnd, PageAt;
    AndZero(base);
    AndZero(base + size - 1);
    forall n: nat
      ensures PageAt(0, 0, n) == 0
    {
      StandsStill(n);
    }
  }

  lemma NeverOver(start: nat, end: nat, k: nat)
    requires k < 64 && 0 < Pow2(k) && start % Pow2(k) == 0 && end % Pow2(k) == 0 && end + Pow2(k) >= TWO_64
    ensures forall n: nat :: PageAt(start, Pow2(k), n) <= end
  {
    hide Pow2, PageAt;
    forall n: nat
      ensures PageAt(start, Pow2(k), n) <= end
    {
      StepsWithin(start, k, n);
      SameOrNext(Pow2(k), PageAt(start, Pow2(k), n), end);
    }
  }

  lemma StandsStill(n: nat)
    ensures PageAt(0, 0, n) == 0
  {
  }

  lemma StepOver(start: nat, end: nat, p: nat) returns (n: nat)
    requires p > 0 && start % p == 0 && end % p == 0 && start <= end && end + p < TWO_64
    ensures PageAt(start, p, n) > end
  {
    n := end / p - start / p + 1;
    assert start == p * (start / p) && end == p * (end / p);
    Radix.Factor(p, end / p, start / p);
    Radix.MulBound(p, end / p - start / p);
    assert p * n == p * (end / p - start / p) + p;
  }

  // Every step is at a page start below the end of the address space.
  lemma StepsWithin(start: nat, k: nat, n: nat)
    requires k < 64 && 0 < Pow2(k) && start % Pow2(k) == 0
    ensures PageAt(start, Pow2(k), n) < TWO_64 && PageAt(start, Pow2(k), n) % Pow2(k) == 0
  {
    hide Pow2;
    var p, q := Pow2(k), Pow2(64 - k);
    Pow2Of64();
    PowSum(k, 64 - k);
    var x := start + p * n;
    Steps(p, q, start / p + n, x / TWO_64, x % TWO_64);
  }

  lemma Steps(p: nat, q: nat, u: nat, w: nat, r: nat)
    requires p > 0 && p * u == (p * q) * w + r
    ensures r % p == 0
  {
    assert (p * q) * w == p * (q * w);
    Radix.Factor(p, u, q * w);
    Radix.MulBound(p, u - q * w);
    Radix.DivUnique(r, p, u - q * w, 0);
  }

  // ---------- the manager ----------

  function Locks(histogram: map<nat, nat>, page: nat): nat {
    if page in histogram then histogram[page] else 0
  }

  class LockedPageManager {
    const pageSize: nat
    const pageMask: nat
    var histogram: map<nat, nat>
    // The pages the operating system holds.
    var locked: set<nat>
    // The ranges locked and not yet unlocked.
    ghost var live: seq<Range>

    ghost predicate Valid()
      reads this
    {
      && pageSize < TWO_64 && pageMask == PageMask(pageSize)
      && (pageSize > 0 ==> exists k: nat :: k < 64 && pageSize == Pow2(k))
      && (forall page: nat :: Locks(histogram, page) == Count(live, pageSize, page))
      && (forall page :: page in histogram ==> histogram[page] > 0)
      && locked == histogram.Keys
    }

    constructor (pageSize: nat)
      requires pageSize < TWO_64 && BitAnd(pageSize, Less(pageSize)) == 0
      ensures Valid() && live == [] && this.pageSize == pageSize
    {
      this.pageSize := pageSize;
      this.pageMask := PageMask(pageSize);
      histogram := map[];
      locked := {};
      live := [];
      new;
      if pageSize > 0 {
        var k := PowerOfTwo(pageSize);
        SmallExponent(k);
      }
    }

    // A page is held exactly while some live range touches it, and its count is how many do.
    lemma HeldWhileTouched(page: nat)
      requires Valid()
      ensures page in locked <==> exists i :: 0 <= i < |live| && Touches(live[i], pageSize, page)
      ensures Locks(histogram, page) == Count(live, pageSize, page)
    {
      hide Touches;
      if page in locked {
        var i := FindTouching(live, pageSize, page);
      }
      forall i | 0 <= i < |live| && Touches(live[i], pageSize, page)
        ensures page in locked
      {
        CountPositive(live, i, pageSize, page);
        assert Locks(histogram, page) == Count(live, pageSize, page);
      }
    }

    method LockRange(p: nat, size: nat)
      requires Valid() && (size == 0 || (0 < pageSize && p + size <= TWO_64 - pageSize))
      modifies this
      ensures Valid() && live == old(live) + [Range(p, size)]
    {
      hide Pow2, BitAnd, Touches, Count, Floor;
      ghost var r := Range(p, size);
      if size == 0 {
        EmptyTouchesNothing(live, pageSize, r);
        live := live + [r];
        return;
      }
      Masks(p, size);
      var startPage, endPage := BitAnd(p, pageMask), BitAnd(p + size - 1, pageMask);
      var page := startPage;
      forall q: nat
        ensures Touches(r, pageSize, q) <==> q % pageSize == 0 && startPage <= q <= endPage
      {
        TouchedPages(r, pageSize, q);
      }
      while page <= endPage
        invariant page % pageSize == 0 && startPage <= page && page < TWO_64
        invariant forall q: nat :: Locks(histogram, q)
                    == Count(live, pageSize, q) + (if Touches(r, pageSize, q) && q < page then 1 else 0)
        invariant forall q :: q in histogram ==> histogram[q] > 0
        invariant locked == histogram.Keys
        invariant live == old(live)
        decreases endPage + pageSize - page
      {
        if page !in histogram {
          locked := locked + {page};
          histogram := histogram[page := 1];
        } else {
          histogram := histogram[page := histogram[page] + 1];
        }
        NextPage(pageSize, page);
        forall q: nat | Touches(r, pageSize, q) && page <= q < page + pageSize
          ensures q == page
        {
          SameOrNext(pageSize, page, q);
        }
        page := page + pageSize;
      }
      forall q: nat
        ensures Locks(histogram, q) == Count(live + [r], pageSize, q)
      {
        CountNext(live, r, pageSize, q);
      }
      live := live + [r];
    }

    // Number i of the live ranges is given back.
    method UnlockRange(p: nat, size: nat, ghost i: nat)
      requires Valid() && (size == 0 || (0 < pageSize && p + size <= TWO_64 - pageSize))
      requires i < |live| && live[i] == Range(p, size)
      modifies this
      ensures Valid() && live == old(live)[..i] + old(live)[i + 1..]
    {
      hide Pow2, BitAnd, Touches, Count, Floor;
      ghost var r, less := Range(p, size), live[..i] + live[i + 1..];
      forall q: nat
        ensures Count(live, pageSize, q) == Count(less, pageSize, q) + (if Touches(r, pageSize, q) then 1 else 0)
      {
        CountWithout(live, i, pageSize, q);
      }
      if size == 0 {
        EmptyTouchesNothing(live, pageSize, r);
        live := less;
        return;
      }
      Masks(p, size);
      var startPage, endPage := BitAnd(p, pageMask), BitAnd(p + size - 1, pageMask);
      var page := startPage;
      forall q: nat
        ensures Touches(r, pageSize, q) <==> q % pageSize == 0 && startPage <= q <= endPage
      {
        TouchedPages(r, pageSize, q);
      }
      while page <= endPage
        invariant page % pageSize == 0 && startPage <= page && page < TWO_64
        invariant forall q: nat :: Locks(histogram, q)
                    == Count(less, pageSize, q) + (if Touches(r, pageSize, q) && q >= page then 1 else 0)
        invariant forall q :: q in histogram ==> histogram[q] > 0
        invariant locked == histogram.Keys
        invariant live == old(live)
        decreases endPage + pageSize - page
      {
        // The source asserts this.
        assert page in histogram by {
          assert Locks(histogram, page) >= 1;
        }
        histogram := histogram[page := histogram[page] - 1];
        if histogram[page] == 0 {
          locked := locked - {page};
          histogram := histogram - {page};
        }
        NextPage(pageSize, page);
        forall q: nat | Touches(r, pageSize, q) && page <= q < page + pageSize
          ensures q == page
        {
          SameOrNext(pageSize, page, q);
        }
        page := page + pageSize;
      }
      live := less;
    }

    lemma Masks(p: nat, size: nat)
      requires Valid() && 0 < size && 0 < pageSize && p + size <= TWO_64 - pageSize
      ensures BitAnd(p, pageMask) == Floor(p, pageSize)
      ensures BitAnd(p + size - 1, pageMask) == Floor(p + size - 1, pageSize)
      ensures Floor(p + size - 1, pageSize) + pageSize < TWO_64
    {
      hide Pow2, BitAnd, Floor;
      var k: nat :| k < 64 && pageSize == Pow2(k);
      MaskIsFloor(p, k);
      MaskIsFloor(p + size - 1, k);
    }
  }

  lemma SmallExponent(k: nat)
    requires Pow2(k) < TWO_64
    ensures k < 64
  {
    Pow2Of64();
    if k >= 64 {
      Pow2Mono(64, k);
    }
  }

  lemma CountNext(live: seq<Range>, r: Range, pageSize: nat, page: nat)
    ensures Count(live + [r], pageSize, page) == Count(live, pageSize, page) + (if Touches(r, pageSize, page) then 1 else 0)
  {
    assert (live + [r])[..|live|] == live;
  }

  lemma EmptyTouchesNothing(live: seq<Range>, pageSize: nat, r: Range)
    requires r.size == 0
    ensures forall page: nat :: !Touches(r, pageSize, page) && Count(live + [r], pageSize, page) == Count(live, pageSize, page)
  {
    forall page: nat
      ensures Count(live + [r], pageSize, page) == Count(live, pageSize, page)
    {
      CountNext(live, r, pageSize, page);
    }
  }

  lemma {:induction false} FindTouching(live: seq<Range>, pageSize: nat, page: nat) returns (i: nat)
    requires Count(live, pageSize, page) > 0
    ensures i < |live| && Touches(live[i], pageSize, page)
  {
    var n := |live| - 1;
    if Touches(live[n], pageSize, page) {
      i := n;
    } else {
      i := FindTouching(live[..n], pageSize, page);
    }
  }
}
