/** The kernel protocol of kernel.cpp: the modifier a coin hashes with, and the search for a time at which it hits. */
module StakeKernel {
  import opened Numbers
  import opened Radix
  import opened StakeModifier
  import BigNum
  import BitOps

  const TWO_32 := 0x1_0000_0000
  const COIN := 1000000
  const DAY := 86400

  // ---------- GetKernelStakeModifier ----------

  // pnext of the block: only blocks of the main chain have one.
  predicate HasNext(main: seq<BlockIndex>, b: BlockIndex) {
    b.height + 1 < |main| && main[b.height] == b
  }

  // Block j of the main chain is the first after from that generated a modifier no earlier than the given time.
  ghost predicate FirstAfter(main: seq<BlockIndex>, from: BlockIndex, time: nat, j: nat) {
    && from.height < j < |main| && main[from.height] == from
    && main[j].generated && main[j].time >= time
    && forall k :: from.height < k < j ==> !(main[k].generated && main[k].time >= time)
  }

  // Where GetKernelStakeModifier ends for a coin of block from.
  ghost predicate KernelBlock(main: seq<BlockIndex>, from: BlockIndex, fTestNet: bool, j: nat) {
    FirstAfter(main, from, from.time + Sections(fTestNet, 64), j)
  }

  ghost predicate Heights(main: seq<BlockIndex>) {
    forall i :: 0 <= i < |main| ==> main[i].height == i
  }

  lemma SectionsPositive(fTestNet: bool, n: nat)
    requires 0 < n <= 64
    ensures Sections(fTestNet, n) > 0
  {
    if n > 1 {
      SectionsPositive(fTestNet, n - 1);
    } else {
      assert Sections(fTestNet, 1) == Sections(fTestNet, 0) + Section(fTestNet, 0);
      assert Section(fTestNet, 0) == IntervalVersion(fTestNet) * 63 / 189;
    }
  }

  method GetKernelStakeModifier(hashBlockFrom: nat, index: map<nat, BlockIndex>, main: seq<BlockIndex>, fTestNet: bool)
    returns (ok: bool, nStakeModifier: nat, nStakeModifierHeight: nat, nStakeModifierTime: nat)
    requires Heights(main)
    ensures ok <==> hashBlockFrom in index && exists j: nat :: KernelBlock(main, index[hashBlockFrom], fTestNet, j)
    ensures ok ==> forall j: nat :: KernelBlock(main, index[hashBlockFrom], fTestNet, j) ==>
              nStakeModifier == main[j].modifier && nStakeModifierHeight == j && nStakeModifierTime == main[j].time
    ensures !ok ==> nStakeModifier == 0
  {
    hide Sections;
    nStakeModifier, nStakeModifierHeight, nStakeModifierTime := 0, 0, 0;
    if hashBlockFrom !in index {
      return false, 0, 0, 0;
    }
    var from := index[hashBlockFrom];
    nStakeModifierHeight := from.height;
    nStakeModifierTime := from.time;
    var nStakeModifierSelectionInterval := GetStakeModifierSelectionInterval(fTestNet);
    SectionsPositive(fTestNet, 64);
    var time := from.time + nStakeModifierSelectionInterval;
    var pindex := from;
    while nStakeModifierTime < time
      invariant pindex == from || (from.height < pindex.height < |main| && main[pindex.height] == pindex && main[from.height] == from)
      invariant pindex.height >= from.height
      invariant forall k :: from.height < k < pindex.height ==> !(main[k].generated && main[k].time >= time)
      invariant if nStakeModifierTime >= time then
                  pindex != from && nStakeModifierTime == pindex.time && nStakeModifierHeight == pindex.height && pindex.generated
                else pindex != from ==> !(pindex.generated && pindex.time >= time)
      decreases |main| - pindex.height, time > nStakeModifierTime
    {
      if !HasNext(main, pindex) {
        return false, 0, nStakeModifierHeight, nStakeModifierTime;
      }
      pindex := main[pindex.height + 1];
      if pindex.generated {
        nStakeModifierHeight := pindex.height;
        nStakeModifierTime := pindex.time;
      }
    }
    assert KernelBlock(main, from, fTestNet, pindex.height);
    return true, pindex.modifier, nStakeModifierHeight, nStakeModifierTime;
  }

  // Once found, the modifier does not change when the main chain grows.
  lemma KernelModifierStable(main: seq<BlockIndex>, more: seq<BlockIndex>, from: BlockIndex, fTestNet: bool, j: nat)
    requires KernelBlock(main, from, fTestNet, j)
    ensures KernelBlock(main + more, from, fTestNet, j)
    ensures forall k: nat :: KernelBlock(main + more, from, fTestNet, k) ==> k == j && (main + more)[k].modifier == main[j].modifier
  {
    hide Sections;
    assert forall i :: 0 <= i < |main| ==> (main + more)[i] == main[i];
  }

  // ---------- CheckStakeKernelHash ----------

  // What stakeHash hashes.
  datatype Kernel = Kernel(modifier: nat, timeBlockFrom: nat, txPrevOffset: nat, txPrevTime: nat, prevoutIndex: nat, timeTx: nat)

  // The coin, the network's ages and the compact target.
  datatype Coin = Coin(blockFrom: BlockIndex, txPrevOffset: nat, txPrevTime: nat, prevoutIndex: nat, value: int,
                       minAge: nat, maxAge: nat, bits: nat)

  // unsigned int and int64 operands
  ghost predicate InRange(c: Coin) {
    c.blockFrom.time < TWO_32 && c.txPrevTime < TWO_32 && c.minAge < TWO_32 && c.bits < TWO_32
  }

  // BN_div: towards zero
  function TruncDiv(n: int, d: nat): int
    requires d > 0
  {
    if n >= 0 then n / d else -((-n) / d)
  }

  // The coin weight stakeTargetHit uses.
  function CoinWeight(c: Coin, age: nat): int {
    TruncDiv(TruncDiv(c.value * (Min(age, c.maxAge) - c.minAge), COIN), DAY)
  }

  // The weight is the coin age in days and whole coins: one division, towards zero.
  lemma WeightIs(c: Coin, age: nat)
    ensures var x := c.value * (Min(age, c.maxAge) - c.minAge);
            CoinWeight(c, age) == if x >= 0 then x / 86_400_000_000 else -((-x) / 86_400_000_000)
  {
    var x := c.value * (Min(age, c.maxAge) - c.minAge);
    DividedTwice(if x >= 0 then x else -x);
  }

  lemma DividedTwice(n: nat)
    ensures n / 1000000 / 86400 == n / 86_400_000_000
  {
  }

  function Target(c: Coin): int { BigNum.Expanded(c.bits) }

  // stakeTargetHit
  predicate Hit(c: Coin, hash: nat, age: nat) {
    hash < CoinWeight(c, age) * Target(c)
  }

  function KernelAt(c: Coin, modifier: nat, time: nat): Kernel {
    Kernel(modifier, c.blockFrom.time, c.txPrevOffset, c.txPrevTime, c.prevoutIndex, time)
  }

  // (int64)nTimeTx - nTxPrevTime, passed as an unsigned int
  function Age(c: Coin, time: nat): nat { (time - c.txPrevTime) % TWO_32 }

  // The tests before any hashing.
  predicate OldEnough(c: Coin, time: nat) {
    time >= c.txPrevTime && (c.blockFrom.time + c.minAge) % TWO_32 <= time
  }

  // What a verifier accepts at a time.
  ghost predicate Valid(c: Coin, modifier: nat, hash: Kernel -> nat, time: nat) {
    OldEnough(c, time) && Hit(c, hash(KernelAt(c, modifier, time)), Age(c, time))
  }

  // The same with everything written out that a verifier hashes and compares.
  lemma ValidIs(c: Coin, modifier: nat, hash: Kernel -> nat, time: nat)
    requires c.txPrevTime < TWO_32 && time < TWO_32
    ensures Valid(c, modifier, hash, time) <==>
              && c.txPrevTime <= time && (c.blockFrom.time + c.minAge) % 0x1_0000_0000 <= time
              && var x := c.value * (Min(time - c.txPrevTime, c.maxAge) - c.minAge);
                 hash(Kernel(modifier, c.blockFrom.time, c.txPrevOffset, c.txPrevTime, c.prevoutIndex, time))
                 < (if x >= 0 then x / 86_400_000_000 else -((-x) / 86_400_000_000)) * BigNum.Expanded(c.bits)
  {
    hide CoinWeight;
    if c.txPrevTime <= time {
      WeightIs(c, time - c.txPrevTime);
    }
  }

  // The time attempt i of the search tries.
  function TryTime(time: nat, drift: nat, i: nat): nat
    requires i < drift
  {
    (time + drift - i) % TWO_32
  }

  lemma TruncDivMono(x: int, y: int, d: nat)
    requires d == COIN || d == DAY
    requires x <= y
    ensures TruncDiv(x, d) <= TruncDiv(y, d)
  {
  }

  // A non-negative coin never weighs less when older.
  lemma WeightMono(c: Coin, age: nat, age': nat)
    requires c.value >= 0 && age <= age'
    ensures CoinWeight(c, age) <= CoinWeight(c, age')
  {
    hide TruncDiv;
    var x, y := Min(age, c.maxAge) - c.minAge, Min(age', c.maxAge) - c.minAge;
    MulMono(c.value, x, y);
    TruncDivMono(c.value * x, c.value * y, COIN);
    TruncDivMono(TruncDiv(c.value * x, COIN), TruncDiv(c.value * y, COIN), DAY);
  }

  // A non-positive coin never weighs more when older.
  lemma WeightFalls(c: Coin, age: nat, age': nat)
    requires c.value <= 0 && age <= age'
    ensures CoinWeight(c, age) >= CoinWeight(c, age')
  {
    hide TruncDiv;
    var x, y := Min(age, c.maxAge) - c.minAge, Min(age', c.maxAge) - c.minAge;
    MulMono(-c.value, x, y);
    assert c.value * x == -(-c.value * x) && c.value * y == -(-c.value * y);
    TruncDivMono(c.value * y, c.value * x, COIN);
    TruncDivMono(TruncDiv(c.value * y, COIN), TruncDiv(c.value * x, COIN), DAY);
  }

  // The number a hash must stay below.
  function Bound(c: Coin, age: nat): int { CoinWeight(c, age) * Target(c) }

  predicate SameSigns(c: Coin) {
    (c.value >= 0 && Target(c) >= 0) || (c.value <= 0 && Target(c) <= 0)
  }

  lemma SameSignsIs(c: Coin)
    ensures SameSigns(c) <==> c.value * Target(c) >= 0
  {
    hide Target;
    var v, t := c.value, Target(c);
    if v > 0 {
      MulBound(v, t);
      MulMono(v, 0, if t >= 0 then t else 0);
    } else if v < 0 {
      MulBound(-v, -t);
      MulMono(-v, 0, if t <= 0 then -t else 0);
    }
  }

  // What holds of every coin of an accepted block: its transaction is not later than the block,
  // the age at which it may stake is not past the 32-bit range, and ages are capped no lower than that.
  predicate Ordered(c: Coin) {
    c.txPrevTime <= c.blockFrom.time && c.blockFrom.time + c.minAge < TWO_32 && c.minAge <= c.maxAge
  }

  lemma BoundMono(c: Coin, age: nat, age': nat)
    requires SameSigns(c) && age <= age'
    ensures Bound(c, age) <= Bound(c, age')
  {
    hide CoinWeight, Target;
    if c.value >= 0 && Target(c) >= 0 {
      WeightMono(c, age, age');
      MulMono(Target(c), CoinWeight(c, age), CoinWeight(c, age'));
    } else {
      WeightFalls(c, age, age');
      MulMono(-Target(c), CoinWeight(c, age'), CoinWeight(c, age));
      Negated(Target(c), CoinWeight(c, age));
      Negated(Target(c), CoinWeight(c, age'));
    }
  }

  lemma Negated(x: int, y: int)
    ensures -x * y == -(x * y) && x * y == y * x
  {
  }

  // Past the minimum age the weight has the sign of the value, so with different signs nothing hits.
  lemma BoundSign(c: Coin, age: nat)
    requires !SameSigns(c) && c.minAge <= age && c.minAge <= c.maxAge
    ensures Bound(c, age) <= 0
  {
    hide CoinWeight, Target;
    WeightSign(c, age);
    if c.value >= 0 {
      MulMono(CoinWeight(c, age), Target(c), 0);
    } else {
      MulMono(-CoinWeight(c, age), 0, Target(c));
      Negated(CoinWeight(c, age), Target(c));
    }
  }

  lemma WeightSign(c: Coin, age: nat)
    requires c.minAge <= age && c.minAge <= c.maxAge
    ensures if c.value >= 0 then CoinWeight(c, age) >= 0 else CoinWeight(c, age) <= 0
  {
    hide TruncDiv;
    TruncDivZero();
    var x := Min(age, c.maxAge) - c.minAge;
    if c.value >= 0 {
      MulMono(c.value, 0, x);
      TruncDivMono(0, c.value * x, COIN);
      TruncDivMono(0, TruncDiv(c.value * x, COIN), DAY);
    } else {
      MulMono(-c.value, 0, x);
      Negated(c.value, x);
      TruncDivMono(c.value * x, 0, COIN);
      TruncDivMono(TruncDiv(c.value * x, COIN), 0, DAY);
    }
  }

  lemma TruncDivZero()
    ensures TruncDiv(0, COIN) == 0 && TruncDiv(0, DAY) == 0
  {
  }

  lemma OldAge(c: Coin, time: nat)
    requires Ordered(c) && OldEnough(c, time) && time < TWO_32
    ensures Age(c, time) == time - c.txPrevTime >= c.minAge
  {
  }

  // A hit weighed with the age of an earlier time is a hit for the verifier.
  lemma HitStays(c: Coin, modifier: nat, hash: Kernel -> nat, before: nat, time: nat)
    requires SameSigns(c) || Ordered(c)
    requires OldEnough(c, before) && before <= time < TWO_32
    requires Hit(c, hash(KernelAt(c, modifier, time)), Age(c, before))
    ensures Valid(c, modifier, hash, time)
  {
    hide CoinWeight, Target, SameSigns;
    if SameSigns(c) {
      BoundMono(c, Age(c, before), Age(c, time));
    } else {
      OldAge(c, before);
      BoundSign(c, Age(c, before));
    }
  }

  // ---------- the search ----------

  datatype Outcome = Outcome(found: bool, time: nat)

  // The search after n attempts. Each attempt is weighed with the age of the time found last.
  function Searched(c: Coin, modifier: nat, time0: nat, drift: nat, hash: Kernel -> nat, n: nat): Outcome
    requires n <= drift
  {
    if n == 0 then Outcome(false, time0)
    else
      var o := Searched(c, modifier, time0, drift, hash, n - 1);
      var try := TryTime(o.time, drift, n - 1);
      if Hit(c, hash(KernelAt(c, modifier, try)), Age(c, o.time)) then Outcome(true, try) else o
  }

  lemma SearchedNext(c: Coin, modifier: nat, time0: nat, drift: nat, hash: Kernel -> nat, n: nat)
    requires n < drift
    ensures var o := Searched(c, modifier, time0, drift, hash, n);
            var try := TryTime(o.time, drift, n);
            Searched(c, modifier, time0, drift, hash, n + 1)
            == if Hit(c, hash(KernelAt(c, modifier, try)), Age(c, o.time)) then Outcome(true, try) else o
  {
  }

  lemma NotSearched(c: Coin, modifier: nat, time0: nat, drift: nat, hash: Kernel -> nat)
    ensures Searched(c, modifier, time0, drift, hash, 0) == Outcome(false, time0)
  {
  }

  function Triangle(d: nat): nat { d * (d + 1) / 2 }

  // No unsigned overflow, even if every attempt hits.
  predicate NoWrap(time: nat, drift: nat) {
    time + Triangle(drift) < TWO_32
  }

  lemma TriangleStep(d: nat)
    requires d > 0
    ensures Triangle(d) == Triangle(d - 1) + d
  {
    assert d * (d + 1) == (d - 1) * d + 2 * d;
  }

  lemma TryLater(time0: nat, drift: nat, time: nat, i: nat)
    requires i < drift && NoWrap(time0, drift) && time + Triangle(drift - i) <= time0 + Triangle(drift)
    ensures TryTime(time, drift, i) == time + drift - i < TWO_32
    ensures (time + drift - i) + Triangle(drift - i - 1) <= time0 + Triangle(drift)
    ensures Triangle(drift - i - 1) <= Triangle(drift - i)
  {
    hide Triangle;
    TriangleStep(drift - i);
  }

  // Attempt i from the start time hits.
  ghost predicate FirstHit(c: Coin, modifier: nat, hash: Kernel -> nat, time: nat, drift: nat, i: nat) {
    i < drift && Hit(c, hash(KernelAt(c, modifier, TryTime(time, drift, i))), Age(c, time))
  }

  // The times tried from a start are the next ones, as many as there are attempts, modulo 2^32.
  lemma TriedTimes(time: nat, drift: nat, t: nat)
    requires time < TWO_32 && drift < TWO_32
    ensures (exists i: nat :: i < drift && TryTime(time, drift, i) == t)
            <==> t < 0x1_0000_0000 && (t - time - 1) % 0x1_0000_0000 < drift
  {
    var d := (t - time - 1) % 0x1_0000_0000;
    if t < 0x1_0000_0000 && d < drift {
      assert TryTime(time, drift, drift - 1 - d) == t;
    }
    if i: nat :| i < drift && TryTime(time, drift, i) == t {
      assert time + drift - i < 2 * TWO_32;
    }
  }

  lemma BoundIs(c: Coin, time: nat)
    requires c.txPrevTime <= time < TWO_32
    ensures var x := c.value * (Min(time - c.txPrevTime, c.maxAge) - c.minAge);
            Bound(c, Age(c, time)) == (if x >= 0 then x / 86_400_000_000 else -((-x) / 86_400_000_000)) * BigNum.Expanded(c.bits)
  {
    hide CoinWeight;
    WeightIs(c, time - c.txPrevTime);
  }

  lemma AttemptIs(c: Coin, modifier: nat, hash: Kernel -> nat, time: nat, drift: nat, i: nat)
    ensures FirstHit(c, modifier, hash, time, drift, i) <==>
              i < drift && hash(Kernel(modifier, c.blockFrom.time, c.txPrevOffset, c.txPrevTime, c.prevoutIndex,
                                       TryTime(time, drift, i))) < Bound(c, Age(c, time))
  {
  }

  // A search from there succeeds exactly if the kernel of one of these times stays below the bound of the start.
  lemma SearchIs(c: Coin, modifier: nat, hash: Kernel -> nat, time: nat, drift: nat)
    requires time < TWO_32 && drift < TWO_32
    ensures (exists i: nat :: FirstHit(c, modifier, hash, time, drift, i)) <==>
              exists t: nat :: t < 0x1_0000_0000 && (t - time - 1) % 0x1_0000_0000 < drift
                && hash(Kernel(modifier, c.blockFrom.time, c.txPrevOffset, c.txPrevTime, c.prevoutIndex, t)) < Bound(c, Age(c, time))
  {
    hide Bound, TryTime, FirstHit, Age;
    if i: nat :| FirstHit(c, modifier, hash, time, drift, i) {
      AttemptIs(c, modifier, hash, time, drift, i);
      TriedTimes(time, drift, TryTime(time, drift, i));
    }
    if t: nat :| t < 0x1_0000_0000 && (t - time - 1) % 0x1_0000_0000 < drift
                 && hash(Kernel(modifier, c.blockFrom.time, c.txPrevOffset, c.txPrevTime, c.prevoutIndex, t)) < Bound(c, Age(c, time))
    {
      TriedTimes(time, drift, t);
      var i: nat :| i < drift && TryTime(time, drift, i) == t;
      AttemptIs(c, modifier, hash, time, drift, i);
    }
  }

  // Until the first hit the time does not move, so the search succeeds exactly when some attempt hits at the start.
  lemma {:induction false} SearchedFinds(c: Coin, modifier: nat, time0: nat, drift: nat, hash: Kernel -> nat, n: nat)
    requires n <= drift
    ensures var o := Searched(c, modifier, time0, drift, hash, n);
            && (o.found <==> exists i: nat :: i < n && FirstHit(c, modifier, hash, time0, drift, i))
            && (!o.found ==> o.time == time0)
  {
    hide Hit, KernelAt, Age, Searched;
    NotSearched(c, modifier, time0, drift, hash);
    if n > 0 {
      SearchedFinds(c, modifier, time0, drift, hash, n - 1);
      SearchedNext(c, modifier, time0, drift, hash, n - 1);
      var o := Searched(c, modifier, time0, drift, hash, n - 1);
      if !o.found && Searched(c, modifier, time0, drift, hash, n).found {
        assert FirstHit(c, modifier, hash, time0, drift, n - 1);
      }
    }
  }

  // Without overflow the time moves up by at most the triangle number.
  lemma {:induction false} SearchedBound(c: Coin, modifier: nat, time0: nat, drift: nat, hash: Kernel -> nat, n: nat)
    requires n <= drift && NoWrap(time0, drift)
    ensures var o := Searched(c, modifier, time0, drift, hash, n);
            && time0 <= o.time && o.time + Triangle(drift - n) <= time0 + Triangle(drift)
            && (o.found ==> time0 < o.time)
  {
    hide Hit, KernelAt, Age, Triangle, Searched, TryTime;
    NotSearched(c, modifier, time0, drift, hash);
    if n > 0 {
      SearchedBound(c, modifier, time0, drift, hash, n - 1);
      SearchedNext(c, modifier, time0, drift, hash, n - 1);
      TryLater(time0, drift, Searched(c, modifier, time0, drift, hash, n - 1).time, n - 1);
    }
  }

  // And the verifier accepts it.
  lemma {:induction false} SearchedValid(c: Coin, modifier: nat, time0: nat, drift: nat, hash: Kernel -> nat, n: nat)
    requires n <= drift && NoWrap(time0, drift) && OldEnough(c, time0) && (SameSigns(c) || Ordered(c))
    ensures var o := Searched(c, modifier, time0, drift, hash, n);
            OldEnough(c, o.time) && (o.found ==> Valid(c, modifier, hash, o.time))
  {
    hide Hit, KernelAt, Age, Triangle, Searched, TryTime, SameSigns, Ordered, Valid;
    NotSearched(c, modifier, time0, drift, hash);
    if n > 0 {
      var o := Searched(c, modifier, time0, drift, hash, n - 1);
      SearchedValid(c, modifier, time0, drift, hash, n - 1);
      SearchedBound(c, modifier, time0, drift, hash, n - 1);
      SearchedNext(c, modifier, time0, drift, hash, n - 1);
      TryLater(time0, drift, o.time, n - 1);
      var try := TryTime(o.time, drift, n - 1);
      if Hit(c, hash(KernelAt(c, modifier, try)), Age(c, o.time)) {
        HitStays(c, modifier, hash, o.time, try);
      }
    }
  }

  // The search of CheckStakeKernelHash, after the checks.
  method Search(c: Coin, modifier: nat, nTimeTx0: nat, nHashDrift: nat, hash: Kernel -> nat)
    returns (fSuccess: bool, nTimeTx: nat)
    requires OldEnough(c, nTimeTx0) && nTimeTx0 < TWO_32 && nHashDrift < TWO_32
    ensures Outcome(fSuccess, nTimeTx) == Searched(c, modifier, nTimeTx0, nHashDrift, hash, nHashDrift)
    ensures fSuccess <==> exists i: nat :: FirstHit(c, modifier, hash, nTimeTx0, nHashDrift, i)
    ensures !fSuccess ==> nTimeTx == nTimeTx0
    ensures NoWrap(nTimeTx0, nHashDrift) && fSuccess ==> nTimeTx0 < nTimeTx <= nTimeTx0 + Triangle(nHashDrift)
    ensures NoWrap(nTimeTx0, nHashDrift) && fSuccess && (SameSigns(c) || Ordered(c)) ==> Valid(c, modifier, hash, nTimeTx)
  {
    hide Hit, Target, Triangle, Valid, Age, Searched, SameSigns, Ordered;
    NotSearched(c, modifier, nTimeTx0, nHashDrift, hash);
    fSuccess, nTimeTx := false, nTimeTx0;
    for i := 0 to nHashDrift
      invariant Outcome(fSuccess, nTimeTx) == Searched(c, modifier, nTimeTx0, nHashDrift, hash, i)
    {
      SearchedNext(c, modifier, nTimeTx0, nHashDrift, hash, i);
      var nTryTime := (nTimeTx + nHashDrift - i) % TWO_32;
      var hashProofOfStake := hash(Kernel(modifier, c.blockFrom.time, c.txPrevOffset, c.txPrevTime, c.prevoutIndex, nTryTime));
      if Hit(c, hashProofOfStake, Age(c, nTimeTx)) {
        fSuccess := true;
        nTimeTx := nTryTime;
      }
    }
    SearchedFinds(c, modifier, nTimeTx0, nHashDrift, hash, nHashDrift);
    if NoWrap(nTimeTx0, nHashDrift) {
      SearchedBound(c, modifier, nTimeTx0, nHashDrift, hash, nHashDrift);
      if SameSigns(c) || Ordered(c) {
        SearchedValid(c, modifier, nTimeTx0, nHashDrift, hash, nHashDrift);
      }
    }
  }

  // ---------- exactly when search and check agree ----------

  // A hash of 256 bits.
  const TWO_256 := 0x1_0000000000000000_0000000000000000_0000000000000000_0000000000000000

  lemma Bits256()
    ensures TWO_256 == BitOps.Pow2(256)
  {
    hide BitOps.Pow2;
    Sixteen();
    Squared(16, 0x1_0000);
    Squared(32, 0x1_0000_0000);
    Squared(64, 0x1_0000_0000_0000_0000);
    Squared(128, 0x1_0000_0000_0000_0000_0000_0000_0000_0000);
  }

  lemma Sixteen()
    ensures BitOps.Pow2(16) == 0x1_0000
  {
    assert BitOps.Pow2(2) == 4;
    Squared(2, 4);
    Squared(4, 0x10);
    Squared(8, 0x100);
  }

  lemma Squared(k: nat, p: nat)
    requires BitOps.Pow2(k) == p
    ensures BitOps.Pow2(2 * k) == p * p
  {
    BitOps.PowSum(k, k);
  }

  ghost predicate Hash256(hash: Kernel -> nat) {
    forall k :: hash(k) < TWO_256
  }

  // Some hash function of 256 bits accepts the coin c at time t and rejects c' at t'.
  ghost predicate ToldApart(c: Coin, modifier: nat, t: nat, c': Coin, modifier': nat, t': nat) {
    exists hash: Kernel -> nat :: Hash256(hash) && Valid(c, modifier, hash, t) && !Valid(c', modifier', hash, t')
  }

  // Every number hashed counts: two old enough coins that can hit and miss are told apart exactly if their bounds are
  // in the right order or any of the six numbers differs.
  lemma KernelTells(c: Coin, modifier: nat, t: nat, c': Coin, modifier': nat, t': nat)
    requires OldEnough(c, t) && OldEnough(c', t') && Bound(c, Age(c, t)) > 0 && Bound(c', Age(c', t')) < TWO_256
    ensures ToldApart(c, modifier, t, c', modifier', t') <==>
              || Bound(c', Age(c', t')) < Bound(c, Age(c, t))
              || modifier != modifier' || c.blockFrom.time != c'.blockFrom.time || c.txPrevOffset != c'.txPrevOffset
              || c.txPrevTime != c'.txPrevTime || c.prevoutIndex != c'.prevoutIndex || t != t'
  {
    hide CoinWeight, Target, OldEnough, Age;
    var k, k', b, b' := KernelAt(c, modifier, t), KernelAt(c', modifier', t'), Bound(c, Age(c, t)), Bound(c', Age(c', t'));
    if k != k' {
      var hash: Kernel -> nat := (x: Kernel) => if x == k' then TWO_256 - 1 else 0;
      assert Hash256(hash) && Valid(c, modifier, hash, t) && !Valid(c', modifier', hash, t');
    } else if b' < b {
      var least: nat := if b' > 0 then b' else 0;
      var hash: Kernel -> nat := (x: Kernel) => least;
      assert Hash256(hash) && Valid(c, modifier, hash, t) && !Valid(c', modifier', hash, t');
    }
  }

  // Whatever the hash function, a successful search ends at a time the verifier accepts.
  ghost predicate Agrees(c: Coin, modifier: nat, time0: nat, drift: nat) {
    forall hash: Kernel -> nat {:trigger Searched(c, modifier, time0, drift, hash, drift)} ::
      var o := Searched(c, modifier, time0, drift, hash, drift);
      Hash256(hash) && o.found ==> Valid(c, modifier, hash, o.time)
  }

  // The time after n hits in a row, were there no overflow.
  function Climb(time0: nat, drift: nat, n: nat): nat
    requires n <= drift
  {
    if n == 0 then time0 else Climb(time0, drift, n - 1) + drift - (n - 1)
  }

  lemma {:induction false} ClimbIs(time0: nat, drift: nat, n: nat)
    requires n <= drift
    ensures Climb(time0, drift, n) + Triangle(drift - n) == time0 + Triangle(drift)
    ensures Climb(time0, drift, n) >= time0 && (n >= 1 ==> Climb(time0, drift, n) >= time0 + drift)
  {
    hide Triangle;
    if n > 0 {
      ClimbIs(time0, drift, n - 1);
      TriangleStep(drift - n + 1);
    }
  }

  lemma {:induction false} FirstOver(time0: nat, drift: nat, n: nat) returns (j: nat)
    requires n <= drift && time0 < TWO_32 && Climb(time0, drift, n) >= TWO_32
    ensures 1 <= j <= n && Climb(time0, drift, j - 1) < TWO_32 <= Climb(time0, drift, j)
  {
    if Climb(time0, drift, n - 1) >= TWO_32 {
      j := FirstOver(time0, drift, n - 1);
    } else {
      j := n;
    }
  }

  // The hash function that hits whenever anything can.
  function Lucky(): Kernel -> nat { (k: Kernel) => 0 }

  // Up to the overflow every attempt hits.
  lemma {:induction false} Climbs(c: Coin, modifier: nat, time0: nat, drift: nat, n: nat)
    requires Ordered(c) && OldEnough(c, time0) && time0 < TWO_32 && Bound(c, Age(c, time0)) > 0
    requires n <= drift && Climb(time0, drift, n) < TWO_32
    ensures Searched(c, modifier, time0, drift, Lucky(), n) == Outcome(n > 0, Climb(time0, drift, n))
  {
    hide Bound, Age, Searched, TryTime, Hit, Triangle, OldEnough;
    NotSearched(c, modifier, time0, drift, Lucky());
    if n > 0 {
      SmallTry(Climb(time0, drift, n - 1), drift, n - 1);
      Climbs(c, modifier, time0, drift, n - 1);
      ClimbIs(time0, drift, n - 1);
      ClimbIs(time0, drift, n);
      SearchedNext(c, modifier, time0, drift, Lucky(), n - 1);
      StillHits(c, time0, Climb(time0, drift, n - 1));
    }
  }

  lemma StillHits(c: Coin, before: nat, time: nat)
    requires Ordered(c) && OldEnough(c, before) && before <= time < TWO_32 && Bound(c, Age(c, before)) > 0
    ensures Hit(c, 0, Age(c, time))
  {
    hide CoinWeight, Target, SameSigns;
    OldAge(c, before);
    OldAge(c, time);
    if !SameSigns(c) {
      BoundSign(c, Age(c, before));
    }
    BoundMono(c, Age(c, before), Age(c, time));
  }

  // The attempt that overflows hits at a small time, and those after it do not lead far from there.
  lemma {:induction false} StaysWrapped(c: Coin, modifier: nat, time0: nat, drift: nat, j: nat, n: nat)
    requires Ordered(c) && OldEnough(c, time0) && time0 < TWO_32 && Bound(c, Age(c, time0)) > 0
    requires 1 <= j <= n <= drift && Triangle(drift) < TWO_32
    requires Climb(time0, drift, j - 1) < TWO_32 <= Climb(time0, drift, j)
    ensures var o := Searched(c, modifier, time0, drift, Lucky(), n);
            o.found && o.time + TWO_32 <= Climb(time0, drift, n)
  {
    hide Bound, Age, Searched, TryTime, Hit, Triangle, OldEnough;
    SearchedNext(c, modifier, time0, drift, Lucky(), n - 1);
    ClimbIs(time0, drift, n);
    ClimbIs(time0, drift, n - 1);
    if n == j {
      Climbs(c, modifier, time0, drift, j - 1);
      AtStart(c, time0, drift, j - 1);
      StillHits(c, time0, Climb(time0, drift, j - 1));
      Wraps(time0, drift, j);
    } else {
      StaysWrapped(c, modifier, time0, drift, j, n - 1);
      var o := Searched(c, modifier, time0, drift, Lucky(), n - 1);
      SmallTry(o.time, drift, n - 1);
    }
  }

  lemma AtStart(c: Coin, time0: nat, drift: nat, n: nat)
    requires n <= drift && time0 < TWO_32
    ensures Climb(time0, drift, n) >= time0
  {
    hide Triangle;
    ClimbIs(time0, drift, n);
  }

  lemma Wraps(time0: nat, drift: nat, j: nat)
    requires 1 <= j <= drift && drift < TWO_32
    requires Climb(time0, drift, j - 1) < TWO_32 <= Climb(time0, drift, j)
    ensures TryTime(Climb(time0, drift, j - 1), drift, j - 1) == Climb(time0, drift, j) - TWO_32
  {
  }

  lemma SmallTry(time: nat, drift: nat, i: nat)
    requires i < drift && time + drift - i < TWO_32
    ensures TryTime(time, drift, i) == time + drift - i
  {
  }

  lemma TriangleBounds(d: nat)
    ensures d <= Triangle(d)
  {
    if d > 0 {
      assert d * (d + 1) == 2 * d + d * (d - 1);
      MulMono(d, 0, d - 1);
    }
  }

  // For a coin of an accepted block whose time the search cannot climb to from 0, search and check agree for every
  // hash function exactly when nothing can hit at the starting age or no attempt can overflow.
  lemma SearchExact(c: Coin, modifier: nat, time0: nat, drift: nat)
    requires Ordered(c) && OldEnough(c, time0) && time0 < TWO_32 && Triangle(drift) <= c.txPrevTime < TWO_32
    ensures Agrees(c, modifier, time0, drift) <==> Bound(c, Age(c, time0)) <= 0 || NoWrap(time0, drift)
  {
    hide Bound, Age, Searched, Triangle, Valid, Hit, FirstHit;
    if NoWrap(time0, drift) {
      forall hash: Kernel -> nat
        ensures var o := Searched(c, modifier, time0, drift, hash, drift); o.found ==> Valid(c, modifier, hash, o.time)
      {
        SearchedValid(c, modifier, time0, drift, hash, drift);
      }
    } else if Bound(c, Age(c, time0)) <= 0 {
      forall hash: Kernel -> nat
        ensures !Searched(c, modifier, time0, drift, hash, drift).found
      {
        SearchedFinds(c, modifier, time0, drift, hash, drift);
        NothingHits(c, modifier, hash, time0, drift);
      }
    } else {
      var hash, w := Disagreement(c, modifier, time0, drift);
    }
  }

  lemma NothingHits(c: Coin, modifier: nat, hash: Kernel -> nat, time: nat, drift: nat)
    requires Bound(c, Age(c, time)) <= 0
    ensures forall i: nat :: !FirstHit(c, modifier, hash, time, drift, i)
  {
  }

  // When an attempt can overflow, a hash function that always hits makes the search end at a time before the coin's own.
  lemma Disagreement(c: Coin, modifier: nat, time0: nat, drift: nat) returns (hash: Kernel -> nat, w: nat)
    requires Ordered(c) && OldEnough(c, time0) && time0 < TWO_32 && Triangle(drift) <= c.txPrevTime < TWO_32
    requires Bound(c, Age(c, time0)) > 0 && !NoWrap(time0, drift)
    ensures Hash256(hash) && Searched(c, modifier, time0, drift, hash, drift) == Outcome(true, w)
    ensures w < c.txPrevTime && !Valid(c, modifier, hash, w)
  {
    hide Bound, Age, Searched, Triangle;
    ClimbIs(time0, drift, drift);
    NoTriangle();
    TriangleBounds(drift);
    var j := FirstOver(time0, drift, drift);
    StaysWrapped(c, modifier, time0, drift, j, drift);
    hash, w := Lucky(), Searched(c, modifier, time0, drift, Lucky(), drift).time;
  }

  lemma NoTriangle()
    ensures Triangle(0) == 0
  {
  }

  // CheckStakeKernelHash: a check at nTimeTx0, or a search of nHashDrift attempts.
  method CheckStakeKernelHash(c: Coin, nTimeTx0: nat, nHashDrift: nat, fCheck: bool, index: map<nat, BlockIndex>,
                              main: seq<BlockIndex>, fTestNet: bool, hash: Kernel -> nat)
    returns (ok: bool, nTimeTx: nat)
    requires Heights(main) && InRange(c) && nTimeTx0 < TWO_32 && nHashDrift < TWO_32
    ensures fCheck ==> nTimeTx == nTimeTx0 && (ok <==> Accepted(c, nTimeTx, index, main, fTestNet, hash))
    ensures !ok ==> nTimeTx == nTimeTx0
    ensures !fCheck && ok && NoWrap(nTimeTx0, nHashDrift) ==> nTimeTx0 < nTimeTx <= nTimeTx0 + Triangle(nHashDrift)
    ensures !fCheck && ok && NoWrap(nTimeTx0, nHashDrift) && (SameSigns(c) || Ordered(c)) ==>
              Accepted(c, nTimeTx, index, main, fTestNet, hash)
    ensures !fCheck ==> (ok <==> OldEnough(c, nTimeTx0) && exists j: nat, i: nat ::
              HasModifier(c, index, main, fTestNet, j) && FirstHit(c, main[j].modifier, hash, nTimeTx0, nHashDrift, i))
    // The same with the numbers hashed and compared: at the given time, or at one of the nHashDrift times after it.
    ensures var x := c.value * (Min(nTimeTx0 - c.txPrevTime, c.maxAge) - c.minAge);
            var bound := (if x >= 0 then x / 86_400_000_000 else -((-x) / 86_400_000_000)) * BigNum.Expanded(c.bits);
            ok <==>
              && c.txPrevTime <= nTimeTx0 && (c.blockFrom.time + c.minAge) % 0x1_0000_0000 <= nTimeTx0
              && exists j: nat, t: nat :: HasModifier(c, index, main, fTestNet, j)
                   && (if fCheck then t == nTimeTx0 else t < 0x1_0000_0000 && (t - nTimeTx0 - 1) % 0x1_0000_0000 < nHashDrift)
                   && hash(Kernel(main[j].modifier, c.blockFrom.time, c.txPrevOffset, c.txPrevTime, c.prevoutIndex, t)) < bound
  {
    hide Hit, Target, Triangle, Age, KernelBlock, FirstHit;
    CheckIs(c, nTimeTx0, index, main, fTestNet, hash);
    if nTimeTx0 >= c.txPrevTime {
      SearchesIs(c, nTimeTx0, nHashDrift, index, main, fTestNet, hash);
    }
    nTimeTx := nTimeTx0;
    if nTimeTx < c.txPrevTime {
      return false, nTimeTx;
    }
    if (c.blockFrom.time + c.minAge) % TWO_32 > nTimeTx {
      return false, nTimeTx;
    }
    var nStakeModifier, nStakeModifierHeight, nStakeModifierTime;
    ok, nStakeModifier, nStakeModifierHeight, nStakeModifierTime :=
      GetKernelStakeModifier(c.blockFrom.hash, index, main, fTestNet);
    if !ok {
      return false, nTimeTx;
    }
    ghost var j: nat :| KernelBlock(main, index[c.blockFrom.hash], fTestNet, j);
    KernelBlockIsInMain(main, index[c.blockFrom.hash], fTestNet);
    ModifierFound(c, index, main, fTestNet, j);
    if fCheck {
      var hashProofOfStake := hash(Kernel(nStakeModifier, c.blockFrom.time, c.txPrevOffset, c.txPrevTime, c.prevoutIndex, nTimeTx));
      ok := Hit(c, hashProofOfStake, Age(c, nTimeTx));
    } else {
      ok, nTimeTx := Search(c, nStakeModifier, nTimeTx0, nHashDrift, hash);
    }
  }

  // Block j of the main chain has the modifier the coin hashes with.
  ghost predicate HasModifier(c: Coin, index: map<nat, BlockIndex>, main: seq<BlockIndex>, fTestNet: bool, j: nat) {
    j < |main| && c.blockFrom.hash in index && KernelBlock(main, index[c.blockFrom.hash], fTestNet, j)
  }

  // A verifier with this chain accepts the coin at this time.
  ghost predicate Accepted(c: Coin, time: nat, index: map<nat, BlockIndex>, main: seq<BlockIndex>, fTestNet: bool, hash: Kernel -> nat) {
    exists j: nat :: HasModifier(c, index, main, fTestNet, j) && Valid(c, main[j].modifier, hash, time)
  }

  lemma ModifierFound(c: Coin, index: map<nat, BlockIndex>, main: seq<BlockIndex>, fTestNet: bool, j: nat)
    requires j < |main| && c.blockFrom.hash in index && KernelBlock(main, index[c.blockFrom.hash], fTestNet, j)
    ensures HasModifier(c, index, main, fTestNet, j)
  {
  }

  lemma CheckIs(c: Coin, time: nat, index: map<nat, BlockIndex>, main: seq<BlockIndex>, fTestNet: bool, hash: Kernel -> nat)
    requires c.txPrevTime < TWO_32 && time < TWO_32
    ensures var x := c.value * (Min(time - c.txPrevTime, c.maxAge) - c.minAge);
            var bound := (if x >= 0 then x / 86_400_000_000 else -((-x) / 86_400_000_000)) * BigNum.Expanded(c.bits);
            Accepted(c, time, index, main, fTestNet, hash) <==>
              && c.txPrevTime <= time && (c.blockFrom.time + c.minAge) % 0x1_0000_0000 <= time
              && exists j: nat :: HasModifier(c, index, main, fTestNet, j)
                   && hash(Kernel(main[j].modifier, c.blockFrom.time, c.txPrevOffset, c.txPrevTime, c.prevoutIndex, time)) < bound
  {
    hide Valid, HasModifier, KernelBlock;
    forall j: nat | HasModifier(c, index, main, fTestNet, j)
      ensures j < |main|
    {
      HasModifierIn(c, index, main, fTestNet, j);
    }
    forall j: nat | j < |main|
      ensures var x := c.value * (Min(time - c.txPrevTime, c.maxAge) - c.minAge);
              Valid(c, main[j].modifier, hash, time) <==>
                && c.txPrevTime <= time && (c.blockFrom.time + c.minAge) % 0x1_0000_0000 <= time
                && hash(Kernel(main[j].modifier, c.blockFrom.time, c.txPrevOffset, c.txPrevTime, c.prevoutIndex, time))
                   < (if x >= 0 then x / 86_400_000_000 else -((-x) / 86_400_000_000)) * BigNum.Expanded(c.bits)
    {
      ValidIs(c, main[j].modifier, hash, time);
    }
  }

  lemma HasModifierIn(c: Coin, index: map<nat, BlockIndex>, main: seq<BlockIndex>, fTestNet: bool, j: nat)
    requires HasModifier(c, index, main, fTestNet, j)
    ensures j < |main|
  {
  }

  lemma SearchesIs(c: Coin, time: nat, drift: nat, index: map<nat, BlockIndex>, main: seq<BlockIndex>, fTestNet: bool,
                   hash: Kernel -> nat)
    requires c.txPrevTime <= time < TWO_32 && drift < TWO_32
    ensures var x := c.value * (Min(time - c.txPrevTime, c.maxAge) - c.minAge);
            var bound := (if x >= 0 then x / 86_400_000_000 else -((-x) / 86_400_000_000)) * BigNum.Expanded(c.bits);
            (exists j: nat, i: nat :: HasModifier(c, index, main, fTestNet, j) && FirstHit(c, main[j].modifier, hash, time, drift, i))
            <==> exists j: nat, t: nat :: HasModifier(c, index, main, fTestNet, j)
                   && t < 0x1_0000_0000 && (t - time - 1) % 0x1_0000_0000 < drift
                   && hash(Kernel(main[j].modifier, c.blockFrom.time, c.txPrevOffset, c.txPrevTime, c.prevoutIndex, t)) < bound
  {
    hide HasModifier, FirstHit, Bound, KernelBlock;
    BoundIs(c, time);
    forall j: nat | HasModifier(c, index, main, fTestNet, j)
      ensures j < |main|
      ensures (exists i: nat :: FirstHit(c, main[j].modifier, hash, time, drift, i)) <==>
                exists t: nat :: t < 0x1_0000_0000 && (t - time - 1) % 0x1_0000_0000 < drift
                  && hash(Kernel(main[j].modifier, c.blockFrom.time, c.txPrevOffset, c.txPrevTime, c.prevoutIndex, t))
                     < Bound(c, Age(c, time))
    {
      HasModifierIn(c, index, main, fTestNet, j);
      SearchIs(c, main[j].modifier, hash, time, drift);
    }
  }

  lemma KernelBlockIsInMain(main: seq<BlockIndex>, from: BlockIndex, fTestNet: bool)
    ensures forall j: nat :: KernelBlock(main, from, fTestNet, j) ==> j < |main|
  {
  }

  // A growing chain does not take back an acceptance.
  lemma AcceptanceStable(c: Coin, time: nat, index: map<nat, BlockIndex>, main: seq<BlockIndex>, more: seq<BlockIndex>,
                         fTestNet: bool, hash: Kernel -> nat)
    requires Accepted(c, time, index, main, fTestNet, hash)
    ensures Accepted(c, time, index, main + more, fTestNet, hash)
  {
    hide Valid;
    var j: nat :| HasModifier(c, index, main, fTestNet, j) && Valid(c, main[j].modifier, hash, time);
    KernelModifierStable(main, more, index[c.blockFrom.hash], fTestNet, j);
    assert HasModifier(c, index, main + more, fTestNet, j);
  }

  // ---------- runs that end at a rejected time ----------

  // A coin of an accepted block, searched one second before the end of the 32-bit range: the one attempt hits
  // at time 0, which no verifier accepts.
  lemma WrappedTimeFails(modifier: nat)
    ensures var block := BlockIndex(0, 0, 4294000000, false, 0, false, 0, false);
            var c := Coin(block, 0, 4294000000, 0, COIN * DAY, 28800, 2592000, 0x0101_0000);
            var hash := Lucky();
            var time := TWO_32 - 1;
            && InRange(c) && Ordered(c) && OldEnough(c, time) && !NoWrap(time, 1)
            && Searched(c, modifier, time, 1, hash, 1) == Outcome(true, 0)
            && !Valid(c, modifier, hash, 0)
  {
    hide Searched, Target;
    var block := BlockIndex(0, 0, 4294000000, false, 0, false, 0, false);
    var c := Coin(block, 0, 4294000000, 0, COIN * DAY, 28800, 2592000, 0x0101_0000);
    var hash := Lucky();
    var time := TWO_32 - 1;
    OneAsTarget(c);
    assert CoinWeight(c, 967295) == 938495;
    NotSearched(c, modifier, time, 1, hash);
    SearchedNext(c, modifier, time, 1, hash, 0);
  }

  // A coin whose transaction is later than its block, which no accepted block holds: with a negative target the
  // search hits below the minimum age and the verifier, one second older, does not.
  lemma NegativeTargetFails(modifier: nat)
    ensures var block := BlockIndex(0, 0, 9, false, 0, false, 0, false);
            var c := Coin(block, 0, 10, 0, COIN * DAY, 10, 100, 0x0181_0000);
            var hash := Lucky();
            && InRange(c) && !Ordered(c) && !SameSigns(c) && OldEnough(c, 19) && NoWrap(19, 1)
            && Searched(c, modifier, 19, 1, hash, 1) == Outcome(true, 20)
            && !Valid(c, modifier, hash, 20)
  {
    hide Searched, Target;
    var block := BlockIndex(0, 0, 9, false, 0, false, 0, false);
    var c := Coin(block, 0, 10, 0, COIN * DAY, 10, 100, 0x0181_0000);
    var hash := Lucky();
    OneAsTarget(c);
    assert CoinWeight(c, 9) == -1 && CoinWeight(c, 10) == 0;
    NotSearched(c, modifier, 19, 1, hash);
    SearchedNext(c, modifier, 19, 1, hash, 0);
  }

  lemma OneAsTarget(c: Coin)
    ensures c.bits == 0x0101_0000 ==> Target(c) == 1
    ensures c.bits == 0x0181_0000 ==> Target(c) == -1
  {
    BigNum.ScaledSmall(0x1_0000, 1);
    BigNum.ThreeBytes();
    BigNum.Fields(1, 0, 0x1_0000);
    BigNum.Fields(1, 1, 0x1_0000);
  }
}
