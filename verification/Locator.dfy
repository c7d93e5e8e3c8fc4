/** CBlockLocator: a short list of blocks, exponentially further back, by which another node finds the fork. */
module Locator {
  import opened BitOps

  // What mapBlockIndex says of a hash: its height, and whether it is in the main chain.
  datatype Entry = Entry(height: nat, inMainChain: bool)

  // How far back entry k is.
  function Distance(k: nat): nat { if k <= 11 then k else 9 + Pow2(k - 10) }

  // The step after entry k.
  function Step(k: nat): nat { if k <= 10 then 1 else Pow2(k - 10) }

  lemma DistanceStep(k: nat)
    ensures Distance(k + 1) == Distance(k) + Step(k)
    ensures Step(k + 1) == (if k >= 10 then 2 * Step(k) else Step(k))
    ensures Step(k) >= 1
    ensures Distance(k + 1) > 10 <==> k >= 10
  {
    Pow2Mono(0, if k > 10 then k - 10 else 0);
    if k <= 12 {
      assert Pow2(1) == 2 && Pow2(2) == 4;
    }
  }

  ghost predicate OnMain(index: map<nat, Entry>, hash: nat) {
    hash in index && index[hash].inMainChain
  }

  // The list for the block on top of a chain of hashes, and the entry count without the genesis block put last.
  ghost predicate Locates(have: seq<nat>, chain: seq<nat>, genesis: nat, n: nat) {
    && |have| == n + 1 && have[n] == genesis
    && (forall k :: 0 <= k < n ==> Distance(k) < |chain| && have[k] == chain[|chain| - 1 - Distance(k)])
    && Distance(n) >= |chain|
  }

  // k is the first entry on the main chain, or the length if there is none.
  ghost predicate FirstOnMain(have: seq<nat>, index: map<nat, Entry>, k: nat) {
    k <= |have| && (k < |have| ==> OnMain(index, have[k])) && forall j :: 0 <= j < k ==> !OnMain(index, have[j])
  }

  class CBlockLocator {
    var vHave: seq<nat>

    constructor ()
      ensures vHave == []
    {
      vHave := [];
    }

    // Set, for the block on top of chain.
    method Set(chain: seq<nat>, genesis: nat)
      modifies this
      ensures exists n: nat :: Locates(vHave, chain, genesis, n)
    {
      hide Distance, Step;
      vHave := [];
      var nStep := 1;
      var pindex := |chain| - 1;
      DistanceStarts();
      while pindex >= 0
        invariant -1 <= pindex < |chain| && nStep == Step(|vHave|)
        invariant pindex == if Distance(|vHave|) < |chain| then |chain| - 1 - Distance(|vHave|) else -1
        invariant forall k :: 0 <= k < |vHave| ==> Distance(k) < |chain| && vHave[k] == chain[|chain| - 1 - Distance(k)]
      {
        DistanceStep(|vHave|);
        ghost var was := |vHave|;
        vHave := vHave + [chain[pindex]];
        // nStep blocks back, or past the first block.
        var i := 0;
        ghost var from := pindex;
        while pindex >= 0 && i < nStep
          invariant 0 <= i <= nStep && pindex == if i <= from then from - i else -1
        {
          pindex := pindex - 1;
          i := i + 1;
        }
        if |vHave| > 10 {
          nStep := nStep * 2;
        }
      }
      vHave := vHave + [genesis];
      assert Locates(vHave, chain, genesis, |vHave| - 1);
    }

    method GetDistanceBack(index: map<nat, Entry>) returns (nDistance: nat)
      ensures exists k: nat :: FirstOnMain(vHave, index, k) && nDistance == Distance(k)
    {
      hide Distance, Step;
      nDistance := 0;
      var nStep := 1;
      DistanceStarts();
      for k := 0 to |vHave|
        invariant nDistance == Distance(k) && nStep == Step(k)
        invariant forall j :: 0 <= j < k ==> !OnMain(index, vHave[j])
      {
        var hash := vHave[k];
        if hash in index {
          if index[hash].inMainChain {
            assert FirstOnMain(vHave, index, k);
            return;
          }
        }
        DistanceStep(k);
        nDistance := nDistance + nStep;
        if nDistance > 10 {
          nStep := nStep * 2;
        }
      }
      assert FirstOnMain(vHave, index, |vHave|);
    }

    // The first block of the list on the main chain; otherwise the genesis block.
    method GetBlockIndex(index: map<nat, Entry>, genesis: nat) returns (hash: nat)
      ensures exists k: nat :: FirstOnMain(vHave, index, k) && hash == if k < |vHave| then vHave[k] else genesis
    {
      for k := 0 to |vHave|
        invariant forall j :: 0 <= j < k ==> !OnMain(index, vHave[j])
      {
        hash := vHave[k];
        if hash in index {
          if index[hash].inMainChain {
            assert FirstOnMain(vHave, index, k);
            return;
          }
        }
      }
      assert FirstOnMain(vHave, index, |vHave|);
      hash := genesis;
    }
  }

  lemma DistanceStarts()
    ensures Distance(0) == 0 && Step(0) == 1
  {
  }

  lemma {:induction false} DistanceMono(j: nat, k: nat)
    requires j <= k
    ensures Distance(j) + (k - j) <= Distance(k)
  {
    hide Distance, Step;
    if j < k {
      DistanceMono(j, k - 1);
      DistanceStep(k - 1);
    }
  }

  // The list goes strictly back, and its length grows as the logarithm of the height.
  lemma LocatorShape(have: seq<nat>, chain: seq<nat>, genesis: nat, n: nat)
    requires Locates(have, chain, genesis, n)
    ensures forall j, k :: 0 <= j < k < n ==> Distance(j) < Distance(k)
    ensures n > 12 ==> 9 + Pow2(|have| - 12) <= |chain| - 1
  {
    hide Step;
    forall j, k | 0 <= j < k < n
      ensures Distance(j) < Distance(k)
    {
      DistanceMono(j, k);
    }
    if n > 12 {
      assert Distance(n - 1) < |chain|;
    }
  }

  // The receiver shares the first `common` blocks with the sender and knows which block of its index is where.
  ghost predicate Forked(chain: seq<nat>, index: map<nat, Entry>, common: nat) {
    && 0 < common <= |chain|
    && forall i :: 0 <= i < |chain| ==> (OnMain(index, chain[i]) <==> i < common)
  }

  // The found block is the fork or at most twice as deep, or it is the genesis block;
  // and GetDistanceBack tells its true depth unless the list has run out.
  lemma ForkFound(have: seq<nat>, chain: seq<nat>, n: nat, index: map<nat, Entry>, common: nat, k: nat)
    requires chain != [] && Locates(have, chain, chain[0], n) && Forked(chain, index, common) && FirstOnMain(have, index, k)
    ensures k <= n
    ensures var depth := |chain| - common;
            if k < n then
              var i := |chain| - 1 - Distance(k);
              && 0 <= i < common && have[k] == chain[i] && depth <= Distance(k) <= 2 * depth
            else have[k] == chain[0] && Distance(k) >= |chain|
  {
    hide Distance, Step;
    assert OnMain(index, chain[0]);
    if k < n {
      var i := |chain| - 1 - Distance(k);
      assert OnMain(index, chain[i]);
      if k > 0 {
        var l := |chain| - 1 - Distance(k - 1);
        assert !OnMain(index, have[k - 1]);
        DistanceDoubles(k - 1);
      } else {
        DistanceStarts();
      }
    }
  }

  lemma DistanceDoubles(k: nat)
    ensures Distance(k + 1) <= 2 * (Distance(k) + 1)
  {
    if k <= 12 {
      assert Pow2(1) == 2 && Pow2(2) == 4;
    }
  }
}
