/** The Merkle tree of a block: built level by level in one flat array, checked one branch at a time.

    The two-to-one hash is a parameter; a hash is a number. */
module Merkle {
  import opened BitOps
  import opened Numbers

  type Hash2 = (nat, nat) -> nat

  // ---------- the tree ----------

  // The level above: pairs are hashed, an odd last one with itself.
  function Up(h: Hash2, l: seq<nat>): (u: seq<nat>)
    ensures |u| == (|l| + 1) / 2
    ensures forall i :: 0 <= i < |u| ==> u[i] == h(l[2 * i], l[Min(2 * i + 1, |l| - 1)])
  {
    seq((|l| + 1) / 2, i requires 0 <= i < (|l| + 1) / 2 => h(l[2 * i], l[Min(2 * i + 1, |l| - 1)]))
  }

  function Root(h: Hash2, l: seq<nat>): nat
    decreases |l|
  {
    if |l| == 0 then 0 else if |l| == 1 then l[0] else Root(h, Up(h, l))
  }

  // All levels, one after the other.
  function Flat(h: Hash2, l: seq<nat>): seq<nat>
    decreases |l|
  {
    if |l| <= 1 then l else l + Flat(h, Up(h, l))
  }

  lemma UpNext(h: Hash2, l: seq<nat>, i: nat)
    requires i % 2 == 0 && i < |l|
    ensures i / 2 < |Up(h, l)|
    ensures Up(h, l)[..i / 2 + 1] == Up(h, l)[..i / 2] + [h(l[i], l[Min(i + 1, |l| - 1)])]
  {
    var k := i / 2;
    assert i == 2 * k;
    assert Up(h, l)[k] == h(l[2 * k], l[Min(2 * k + 1, |l| - 1)]);
  }

  // The hashes beside the path from leaf i up.
  function Branch(h: Hash2, l: seq<nat>, i: nat): seq<nat>
    decreases |l|
  {
    if |l| <= 1 then [] else [l[Min(Sibling(i), |l| - 1)]] + Branch(h, Up(h, l), i / 2)
  }

  // i ^ 1
  function Sibling(i: nat): nat { if i % 2 == 0 then i + 1 else i - 1 }

  // Hashing up along a branch; & 1 and >> 1 of a negative index round down.
  function Fold(h: Hash2, hash: nat, branch: seq<nat>, i: int): nat
    decreases |branch|
  {
    if branch == [] then hash
    else Fold(h, if i % 2 == 1 then h(branch[0], hash) else h(hash, branch[0]), branch[1..], i / 2)
  }

  class CBlock {
    // The hashes of the transactions.
    var vtx: seq<nat>
    var vMerkleTree: seq<nat>

    constructor (vtx: seq<nat>)
      ensures this.vtx == vtx && vMerkleTree == []
    {
      this.vtx := vtx;
      vMerkleTree := [];
    }

    // Append the level above the nSize hashes from number j on.
    method HashLevel(h: Hash2, j: nat, nSize: nat)
      requires j + nSize == |vMerkleTree| && nSize > 1
      modifies this`vMerkleTree
      ensures vMerkleTree == old(vMerkleTree) + Up(h, old(vMerkleTree)[j..])
    {
      hide Up;
      ghost var tree := vMerkleTree;
      ghost var level := tree[j..];
      ghost var up := Up(h, level);
      var i := 0;
      while i < nSize
        invariant 0 <= i && i % 2 == 0 && i / 2 <= |up|
        invariant vMerkleTree == tree + up[..i / 2]
      {
        var i2 := Min(i + 1, nSize - 1);
        UpNext(h, level, i);
        assert level[i] == tree[j + i] && level[i2] == tree[j + i2];
        vMerkleTree := vMerkleTree + [h(vMerkleTree[j + i], vMerkleTree[j + i2])];
        i := i + 2;
      }
      assert up[..i / 2] == up;
    }

    method BuildMerkleTree(h: Hash2) returns (root: nat)
      modifies this`vMerkleTree
      ensures vMerkleTree == Flat(h, vtx) && root == Root(h, vtx)
    {
      hide Flat, Root, Up;
      vMerkleTree := vtx;
      var j := 0;
      var nSize := |vtx|;
      // The level being hashed, and those below it.
      ghost var level: seq<nat>, below: seq<nat> := vtx, [];
      while nSize > 1
        invariant nSize == |level| && j == |below| && vMerkleTree == below + level
        invariant below + Flat(h, level) == Flat(h, vtx) && Root(h, level) == Root(h, vtx)
        invariant level == [] ==> vtx == []
        decreases nSize
      {
        FlatStep(h, below, level);
        HashLevel(h, j, nSize);
        below, level := below + level, Up(h, level);
        j := j + nSize;
        nSize := (nSize + 1) / 2;
      }
      FlatTop(h, level);
      return if vMerkleTree == [] then 0 else vMerkleTree[|vMerkleTree| - 1];
    }

    method GetMerkleBranch(h: Hash2, nIndex: nat) returns (vMerkleBranch: seq<nat>)
      requires vMerkleTree == [] || vMerkleTree == Flat(h, vtx)
      modifies this`vMerkleTree
      ensures vMerkleTree == Flat(h, vtx) && vMerkleBranch == Branch(h, vtx, nIndex)
    {
      hide Flat, Root, Up, Branch;
      if vMerkleTree == [] {
        var _ := BuildMerkleTree(h);
      }
      vMerkleBranch := [];
      var j, index: nat := 0, nIndex;
      var nSize := |vtx|;
      ghost var level: seq<nat>, below: seq<nat> := vtx, [];
      while nSize > 1
        invariant nSize == |level| && j == |below| && vMerkleTree == below + Flat(h, level)
        invariant vMerkleTree == Flat(h, vtx)
        invariant vMerkleBranch + Branch(h, level, index) == Branch(h, vtx, nIndex)
        decreases nSize
      {
        var i := Min(Sibling(index), nSize - 1);
        FlatStep(h, below, level);
        BranchPush(h, level, index, vMerkleBranch);
        assert vMerkleTree == (below + level) + Flat(h, Up(h, level));
        assert vMerkleTree[j + i] == level[i];
        vMerkleBranch := vMerkleBranch + [vMerkleTree[j + i]];
        below, level := below + level, Up(h, level);
        index := index / 2;
        j := j + nSize;
        nSize := (nSize + 1) / 2;
      }
      BranchTop(h, level, index);
    }

    static method CheckMerkleBranch(h: Hash2, hash0: nat, vMerkleBranch: seq<nat>, nIndex0: int) returns (hash: nat)
      ensures hash == if nIndex0 == -1 then 0 else Fold(h, hash0, vMerkleBranch, nIndex0)
    {
      if nIndex0 == -1 {
        return 0;
      }
      hash := hash0;
      var nIndex := nIndex0;
      for k := 0 to |vMerkleBranch|
        invariant Fold(h, hash, vMerkleBranch[k..], nIndex) == Fold(h, hash0, vMerkleBranch, nIndex0)
      {
        var otherside := vMerkleBranch[k];
        assert vMerkleBranch[k..][1..] == vMerkleBranch[k + 1..];
        if nIndex % 2 == 1 {
          hash := h(otherside, hash);
        } else {
          hash := h(hash, otherside);
        }
        nIndex := nIndex / 2;
      }
    }
  }

  lemma FlatStep(h: Hash2, below: seq<nat>, l: seq<nat>)
    requires |l| > 1
    ensures below + Flat(h, l) == (below + l) + Flat(h, Up(h, l)) && Root(h, l) == Root(h, Up(h, l))
  {
    hide Flat, Up, Root;
    FlatUp(h, l);
    RootStep(h, l);
    AppendTwice(below, l, Flat(h, Up(h, l)));
  }

  lemma AppendTwice(a: seq<nat>, b: seq<nat>, c: seq<nat>)
    ensures a + (b + c) == (a + b) + c
  {
  }

  lemma FlatUp(h: Hash2, l: seq<nat>)
    requires |l| > 1
    ensures Flat(h, l) == l + Flat(h, Up(h, l))
  {
    hide Up;
  }

  lemma FlatTop(h: Hash2, l: seq<nat>)
    requires |l| <= 1
    ensures Flat(h, l) == l && Root(h, l) == if l == [] then 0 else l[0]
  {
  }

  lemma BranchStep(h: Hash2, l: seq<nat>, i: nat)
    requires |l| > 1
    ensures Branch(h, l, i) == [l[Min(Sibling(i), |l| - 1)]] + Branch(h, Up(h, l), i / 2)
  {
  }

  lemma BranchPush(h: Hash2, l: seq<nat>, i: nat, done: seq<nat>)
    requires |l| > 1
    ensures done + Branch(h, l, i) == (done + [l[Min(Sibling(i), |l| - 1)]]) + Branch(h, Up(h, l), i / 2)
  {
    hide Branch, Up;
    BranchStep(h, l, i);
  }

  lemma BranchTop(h: Hash2, l: seq<nat>, i: nat)
    requires |l| <= 1
    ensures Branch(h, l, i) == []
  {
  }

  lemma FoldStep(h: Hash2, hash: nat, b: nat, branch: seq<nat>, i: int)
    ensures Fold(h, hash, [b] + branch, i) == Fold(h, if i % 2 == 1 then h(b, hash) else h(hash, b), branch, i / 2)
  {
    assert ([b] + branch)[1..] == branch;
  }

  // ---------- branches prove leaves ----------

  // The branch of leaf i leads from it to the root.
  lemma {:induction false} BranchLeadsToRoot(h: Hash2, l: seq<nat>, i: nat)
    requires i < |l|
    ensures Fold(h, l[i], Branch(h, l, i), i) == Root(h, l)
    decreases |l|
  {
    hide Up, Root, Branch, Fold;
    if |l| > 1 {
      var u := Up(h, l);
      RootStep(h, l);
      BranchStep(h, l, i);
      BranchLeadsToRoot(h, u, i / 2);
      PairAbove(h, l, i);
      FoldStep(h, l[i], l[Min(Sibling(i), |l| - 1)], Branch(h, u, i / 2), i);
    } else {
      FlatTop(h, l);
      BranchTop(h, l, i);
      FoldNothing(h, l[i], i);
    }
  }

  lemma PairAbove(h: Hash2, l: seq<nat>, i: nat)
    requires i < |l|
    ensures var s := l[Min(Sibling(i), |l| - 1)];
            Up(h, l)[i / 2] == if i % 2 == 1 then h(s, l[i]) else h(l[i], s)
  {
    hide Up;
    assert Up(h, l)[i / 2] == h(l[2 * (i / 2)], l[Min(2 * (i / 2) + 1, |l| - 1)]);
  }

  lemma RootStep(h: Hash2, l: seq<nat>)
    requires |l| > 1
    ensures Root(h, l) == Root(h, Up(h, l))
  {
  }

  lemma FoldNothing(h: Hash2, hash: nat, i: int)
    ensures Fold(h, hash, [], i) == hash
  {
  }

  ghost predicate Injective(h: Hash2) {
    forall a, b, c, d :: h(a, b) == h(c, d) ==> a == c && b == d
  }

  lemma {:induction false} FoldInjective(h: Hash2, x: nat, y: nat, branch: seq<nat>, i: int)
    requires Injective(h) && Fold(h, x, branch, i) == Fold(h, y, branch, i)
    ensures x == y
    decreases |branch|
  {
    if branch != [] {
      var b := branch[0];
      if i % 2 == 1 {
        FoldInjective(h, h(b, x), h(b, y), branch[1..], i / 2);
      } else {
        FoldInjective(h, h(x, b), h(y, b), branch[1..], i / 2);
      }
    }
  }

  // No other leaf passes the check with that branch.
  lemma OnlyTheLeaf(h: Hash2, l: seq<nat>, i: nat, x: nat)
    requires Injective(h) && i < |l|
    ensures Fold(h, x, Branch(h, l, i), i) == Root(h, l) <==> x == l[i]
  {
    BranchLeadsToRoot(h, l, i);
    if Fold(h, x, Branch(h, l, i), i) == Root(h, l) {
      FoldInjective(h, x, l[i], Branch(h, l, i), i);
    }
  }

  // Among lists of one length the root determines the list.
  lemma {:induction false} RootInjective(h: Hash2, l: seq<nat>, m: seq<nat>)
    requires Injective(h) && |l| == |m| && Root(h, l) == Root(h, m)
    ensures l == m
    decreases |l|
  {
    hide Up, Root, Injective;
    if |l| <= 1 {
      FlatTop(h, l);
      FlatTop(h, m);
    } else {
      var u, v := Up(h, l), Up(h, m);
      RootStep(h, l);
      RootStep(h, m);
      RootInjective(h, u, v);
      forall i | 0 <= i < |l|
        ensures l[i] == m[i]
      {
        PairAbove(h, l, i);
        PairAbove(h, m, i);
        var s, s' := l[Min(Sibling(i), |l| - 1)], m[Min(Sibling(i), |l| - 1)];
        InjectiveAt(h, s, l[i], s', m[i]);
        InjectiveAt(h, l[i], s, m[i], s');
      }
    }
  }

  lemma InjectiveAt(h: Hash2, a: nat, b: nat, c: nat, d: nat)
    requires Injective(h)
    ensures h(a, b) == h(c, d) ==> a == c && b == d
  {
  }

  // ---------- lists of different length ----------

  function Copies(x: nat, n: nat): (l: seq<nat>)
    ensures |l| == n && forall i :: 0 <= i < n ==> l[i] == x
  {
    seq(n, _ => x)
  }

  // How many levels there are above n leaves.
  function Depth(n: nat): nat { if n <= 1 then 0 else 1 + Depth((n + 1) / 2) }

  lemma {:induction false} DepthMono(n: nat, k: nat)
    requires n <= k
    ensures Depth(n) <= Depth(k)
    decreases k
  {
    if n > 1 {
      DepthMono((n + 1) / 2, (k + 1) / 2);
    }
  }

  // x hashed with itself, d times over.
  function Doubled(h: Hash2, x: nat, d: nat): nat
    decreases d
  {
    if d == 0 then x else Doubled(h, h(x, x), d - 1)
  }

  lemma {:induction false} DoubledSum(h: Hash2, x: nat, d: nat, e: nat)
    ensures Doubled(h, Doubled(h, x, d), e) == Doubled(h, x, d + e)
    decreases d
  {
    if d > 0 {
      DoubledSum(h, h(x, x), d - 1, e);
    }
  }

  lemma {:induction false} RootOfCopies(h: Hash2, x: nat, n: nat)
    requires n > 0
    ensures Root(h, Copies(x, n)) == Doubled(h, x, Depth(n))
    decreases n
  {
    if n > 1 {
      assert Up(h, Copies(x, n)) == Copies(h(x, x), (n + 1) / 2);
      RootOfCopies(h, h(x, x), (n + 1) / 2);
    }
  }

  // Whatever the hash, two different lengths share a root.
  lemma RootsMeet(h: Hash2, x: nat, n: nat, k: nat) returns (l: seq<nat>, m: seq<nat>)
    requires 0 < n < k
    ensures |l| == n && |m| == k && Root(h, l) == Root(h, m)
  {
    hide Root, Copies, Doubled, Depth;
    DepthMono(n, k);
    var d := Depth(k) - Depth(n);
    l, m := Copies(Doubled(h, x, d), n), Copies(x, k);
    RootOfCopies(h, Doubled(h, x, d), n);
    RootOfCopies(h, x, k);
    DoubledSum(h, x, d, Depth(n));
  }

  ghost predicate RootTells(h: Hash2, n: nat, k: nat) {
    forall l: seq<nat>, m: seq<nat> :: |l| == n && |m| == k && Root(h, l) == Root(h, m) ==> l == m
  }

  // Equal length is exactly when the root of an injective hash tells two lists apart.
  lemma RootTellsExactly(h: Hash2, n: nat, k: nat)
    requires Injective(h) && n > 0 && k > 0
    ensures RootTells(h, n, k) <==> n == k
  {
    hide Root, Injective;
    if n == k {
      forall l: seq<nat>, m: seq<nat> | |l| == n && |m| == k && Root(h, l) == Root(h, m)
        ensures l == m
      {
        RootInjective(h, l, m);
      }
    } else if n < k {
      var l, m := RootsMeet(h, 0, n, k);
      assert l != m;
    } else {
      var m, l := RootsMeet(h, 0, k, n);
      assert l != m;
    }
  }

  // With w leaves to a node, a power of two, an odd last node may be repeated: its leaves are then there twice.
  lemma {:induction false} RepeatedLeaves(h: Hash2, l: seq<nat>, j: nat, w: nat, q: nat)
    requires w == Pow2(j) && |l| == 2 * (w * q) + w && q > 0
    ensures Root(h, l + l[|l| - w..]) == Root(h, l)
    decreases j
  {
    hide Root, Up, Pow2;
    LeavesFit(j, w, q);
    var tail := l[|l| - w..];
    if j == 0 {
      assert tail == [l[|l| - 1]];
      RepeatedLeaf(h, l);
    } else {
      RootStep(h, l);
      RootStep(h, l + tail);
      UpRepeated(h, l, Pow2(j - 1), tail);
      RepeatedLeaves(h, Up(h, l), j - 1, Pow2(j - 1), q);
    }
  }

  lemma LeavesFit(j: nat, w: nat, q: nat)
    requires w == Pow2(j) && q > 0
    ensures 0 < w <= w * q
    ensures if j == 0 then w == 1 else w == 2 * Pow2(j - 1) && w * q == 2 * (Pow2(j - 1) * q)
  {
    Pow2Mono(0, j);
    AtLeast(w, q);
    if j > 0 {
      Assoc(Pow2(j - 1), q);
      assert w == 2 * Pow2(j - 1);
    }
  }

  lemma AtLeast(w: nat, q: nat)
    requires q > 0
    ensures w * q >= w
  {
  }

  // The last leaf of an odd list may be repeated.
  lemma RepeatedLeaf(h: Hash2, l: seq<nat>)
    requires |l| % 2 == 1 && |l| > 1
    ensures Root(h, l + [l[|l| - 1]]) == Root(h, l)
  {
    hide Root;
    RootStep(h, l);
    RootStep(h, l + [l[|l| - 1]]);
    assert Up(h, l + [l[|l| - 1]]) == Up(h, l);
  }

  lemma UpRepeated(h: Hash2, l: seq<nat>, w: nat, tail: seq<nat>)
    requires |l| % 2 == 0 && 2 * w <= |l| && tail == l[|l| - 2 * w..]
    ensures |Up(h, l)| == |l| / 2
    ensures Up(h, l + tail) == Up(h, l) + Up(h, l)[|l| / 2 - w..]
  {
  }
}
