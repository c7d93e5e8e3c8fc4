/** The stake modifier of kernel.cpp: 64 bits drawn from 64 blocks of the recent past, and the chain that carries it. */
module StakeModifier {
  import opened BitOps
  import opened Bytes
  import Radix

  const MODIFIER_INTERVAL := 21600
  const MODIFIER_INTERVAL_TESTNET := 60
  const MODIFIER_INTERVAL_RATIO := 3

  // CBlockIndex, without the links: a chain is the sequence of its blocks, the genesis block first.
  datatype BlockIndex = BlockIndex(hash: nat, height: nat, time: nat, proofOfStake: bool, hashProofOfStake: nat,
                                   entropyBit: bool, modifier: nat, generated: bool)

  function IntervalVersion(fTestNet: bool): nat {
    if fTestNet then MODIFIER_INTERVAL_TESTNET else MODIFIER_INTERVAL
  }

  // GetStakeModifierSelectionIntervalSection
  function Section(fTestNet: bool, nSection: nat): nat
    requires nSection < 64
  {
    IntervalVersion(fTestNet) * 63 / (63 + (63 - nSection) * (MODIFIER_INTERVAL_RATIO - 1))
  }

  function Sections(fTestNet: bool, n: nat): nat
    requires n <= 64
  {
    if n == 0 then 0 else Sections(fTestNet, n - 1) + Section(fTestNet, n - 1)
  }

  // Later sections are no shorter, and the last is three times the first.
  lemma SectionRatio(fTestNet: bool, i: nat, j: nat)
    requires i <= j < 64
    ensures 0 < Section(fTestNet, i) <= Section(fTestNet, j)
    ensures Section(fTestNet, 63) == MODIFIER_INTERVAL_RATIO * Section(fTestNet, 0) == IntervalVersion(fTestNet)
  {
    Shrinks(IntervalVersion(fTestNet) * 63, 63 + (63 - j) * 2, 63 + (63 - i) * 2);
    AtLeastOne(IntervalVersion(fTestNet) * 63, 63 + (63 - i) * 2);
  }

  // Section n is the share of the interval that the ratio gives it, rounded down.
  lemma SectionShare(fTestNet: bool, n: nat)
    requires n < 64
    ensures var share := (if fTestNet then 60 else 21600) * 63;
            Section(fTestNet, n) * (189 - 2 * n) <= share < (Section(fTestNet, n) + 1) * (189 - 2 * n)
  {
    var share, d := IntervalVersion(fTestNet) * 63, 189 - 2 * n;
    assert share == d * (share / d) + share % d;
    assert (share / d + 1) * d == d * (share / d) + d;
  }

  lemma Shrinks(n: nat, d: nat, e: nat)
    requires 0 < d <= e
    ensures n / e <= n / d
  {
    Radix.MulMono(n / e, d, e);
    assert n == e * (n / e) + n % e && n == d * (n / d) + n % d;
    NoLarger(d, n / e, n / d, n % d);
  }

  lemma NoLarger(d: nat, p: nat, q: nat, r: nat)
    requires r < d && d * p <= d * q + r
    ensures p <= q
  {
    Radix.Factor(d, p, q);
    Radix.MulBound(d, p - q);
  }

  lemma AtLeastOne(n: nat, d: nat)
    requires 0 < d <= n
    ensures n / d >= 1
  {
    assert n == d * (n / d) + n % d;
  }

  method GetStakeModifierSelectionInterval(fTestNet: bool) returns (nSelectionInterval: nat)
    ensures nSelectionInterval == Sections(fTestNet, 64)
  {
    nSelectionInterval := 0;
    for nSection := 0 to 64
      invariant nSelectionInterval == Sections(fTestNet, nSection)
    {
      nSelectionInterval := nSelectionInterval + Section(fTestNet, nSection);
    }
  }

  // ---------- one selection ----------

  // The hash the draw compares; proof-of-stake blocks are favoured.
  function SelectionHash(h: (nat, nat) -> nat, b: BlockIndex, prev: nat): nat {
    if b.proofOfStake then h(b.hashProofOfStake, prev) / 0x1_0000_0000 else h(b.hash, prev)
  }

  // The same in the hashes themselves: proof of stake counts with a 2^32th of its hash, rounded down.
  predicate NoWorse(h: (nat, nat) -> nat, a: BlockIndex, b: BlockIndex, prev: nat) {
    match (a.proofOfStake, b.proofOfStake)
    case (false, false) => h(a.hash, prev) <= h(b.hash, prev)
    case (false, true) => h(a.hash, prev) * 0x1_0000_0000 <= h(b.hashProofOfStake, prev)
    case (true, false) => h(a.hashProofOfStake, prev) < h(b.hash, prev) * 0x1_0000_0000 + 0x1_0000_0000
    case (true, true) => h(a.hashProofOfStake, prev) / 0x1_0000_0000 <= h(b.hashProofOfStake, prev) / 0x1_0000_0000
  }

  lemma SelectionOrder(h: (nat, nat) -> nat, a: BlockIndex, b: BlockIndex, prev: nat)
    ensures SelectionHash(h, a, prev) <= SelectionHash(h, b, prev) <==> NoWorse(h, a, b, prev)
  {
  }

  ghost predicate Early(blocks: seq<BlockIndex>, selected: set<nat>, stop: int, k: nat) {
    k < |blocks| && blocks[k].hash !in selected && blocks[k].time <= stop
  }

  // Candidate k is the first with the least hash among those not selected and not after stop, or,
  // if there is none, the first not selected.
  ghost predicate Chosen(blocks: seq<BlockIndex>, selected: set<nat>, stop: int, h: (nat, nat) -> nat, prev: nat, k: nat) {
    && k < |blocks| && blocks[k].hash !in selected
    && (forall j: nat :: Early(blocks, selected, stop, j) ==>
          && Early(blocks, selected, stop, k)
          && SelectionHash(h, blocks[k], prev) <= SelectionHash(h, blocks[j], prev)
          && (SelectionHash(h, blocks[k], prev) == SelectionHash(h, blocks[j], prev) ==> k <= j))
    && (!Early(blocks, selected, stop, k) ==> forall j :: 0 <= j < |blocks| && blocks[j].hash !in selected ==> k <= j)
  }

  lemma ChosenOnce(blocks: seq<BlockIndex>, selected: set<nat>, stop: int, h: (nat, nat) -> nat, prev: nat, k: nat, l: nat)
    requires Chosen(blocks, selected, stop, h, prev, k) && Chosen(blocks, selected, stop, h, prev, l)
    ensures k == l
  {
    assert Early(blocks, selected, stop, k) <==> Early(blocks, selected, stop, l);
  }

  // A candidate is the one chosen exactly if none of those not selected and not after stop is preferred to it, or as
  // good and earlier; if there are none, exactly if it is the first not selected.
  lemma ChosenExactly(blocks: seq<BlockIndex>, selected: set<nat>, stop: int, h: (nat, nat) -> nat, prev: nat, k: nat)
    requires k < |blocks| && blocks[k].hash !in selected
    ensures Chosen(blocks, selected, stop, h, prev, k) <==>
              if exists j: nat :: Early(blocks, selected, stop, j) then
                && blocks[k].time <= stop
                && (forall j: nat :: Early(blocks, selected, stop, j) ==> NoWorse(h, blocks[k], blocks[j], prev))
                && (forall j: nat :: Early(blocks, selected, stop, j) && j < k ==> !NoWorse(h, blocks[j], blocks[k], prev))
              else forall j :: 0 <= j < k ==> blocks[j].hash in selected
  {
    hide SelectionHash, NoWorse;
    forall j: nat | j < |blocks|
      ensures SelectionHash(h, blocks[k], prev) <= SelectionHash(h, blocks[j], prev) <==> NoWorse(h, blocks[k], blocks[j], prev)
      ensures SelectionHash(h, blocks[j], prev) <= SelectionHash(h, blocks[k], prev) <==> NoWorse(h, blocks[j], blocks[k], prev)
    {
      SelectionOrder(h, blocks[k], blocks[j], prev);
      SelectionOrder(h, blocks[j], blocks[k], prev);
    }
  }

  ghost predicate Known(sorted: seq<(nat, nat)>, index: map<nat, BlockIndex>) {
    forall i :: 0 <= i < |sorted| ==> sorted[i].1 in index
  }

  // The blocks that (time, hash) pairs stand for.
  function Resolve(sorted: seq<(nat, nat)>, index: map<nat, BlockIndex>): (r: seq<BlockIndex>)
    requires Known(sorted, index)
    ensures |r| == |sorted| && forall i :: 0 <= i < |sorted| ==> r[i] == index[sorted[i].1]
  {
    seq(|sorted|, i requires 0 <= i < |sorted| => index[sorted[i].1])
  }

  lemma AllKnown(sorted: seq<(nat, nat)>, index: map<nat, BlockIndex>)
    requires Known(sorted, index)
    ensures FirstUnknown(sorted, index) == |sorted| && sorted[..|sorted|] == sorted
  {
    hide FirstUnknown;
  }

  // Some block after an unselected one is later than stop.
  ghost predicate Ends(blocks: seq<BlockIndex>, selected: set<nat>, stop: int) {
    exists i, j :: 0 <= i < j < |blocks| && blocks[i].hash !in selected && blocks[j].time > stop
  }

  lemma EndsNext(blocks: seq<BlockIndex>, selected: set<nat>, stop: int, i: nat)
    requires i < |blocks| && !Ends(blocks[..i], selected, stop)
    ensures Ends(blocks[..i + 1], selected, stop)
            <==> blocks[i].time > stop && exists j :: 0 <= j < i && blocks[j].hash !in selected
    ensures Ends(blocks[..i + 1], selected, stop) ==> Ends(blocks, selected, stop)
  {
    var b := blocks[..i + 1];
    assert forall j :: 0 <= j < i ==> blocks[..i][j] == b[j] == blocks[j];
    assert b[i] == blocks[i];
  }

  ghost predicate InOrder(blocks: seq<BlockIndex>) {
    forall i, j :: 0 <= i < j < |blocks| ==> blocks[i].time <= blocks[j].time
  }

  // The first pair whose hash is in no index entry, or their number.
  function FirstUnknown(sorted: seq<(nat, nat)>, index: map<nat, BlockIndex>): (u: nat)
    ensures u <= |sorted| && Known(sorted[..u], index) && (u < |sorted| ==> sorted[u].1 !in index)
  {
    if sorted == [] || sorted[0].1 !in index then 0
    else
      var u := FirstUnknown(sorted[1..], index) + 1;
      assert forall i :: 0 < i < u ==> sorted[i] == sorted[1..][i - 1];
      u
  }

  // The blocks before i are all selected, or pick is the one chosen of them.
  ghost predicate ChosenTo(blocks: seq<BlockIndex>, selected: set<nat>, stop: int, h: (nat, nat) -> nat, prev: nat, i: nat,
                           found: bool, pick: nat)
    requires i <= |blocks|
  {
    if found then Chosen(blocks[..i], selected, stop, h, prev, pick)
    else forall j :: 0 <= j < i ==> blocks[j].hash in selected
  }

  // The next block replaces the one chosen if it is the first free one, or its hash is less.
  lemma ChosenNext(blocks: seq<BlockIndex>, selected: set<nat>, stop: int, h: (nat, nat) -> nat, prev: nat, i: nat,
                   found: bool, pick: nat)
    requires i < |blocks| && InOrder(blocks) && ChosenTo(blocks, selected, stop, h, prev, i, found, pick)
    requires found ==> blocks[i].time <= stop
    ensures found ==> pick < i
    ensures if blocks[i].hash in selected then ChosenTo(blocks, selected, stop, h, prev, i + 1, found, pick)
            else if !found || SelectionHash(h, blocks[i], prev) < SelectionHash(h, blocks[pick], prev)
            then ChosenTo(blocks, selected, stop, h, prev, i + 1, true, i)
            else ChosenTo(blocks, selected, stop, h, prev, i + 1, true, pick)
  {
    hide SelectionHash;
    var b, c := blocks[..i], blocks[..i + 1];
    forall j: nat | j < i
      ensures b[j] == c[j] && (Early(c, selected, stop, j) <==> Early(b, selected, stop, j))
    {
    }
    assert c[i] == blocks[i];
  }

  // Once one is chosen, blocks after stop change nothing.
  lemma ChosenRest(blocks: seq<BlockIndex>, selected: set<nat>, stop: int, h: (nat, nat) -> nat, prev: nat, i: nat, pick: nat)
    requires i <= |blocks| && InOrder(blocks) && ChosenTo(blocks, selected, stop, h, prev, i, true, pick)
    requires i < |blocks| ==> blocks[i].time > stop
    ensures Chosen(blocks, selected, stop, h, prev, pick)
  {
    hide SelectionHash;
    var b := blocks[..i];
    forall j: nat | j < |blocks|
      ensures Early(blocks, selected, stop, j) <==> j < i && Early(b, selected, stop, j)
      ensures j < i ==> b[j] == blocks[j]
    {
    }
  }

  lemma NotEnded(blocks: seq<BlockIndex>, selected: set<nat>, stop: int, h: (nat, nat) -> nat, prev: nat, i: nat,
                 found: bool, pick: nat)
    requires i <= |blocks| && ChosenTo(blocks, selected, stop, h, prev, i, found, pick)
    ensures found <==> exists j :: 0 <= j < i && blocks[j].hash !in selected
  {
    if found {
      assert blocks[..i][pick] == blocks[pick];
    }
  }

  // SelectBlockFromCandidates; pick is the place of the selected block. Meeting a candidate that is not in the
  // index is an error; that happens unless the loop has ended before.
  method SelectBlockFromCandidates(sorted: seq<(nat, nat)>, index: map<nat, BlockIndex>, selected: set<nat>, stop: int,
                                   prev: nat, h: (nat, nat) -> nat)
    returns (fSelected: bool, pindexSelected: BlockIndex, ghost pick: nat)
    requires InOrder(Resolve(sorted[..FirstUnknown(sorted, index)], index))
    ensures var blocks := Resolve(sorted[..FirstUnknown(sorted, index)], index);
            && (fSelected ==> Chosen(blocks, selected, stop, h, prev, pick) && pindexSelected == blocks[pick])
            && (fSelected ==> forall j: nat :: Early(blocks, selected, stop, j) ==> NoWorse(h, pindexSelected, blocks[j], prev))
            && (fSelected <==> if |blocks| == |sorted| then exists j :: 0 <= j < |blocks| && blocks[j].hash !in selected
                               else Ends(blocks, selected, stop))
  {
    hide ChosenTo, Chosen, Ends, InOrder, NoWorse, Early;
    ghost var u := FirstUnknown(sorted, index);
    ghost var blocks := Resolve(sorted[..u], index);
    fSelected := false;
    var hashBest := 0;
    pindexSelected := BlockIndex(0, 0, 0, false, 0, false, 0, false);
    pick := 0;
    ChosenNone(blocks, selected, stop, h, prev);
    var i := 0;
    while i < |sorted|
      invariant i <= u && !Ends(blocks[..i], selected, stop)
      invariant ChosenTo(blocks, selected, stop, h, prev, i, fSelected, pick)
      invariant fSelected ==> pick < i && pindexSelected == blocks[pick] && hashBest == SelectionHash(h, pindexSelected, prev)
    {
      NotEnded(blocks, selected, stop, h, prev, i, fSelected, pick);
      if sorted[i].1 !in index {
        // One candidate that is not indexed fails the draw.
        assert blocks[..i] == blocks;
        return false, pindexSelected, pick;
      }
      var pindex := index[sorted[i].1];
      assert pindex == blocks[i];
      EndsNext(blocks, selected, stop, i);
      if fSelected && pindex.time > stop {
        break;
      }
      ChosenNext(blocks, selected, stop, h, prev, i, fSelected, pick);
      if pindex.hash !in selected {
        var hashProof := if pindex.proofOfStake then pindex.hashProofOfStake else pindex.hash;
        var hashSelection := h(hashProof, prev);
        if pindex.proofOfStake {
          hashSelection := hashSelection / 0x1_0000_0000;
        }
        if fSelected && hashSelection < hashBest {
          hashBest := hashSelection;
          pindexSelected := pindex;
          pick := i;
        } else if !fSelected {
          fSelected := true;
          hashBest := hashSelection;
          pindexSelected := pindex;
          pick := i;
        }
      }
      i := i + 1;
    }
    NotEnded(blocks, selected, stop, h, prev, i, fSelected, pick);
    if fSelected {
      ChosenRest(blocks, selected, stop, h, prev, i, pick);
      ChosenNoWorse(blocks, selected, stop, h, prev, pick);
    }
    assert blocks[..|blocks|] == blocks;
  }

  lemma ChosenNoWorse(blocks: seq<BlockIndex>, selected: set<nat>, stop: int, h: (nat, nat) -> nat, prev: nat, k: nat)
    requires Chosen(blocks, selected, stop, h, prev, k)
    ensures k < |blocks| && forall j: nat :: Early(blocks, selected, stop, j) ==> NoWorse(h, blocks[k], blocks[j], prev)
  {
    hide NoWorse;
    ChosenExactly(blocks, selected, stop, h, prev, k);
  }

  lemma ChosenNone(blocks: seq<BlockIndex>, selected: set<nat>, stop: int, h: (nat, nat) -> nat, prev: nat)
    ensures ChosenTo(blocks, selected, stop, h, prev, 0, false, 0) && !Ends(blocks[..0], selected, stop)
  {
  }

  // ---------- the candidates ----------

  // mapBlockIndex holds the chain, and every block knows its height.
  ghost predicate Indexed(chain: seq<BlockIndex>, index: map<nat, BlockIndex>) {
    forall i :: 0 <= i < |chain| ==> chain[i].height == i && chain[i].hash in index && index[chain[i].hash] == chain[i]
  }

  // The first block of the last stretch of the chain whose times are all at least start.
  function FirstCandidate(chain: seq<BlockIndex>, start: int): (k: nat)
    ensures k <= |chain|
    ensures forall i :: k <= i < |chain| ==> chain[i].time >= start
    ensures k > 0 ==> chain[k - 1].time < start
  {
    if chain == [] || chain[|chain| - 1].time < start then |chain| else FirstCandidate(chain[..|chain| - 1], start)
  }

  function PairOf(b: BlockIndex): (nat, nat) { (b.time, b.hash) }

  function Pairs(blocks: seq<BlockIndex>): (r: seq<(nat, nat)>)
    ensures |r| == |blocks| && forall i :: 0 <= i < |blocks| ==> r[i] == PairOf(blocks[i])
  {
    seq(|blocks|, i requires 0 <= i < |blocks| => PairOf(blocks[i]))
  }

  // operator< of std::pair
  predicate Less(p: (nat, nat), q: (nat, nat)) {
    p.0 < q.0 || (p.0 == q.0 && p.1 < q.1)
  }

  ghost predicate SortedPairs(s: seq<(nat, nat)>) {
    forall i, j :: 0 <= i < j < |s| ==> !Less(s[j], s[i])
  }

  // std::sort
  function Sort(s: seq<(nat, nat)>): (r: seq<(nat, nat)>)
    ensures SortedPairs(r) && multiset(r) == multiset(s)
  {
    if s == [] then []
    else
      assert s == s[..|s| - 1] + [s[|s| - 1]];
      Insert(Sort(s[..|s| - 1]), s[|s| - 1])
  }

  function Insert(s: seq<(nat, nat)>, p: (nat, nat)): (r: seq<(nat, nat)>)
    requires SortedPairs(s)
    ensures SortedPairs(r) && multiset(r) == multiset(s) + multiset{p}
  {
    if s == [] || !Less(p, s[|s| - 1]) then s + [p]
    else
      var front := s[..|s| - 1];
      assert s == front + [s[|s| - 1]];
      InsertFront(front, s[|s| - 1], p, Insert(front, p));
      Insert(front, p) + [s[|s| - 1]]
  }

  lemma InsertFront(front: seq<(nat, nat)>, last: (nat, nat), p: (nat, nat), r: seq<(nat, nat)>)
    requires SortedPairs(front + [last]) && SortedPairs(r) && multiset(r) == multiset(front) + multiset{p} && Less(p, last)
    ensures SortedPairs(r + [last])
  {
    forall i | 0 <= i < |r|
      ensures !Less(last, r[i])
    {
      assert r[i] in multiset(r);
      if r[i] in front {
        var k :| 0 <= k < |front| && front[k] == r[i];
        assert (front + [last])[k] == r[i] && (front + [last])[|front|] == last;
      }
    }
  }

  function SelectionStart(chain: seq<BlockIndex>, fTestNet: bool): int
    requires chain != []
  {
    chain[|chain| - 1].time / IntervalVersion(fTestNet) * IntervalVersion(fTestNet) - Sections(fTestNet, 64)
  }

  function SortedCandidates(chain: seq<BlockIndex>, fTestNet: bool): seq<(nat, nat)>
    requires chain != []
  {
    Sort(Pairs(chain[FirstCandidate(chain, SelectionStart(chain, fTestNet))..]))
  }

  // The candidates are the blocks of the window, by time and hash.
  lemma CandidatesAre(chain: seq<BlockIndex>, index: map<nat, BlockIndex>, k: nat, s: seq<(nat, nat)>)
    requires Indexed(chain, index) && k <= |chain| && multiset(s) == multiset(Pairs(chain[k..])) && SortedPairs(s)
    ensures |s| == |chain| - k && Known(s, index) && InOrder(Resolve(s, index))
    ensures forall b :: b in Resolve(s, index) <==> b in chain[k..]
    ensures forall i :: 0 <= i < |s| ==> Resolve(s, index)[i].time == s[i].0 && Resolve(s, index)[i].hash == s[i].1
    ensures forall i, j :: 0 <= i < j < |s| ==> s[i].1 != s[j].1
    ensures forall i, j :: 0 <= i < j < |s| ==> s[i].0 < s[j].0 || (s[i].0 == s[j].0 && s[i].1 < s[j].1)
  {
    var w := chain[k..];
    var p := Pairs(w);
    assert |multiset(s)| == |multiset(p)|;
    forall i | 0 <= i < |s|
      ensures exists j :: 0 <= j < |w| && s[i] == PairOf(w[j]) && s[i].1 in index && index[s[i].1] == w[j]
    {
      assert s[i] in multiset(s);
      assert s[i] in p;
      var j :| 0 <= j < |p| && p[j] == s[i];
      assert w[j] == chain[k + j];
    }
    forall b | b in w
      ensures b in Resolve(s, index)
    {
      var j :| 0 <= j < |w| && w[j] == b;
      assert p[j] in multiset(p);
      assert p[j] in s;
      var i :| 0 <= i < |s| && s[i] == p[j];
      assert w[j] == chain[k + j];
      assert Resolve(s, index)[i] == b;
    }
    DistinctHashes(chain, index, k);
    Unrepeated(s, p);
  }

  // The chain does not repeat a hash.
  lemma DistinctHashes(chain: seq<BlockIndex>, index: map<nat, BlockIndex>, k: nat)
    requires Indexed(chain, index) && k <= |chain|
    ensures var p := Pairs(chain[k..]); forall i, j :: 0 <= i < j < |p| ==> p[i].1 != p[j].1
  {
    var p := Pairs(chain[k..]);
    forall i, j | 0 <= i < j < |p|
      ensures p[i].1 != p[j].1
    {
      assert chain[k..][i] == chain[k + i] && chain[k..][j] == chain[k + j];
    }
  }

  lemma Unrepeated(s: seq<(nat, nat)>, p: seq<(nat, nat)>)
    requires multiset(s) == multiset(p) && forall i, j :: 0 <= i < j < |p| ==> p[i].1 != p[j].1
    ensures forall i, j :: 0 <= i < j < |s| ==> s[i].1 != s[j].1
  {
    forall i, j | 0 <= i < j < |s| && s[i].1 == s[j].1
      ensures false
    {
      assert s[i] in multiset(s) && s[j] in multiset(s);
      assert s[i] in p && s[j] in p;
      var a :| 0 <= a < |p| && p[a] == s[i];
      var b :| 0 <= b < |p| && p[b] == s[j];
      assert a == b;
      Twice(s, i, j);
      Once(p, a);
    }
  }

  lemma Twice<T>(s: seq<T>, i: nat, j: nat)
    requires i < j < |s| && s[i] == s[j]
    ensures multiset(s)[s[i]] >= 2
  {
    assert s == s[..j] + [s[j]] + s[j + 1..];
    assert s[i] in s[..j];
    assert multiset(s[..j])[s[i]] >= 1;
  }

  lemma Once(p: seq<(nat, nat)>, a: nat)
    requires a < |p| && forall i, j :: 0 <= i < j < |p| ==> p[i].1 != p[j].1
    ensures multiset(p)[p[a]] == 1
  {
    assert p == p[..a] + [p[a]] + p[a + 1..];
    assert p[a] !in p[..a] && p[a] !in p[a + 1..];
    assert multiset(p[..a])[p[a]] == 0 && multiset(p[a + 1..])[p[a]] == 0;
  }

  // ---------- the draw ----------

  function HashesAt(blocks: seq<BlockIndex>, picks: seq<nat>): (s: set<nat>)
    requires forall r :: 0 <= r < |picks| ==> picks[r] < |blocks|
    ensures |s| <= |picks|
    ensures forall r :: 0 <= r < |picks| ==> blocks[picks[r]].hash in s
  {
    if picks == [] then {}
    else
      var n := |picks| - 1;
      HashesAt(blocks, picks[..n]) + {blocks[picks[n]].hash}
  }

  function Rounds(blocks: seq<BlockIndex>): nat { if |blocks| < 64 then |blocks| else 64 }

  // Where the window of round r stops.
  function StopAt(start: int, fTestNet: bool, r: nat): int
    requires r < 64
  {
    start + Sections(fTestNet, r + 1)
  }

  // The places drawn in the first |picks| rounds.
  ghost predicate Picked(blocks: seq<BlockIndex>, start: int, fTestNet: bool, h: (nat, nat) -> nat, prev: nat, picks: seq<nat>) {
    && |picks| <= Rounds(blocks)
    && (forall r :: 0 <= r < |picks| ==> picks[r] < |blocks|)
    && (forall r :: 0 <= r < |picks| ==>
          Chosen(blocks, HashesAt(blocks, picks[..r]), StopAt(start, fTestNet, r), h, prev, picks[r]))
  }

  ghost predicate Shows(m: nat, blocks: seq<BlockIndex>, picks: seq<nat>)
    requires forall r :: 0 <= r < |picks| ==> picks[r] < |blocks|
  {
    forall z: nat :: BitAt(m, z) == (z < |picks| && blocks[picks[z]].entropyBit)
  }

  // The modifier m drawn from the candidates: bit r is the entropy bit of the block of round r, higher bits are 0.
  ghost predicate Drawn(blocks: seq<BlockIndex>, start: int, fTestNet: bool, h: (nat, nat) -> nat, prev: nat, m: nat) {
    exists picks :: Picked(blocks, start, fTestNet, h, prev, picks) && |picks| == Rounds(blocks) && Shows(m, blocks, picks)
  }

  // No block is drawn twice.
  lemma PicksDistinct(blocks: seq<BlockIndex>, start: int, fTestNet: bool, h: (nat, nat) -> nat, prev: nat, picks: seq<nat>)
    requires Picked(blocks, start, fTestNet, h, prev, picks)
    ensures forall r, q :: 0 <= r < q < |picks| ==> blocks[picks[r]].hash != blocks[picks[q]].hash && picks[r] != picks[q]
  {
    forall r, q | 0 <= r < q < |picks|
      ensures blocks[picks[r]].hash != blocks[picks[q]].hash
    {
      assert Chosen(blocks, HashesAt(blocks, picks[..q]), StopAt(start, fTestNet, q), h, prev, picks[q]);
      assert picks[..q][r] == picks[r];
    }
  }

  // The draw has one outcome.
  lemma {:induction false} PicksOnce(blocks: seq<BlockIndex>, start: int, fTestNet: bool, h: (nat, nat) -> nat, prev: nat,
                                     picks: seq<nat>, picks': seq<nat>)
    requires Picked(blocks, start, fTestNet, h, prev, picks) && Picked(blocks, start, fTestNet, h, prev, picks')
    requires |picks| == |picks'|
    ensures picks == picks'
  {
    hide Chosen, HashesAt, StopAt;
    if picks != [] {
      var n := |picks| - 1;
      PickedPrefix(blocks, start, fTestNet, h, prev, picks);
      PickedPrefix(blocks, start, fTestNet, h, prev, picks');
      PicksOnce(blocks, start, fTestNet, h, prev, picks[..n], picks'[..n]);
      ChosenOnce(blocks, HashesAt(blocks, picks[..n]), StopAt(start, fTestNet, n), h, prev, picks[n], picks'[n]);
      assert picks == picks[..n] + [picks[n]] && picks' == picks'[..n] + [picks'[n]];
    }
  }

  lemma PickedPrefix(blocks: seq<BlockIndex>, start: int, fTestNet: bool, h: (nat, nat) -> nat, prev: nat, picks: seq<nat>)
    requires Picked(blocks, start, fTestNet, h, prev, picks) && picks != []
    ensures Picked(blocks, start, fTestNet, h, prev, picks[..|picks| - 1])
  {
    hide Chosen, HashesAt, StopAt;
    var p := picks[..|picks| - 1];
    forall r | 0 <= r < |p|
      ensures Chosen(blocks, HashesAt(blocks, p[..r]), StopAt(start, fTestNet, r), h, prev, p[r])
    {
      assert p[..r] == picks[..r];
    }
  }

  lemma PickedNext(blocks: seq<BlockIndex>, start: int, fTestNet: bool, h: (nat, nat) -> nat, prev: nat, picks: seq<nat>, k: nat)
    requires Picked(blocks, start, fTestNet, h, prev, picks) && |picks| < Rounds(blocks)
    requires k < |blocks| && Chosen(blocks, HashesAt(blocks, picks), StopAt(start, fTestNet, |picks|), h, prev, k)
    ensures Picked(blocks, start, fTestNet, h, prev, picks + [k])
  {
    hide StopAt, Chosen, HashesAt;
    var p := picks + [k];
    assert p[..|picks|] == picks;
    forall r | 0 <= r < |p|
      ensures Chosen(blocks, HashesAt(blocks, p[..r]), StopAt(start, fTestNet, r), h, prev, p[r])
    {
      if r < |picks| {
        assert p[..r] == picks[..r];
      }
    }
  }

  lemma HashesNext(blocks: seq<BlockIndex>, picks: seq<nat>, k: nat)
    requires (forall r :: 0 <= r < |picks| ==> picks[r] < |blocks|) && k < |blocks|
    ensures HashesAt(blocks, picks + [k]) == HashesAt(blocks, picks) + {blocks[k].hash}
  {
    assert (picks + [k])[..|picks|] == picks;
  }

  lemma {:induction false} Pigeons(blocks: seq<BlockIndex>, s: set<nat>)
    requires forall i, j :: 0 <= i < j < |blocks| ==> blocks[i].hash != blocks[j].hash
    requires forall i :: 0 <= i < |blocks| ==> blocks[i].hash in s
    ensures |blocks| <= |s|
  {
    if blocks != [] {
      var n := |blocks| - 1;
      var x := blocks[n].hash;
      Pigeons(blocks[..n], s - {x});
    }
  }

  lemma ShowsNext(m: nat, blocks: seq<BlockIndex>, picks: seq<nat>, k: nat)
    requires (forall r :: 0 <= r < |picks| ==> picks[r] < |blocks|) && k < |blocks| && Shows(m, blocks, picks)
    ensures Shows(BitOr(m, BitShifted(blocks[k].entropyBit, |picks|)), blocks, picks + [k])
  {
    hide BitAt, BitOr, BitShifted;
    forall z: nat
      ensures BitAt(BitOr(m, BitShifted(blocks[k].entropyBit, |picks|)), z)
              == (z < |picks| + 1 && blocks[(picks + [k])[z]].entropyBit)
    {
      OrBit(m, BitShifted(blocks[k].entropyBit, |picks|), z);
      BitShiftedBit(blocks[k].entropyBit, |picks|, z);
      assert BitAt(m, z) == (z < |picks| && blocks[picks[z]].entropyBit);
    }
  }

  // ---------- the next modifier ----------

  // The last block of the chain that generated a modifier, or -1.
  function LastGenerated(chain: seq<BlockIndex>): (j: int)
    ensures -1 <= j < |chain|
    ensures j >= 0 ==> chain[j].generated
    ensures forall k :: j < k < |chain| ==> !chain[k].generated
  {
    if chain == [] then -1
    else if chain[|chain| - 1].generated then |chain| - 1
    else LastGenerated(chain[..|chain| - 1])
  }

  // What the block after the chain carries: the modifier m, generated there if g.
  ghost predicate NextModifier(chain: seq<BlockIndex>, index: map<nat, BlockIndex>, fTestNet: bool, h: (nat, nat) -> nat,
                               m: nat, g: bool)
    requires Indexed(chain, index)
  {
    if chain == [] then m == 0 && g
    else
      var j := LastGenerated(chain);
      && j >= 0
      && if chain[j].time / IntervalVersion(fTestNet) >= chain[|chain| - 1].time / IntervalVersion(fTestNet) then
           m == chain[j].modifier && !g
         else
           && g && Known(SortedCandidates(chain, fTestNet), index)
           && Drawn(Resolve(SortedCandidates(chain, fTestNet), index), SelectionStart(chain, fTestNet), fTestNet, h,
                    chain[j].modifier, m)
  }

  // Every node computes the same modifier.
  lemma NextModifierOnce(chain: seq<BlockIndex>, index: map<nat, BlockIndex>, fTestNet: bool, h: (nat, nat) -> nat,
                         m: nat, g: bool, m': nat, g': bool)
    requires Indexed(chain, index)
    requires NextModifier(chain, index, fTestNet, h, m, g) && NextModifier(chain, index, fTestNet, h, m', g')
    ensures m == m' && g == g'
  {
    hide Picked, Resolve, SortedCandidates, Sections, SelectionStart;
    if g && chain != [] {
      var blocks := Resolve(SortedCandidates(chain, fTestNet), index);
      var start, prev := SelectionStart(chain, fTestNet), chain[LastGenerated(chain)].modifier;
      DrawnOnce(blocks, start, fTestNet, h, prev, m, m');
    }
  }

  lemma DrawnOnce(blocks: seq<BlockIndex>, start: int, fTestNet: bool, h: (nat, nat) -> nat, prev: nat, m: nat, m': nat)
    requires Drawn(blocks, start, fTestNet, h, prev, m) && Drawn(blocks, start, fTestNet, h, prev, m')
    ensures m == m'
  {
    var picks :| Picked(blocks, start, fTestNet, h, prev, picks) && |picks| == Rounds(blocks) && Shows(m, blocks, picks);
    var picks' :| Picked(blocks, start, fTestNet, h, prev, picks') && |picks'| == Rounds(blocks) && Shows(m', blocks, picks');
    PicksOnce(blocks, start, fTestNet, h, prev, picks, picks');
    SameBits(m, m');
  }

  // GetLastStakeModifier
  method GetLastStakeModifier(chain: seq<BlockIndex>) returns (ok: bool, nStakeModifier: nat, nModifierTime: nat)
    ensures ok <==> LastGenerated(chain) >= 0
    ensures ok ==> nStakeModifier == chain[LastGenerated(chain)].modifier && nModifierTime == chain[LastGenerated(chain)].time
    ensures !ok ==> nStakeModifier == 0
  {
    if chain == [] {
      // null pindex
      return false, 0, 0;
    }
    var i := |chain| - 1;
    while i > 0 && !chain[i].generated
      invariant 0 <= i < |chain|
      invariant forall k :: i < k < |chain| ==> !chain[k].generated
    {
      i := i - 1;
    }
    if !chain[i].generated {
      return false, 0, 0;
    }
    return true, chain[i].modifier, chain[i].time;
  }

  // The candidates of the window, sorted.
  method CollectCandidates(chain: seq<BlockIndex>, start: int) returns (vSortedByTimestamp: seq<(nat, nat)>)
    ensures vSortedByTimestamp == Sort(Pairs(chain[FirstCandidate(chain, start)..]))
  {
    hide Sort, FirstCandidate, Pairs;
    assert chain[..|chain|] == chain;
    vSortedByTimestamp := [];
    var i := |chain|;
    while i > 0 && chain[i - 1].time >= start
      invariant 0 <= i <= |chain|
      invariant FirstCandidate(chain, start) == FirstCandidate(chain[..i], start)
      invariant Reverse(vSortedByTimestamp) == Pairs(chain[i..])
    {
      CandidateStep(chain, start, i);
      vSortedByTimestamp := vSortedByTimestamp + [PairOf(chain[i - 1])];
      i := i - 1;
      assert chain[i..] == [chain[i]] + chain[i + 1..];
      assert Reverse(vSortedByTimestamp) == [PairOf(chain[i])] + Pairs(chain[i + 1..]);
    }
    CandidateStep(chain, start, i);
    vSortedByTimestamp := Reverse(vSortedByTimestamp);
    vSortedByTimestamp := Sort(vSortedByTimestamp);
  }

  lemma CandidateStep(chain: seq<BlockIndex>, start: int, i: nat)
    requires i <= |chain|
    ensures FirstCandidate(chain[..i], start)
            == if i == 0 || chain[i - 1].time < start then i else FirstCandidate(chain[..i - 1], start)
  {
    if i > 0 {
      assert chain[..i][..i - 1] == chain[..i - 1];
    }
  }

  // The rounds of ComputeNextStakeModifier: they always find a block.
  method DrawModifier(sorted: seq<(nat, nat)>, index: map<nat, BlockIndex>, start: int, fTestNet: bool, prev: nat,
                      h: (nat, nat) -> nat)
    returns (ok: bool, nStakeModifierNew: nat)
    requires Known(sorted, index) && InOrder(Resolve(sorted, index))
    requires var b := Resolve(sorted, index); forall i, j :: 0 <= i < j < |b| ==> b[i].hash != b[j].hash
    ensures ok && Drawn(Resolve(sorted, index), start, fTestNet, h, prev, nStakeModifierNew)
  {
    hide Chosen, HashesAt, BitAt, BitOr, BitShifted, Section, Resolve;
    ghost var blocks := Resolve(sorted, index);
    nStakeModifierNew := 0;
    var nSelectionIntervalStop := start;
    var selected: set<nat> := {};
    ghost var picks: seq<nat> := [];
    AllKnown(sorted, index);
    NothingDrawn(blocks);
    for nRound := 0 to if |sorted| < 64 then |sorted| else 64
      invariant nRound == |picks| && nSelectionIntervalStop == start + Sections(fTestNet, nRound)
      invariant Picked(blocks, start, fTestNet, h, prev, picks)
      invariant selected == HashesAt(blocks, picks) && Shows(nStakeModifierNew, blocks, picks)
    {
      nSelectionIntervalStop := nSelectionIntervalStop + Section(fTestNet, nRound);
      var fSelected, pindex;
      ghost var pick;
      fSelected, pindex, pick := SelectBlockFromCandidates(sorted, index, selected, nSelectionIntervalStop, prev, h);
      if !fSelected {
        // unable to select block: cannot happen
        Pigeons(blocks, selected);
        assert false;
      }
      ChosenPlace(blocks, selected, nSelectionIntervalStop, h, prev, pick);
      ShowsNext(nStakeModifierNew, blocks, picks, pick);
      PickedNext(blocks, start, fTestNet, h, prev, picks, pick);
      HashesNext(blocks, picks, pick);
      nStakeModifierNew := BitOr(nStakeModifierNew, BitShifted(pindex.entropyBit, nRound));
      selected := selected + {pindex.hash};
      picks := picks + [pick];
    }
    return true, nStakeModifierNew;
  }

  lemma ChosenPlace(blocks: seq<BlockIndex>, selected: set<nat>, stop: int, h: (nat, nat) -> nat, prev: nat, k: nat)
    requires Chosen(blocks, selected, stop, h, prev, k)
    ensures k < |blocks|
  {
  }

  lemma NothingDrawn(blocks: seq<BlockIndex>)
    ensures HashesAt(blocks, []) == {} && Shows(0, blocks, [])
  {
    forall z: nat
      ensures !BitAt(0, z)
    {
      ZeroBit(z);
    }
  }

  // The part that draws a new modifier.
  method DrawNext(chain: seq<BlockIndex>, index: map<nat, BlockIndex>, fTestNet: bool, prev: nat, h: (nat, nat) -> nat)
    returns (ok: bool, nStakeModifierNew: nat)
    requires Indexed(chain, index) && chain != []
    ensures ok && Known(SortedCandidates(chain, fTestNet), index)
            && Drawn(Resolve(SortedCandidates(chain, fTestNet), index), SelectionStart(chain, fTestNet), fTestNet, h,
                     prev, nStakeModifierNew)
  {
    hide Sort, Pairs, FirstCandidate, Resolve, Drawn, Sections, SelectionStart, IntervalVersion, InOrder, SortedPairs;
    var interval := IntervalVersion(fTestNet);
    var nSelectionInterval := GetStakeModifierSelectionInterval(fTestNet);
    StartIs(chain, fTestNet, interval, nSelectionInterval);
    var start := chain[|chain| - 1].time / interval * interval - nSelectionInterval;
    var vSortedByTimestamp := CollectCandidates(chain, start);
    CandidatesAre(chain, index, FirstCandidate(chain, start), vSortedByTimestamp);
    ok, nStakeModifierNew := DrawModifier(vSortedByTimestamp, index, start, fTestNet, prev, h);
  }

  lemma StartIs(chain: seq<BlockIndex>, fTestNet: bool, interval: nat, sections: nat)
    requires chain != [] && interval == IntervalVersion(fTestNet) && sections == Sections(fTestNet, 64)
    ensures interval > 0
    ensures SelectionStart(chain, fTestNet) == chain[|chain| - 1].time / interval * interval - sections
  {
    hide Sections;
  }

  // ComputeNextStakeModifier for the block after chain; it fails only if no block of the chain generated a modifier.
  method ComputeNextStakeModifier(chain: seq<BlockIndex>, index: map<nat, BlockIndex>, fTestNet: bool, h: (nat, nat) -> nat)
    returns (ok: bool, nStakeModifier: nat, fGenerated: bool)
    requires Indexed(chain, index)
    ensures ok <==> chain == [] || LastGenerated(chain) >= 0
    ensures ok ==> NextModifier(chain, index, fTestNet, h, nStakeModifier, fGenerated)
    ensures !ok ==> nStakeModifier == 0 && !fGenerated
  {
    hide SortedCandidates, SelectionStart, Resolve, Drawn;
    nStakeModifier := 0;
    fGenerated := false;
    if chain == [] {
      return true, 0, true;
    }
    var nModifierTime;
    ok, nStakeModifier, nModifierTime := GetLastStakeModifier(chain);
    if !ok {
      return;
    }
    var interval := IntervalVersion(fTestNet);
    if nModifierTime / interval >= chain[|chain| - 1].time / interval {
      return;
    }
    ok, nStakeModifier := DrawNext(chain, index, fTestNet, nStakeModifier, h);
    fGenerated := true;
  }

  // After 64 rounds the window has reached the boundary of the interval the last block is in.
  lemma LastStop(chain: seq<BlockIndex>, fTestNet: bool)
    requires chain != []
    ensures var i, last := IntervalVersion(fTestNet), chain[|chain| - 1].time;
            var stop := StopAt(SelectionStart(chain, fTestNet), fTestNet, 63);
            stop % i == 0 && stop <= last < stop + i
  {
    hide Sections;
    Aligned(IntervalVersion(fTestNet), chain[|chain| - 1].time);
  }

  lemma Aligned(i: nat, t: nat)
    requires i == MODIFIER_INTERVAL || i == MODIFIER_INTERVAL_TESTNET
    ensures t / i * i <= t < t / i * i + i && t / i * i % i == 0
  {
    if i == MODIFIER_INTERVAL {
      assert t == t / 21600 * 21600 + t % 21600;
    } else {
      assert t == t / 60 * 60 + t % 60;
    }
  }

  // ---------- the chain ----------

  // Every block carries what ComputeNextStakeModifier and SetStakeModifier gave it.
  ghost predicate Grown(chain: seq<BlockIndex>, index: map<nat, BlockIndex>, fTestNet: bool, h: (nat, nat) -> nat) {
    && Indexed(chain, index)
    && forall i :: 0 <= i < |chain| ==> NextModifier(chain[..i], index, fTestNet, h, chain[i].modifier, chain[i].generated)
  }

  lemma LastGeneratedNext(chain: seq<BlockIndex>, i: nat)
    requires i < |chain|
    ensures LastGenerated(chain[..i + 1]) == if chain[i].generated then i else LastGenerated(chain[..i])
  {
    assert chain[..i + 1][..i] == chain[..i];
  }

  // Each block carries the modifier of its nearest generating ancestor or of itself.
  lemma CarriesModifier(chain: seq<BlockIndex>, index: map<nat, BlockIndex>, fTestNet: bool, h: (nat, nat) -> nat, i: nat)
    requires Grown(chain, index, fTestNet, h) && i < |chain|
    ensures var j := LastGenerated(chain[..i + 1]);
            0 <= j <= i && chain[i].modifier == chain[j].modifier && (chain[i].generated <==> j == i)
  {
    hide LastGenerated, Drawn, SortedCandidates, SelectionStart, Resolve;
    LastGeneratedNext(chain, i);
    assert NextModifier(chain[..i], index, fTestNet, h, chain[i].modifier, chain[i].generated);
  }

  // So the next block can always be computed.
  lemma GrownHasModifier(chain: seq<BlockIndex>, index: map<nat, BlockIndex>, fTestNet: bool, h: (nat, nat) -> nat)
    requires Grown(chain, index, fTestNet, h) && chain != []
    ensures LastGenerated(chain) >= 0 && chain[0].generated && chain[0].modifier == 0
  {
    hide LastGenerated, Drawn;
    CarriesModifier(chain, index, fTestNet, h, |chain| - 1);
    assert chain[..|chain|] == chain;
    assert chain[..0] == [];
    assert NextModifier(chain[..0], index, fTestNet, h, chain[0].modifier, chain[0].generated);
  }

  // A block that generates follows one in a later interval than the last generation.
  lemma GeneratesLater(chain: seq<BlockIndex>, index: map<nat, BlockIndex>, fTestNet: bool, h: (nat, nat) -> nat, b: nat)
    requires Grown(chain, index, fTestNet, h) && 0 < b < |chain|
    ensures var a, i := LastGenerated(chain[..b]), IntervalVersion(fTestNet);
            0 <= a && (chain[b].generated <==> chain[a].time / i < chain[b - 1].time / i)
  {
    hide LastGenerated, Drawn, SortedCandidates, SelectionStart, Resolve;
    assert NextModifier(chain[..b], index, fTestNet, h, chain[b].modifier, chain[b].generated);
  }

  // When times never decrease, no two generating blocks share an interval.
  lemma {:induction false} IntervalsApart(chain: seq<BlockIndex>, index: map<nat, BlockIndex>, fTestNet: bool,
                                          h: (nat, nat) -> nat, a: nat, b: nat)
    requires Grown(chain, index, fTestNet, h) && InOrder(chain)
    requires a < b < |chain| && chain[a].generated && chain[b].generated
    ensures chain[a].time / IntervalVersion(fTestNet) < chain[b].time / IntervalVersion(fTestNet)
    decreases b
  {
    hide LastGenerated, Drawn, SortedCandidates, SelectionStart, Resolve, Grown, IntervalVersion;
    var c := LastGenerated(chain[..b]);
    GeneratesLater(chain, index, fTestNet, h, b);
    assert chain[..b][a] == chain[a];
    Positive(fTestNet);
    QuotientMono(chain[b - 1].time, chain[b].time, IntervalVersion(fTestNet));
    if a < c {
      assert chain[..b][c] == chain[c];
      IntervalsApart(chain, index, fTestNet, h, a, c);
    }
  }

  lemma Positive(fTestNet: bool)
    ensures IntervalVersion(fTestNet) == 60 || IntervalVersion(fTestNet) == 21600
  {
  }

  lemma QuotientMono(x: nat, y: nat, d: nat)
    requires x <= y && (d == 60 || d == 21600)
    ensures x / d <= y / d
  {
  }
}
