/** The part of CreateNewBlock that fills a block from the memory pool: transactions wait for the ones they
    spend, a priority queue with two orders decides who is next, and two budgets decide who gets in.

    Reading the disk, the inputs, the fees and the scripts is a parameter. Priorities are real numbers. */
module BlockTemplate {
  import opened Numbers

  datatype Tx = Tx(hash: nat, vin: seq<nat>, coinBaseOrStake: bool, final: bool, size: nat, legacySigOps: nat, time: nat,
                   priority: real, feePerKb: real)

  // A mempool transaction that depends on other mempool transactions. A pointer to it is its place in vOrphan; one
  // popped from vOrphan keeps its place, freed, so that pointers to it can be told.
  datatype Orphan = Orphan(tx: Tx, dependsOn: set<nat>, freed: bool)

  // What FetchInputs, GetValueIn, GetP2SHSigOpCount and ConnectInputs say of a transaction, given those in the block.
  datatype Verdict = Verdict(fetched: bool, fees: int, p2shSigOps: nat, connects: bool)

  const MAX_BLOCK_SIZE := 1000000
  const MAX_BLOCK_SIGOPS := MAX_BLOCK_SIZE / 50

  // ---------- what should happen ----------

  predicate Candidate(tx: Tx) { !tx.coinBaseOrStake && tx.final }

  // Neither in a block on disk nor in the pool.
  predicate Missing(p: nat, disk: set<nat>, pool: seq<Tx>) { p !in disk && p !in Hashes(pool) }

  predicate Whole(tx: Tx, disk: set<nat>, pool: seq<Tx>) {
    forall p :: p in tx.vin ==> !Missing(p, disk, pool)
  }

  predicate Eligible(tx: Tx, disk: set<nat>, pool: seq<Tx>) { Candidate(tx) && Whole(tx, disk, pool) }

  // The unconfirmed transactions tx spends.
  function Parents(tx: Tx, disk: set<nat>): set<nat> { Unconfirmed(tx.vin, disk) }

  function Hashes(block: seq<Tx>): set<nat> {
    set tx | tx in block :: tx.hash
  }

  // The arguments of one run, and what disk, fees, scripts and clock say.
  datatype Settings = Settings(blockMaxSize: nat, blockPrioritySize: nat, blockMinSize: nat, minTxFee: int,
                               judge: (seq<Tx>, Tx) -> Verdict, minFee: (nat, Tx) -> int, tooLate: Tx -> bool)

  // nBlockMaxSize
  function MaxSize(s: Settings): (m: nat)
    ensures 1000 <= m <= 999000
    ensures if s.blockMaxSize < 1000 then m == 1000 else if s.blockMaxSize > 999000 then m == 999000 else m == s.blockMaxSize
  {
    Max(1000, Min(MAX_BLOCK_SIZE - 1000, s.blockMaxSize))
  }

  function Size(block: seq<Tx>): nat {
    if block == [] then 0 else Size(block[..|block| - 1]) + block[|block| - 1].size
  }

  // The signature operations of transaction k are counted with the transactions before it in the block.
  function SigOps(block: seq<Tx>, s: Settings): nat {
    if block == [] then 0
    else
      var n := |block| - 1;
      SigOps(block[..n], s) + block[n].legacySigOps + s.judge(block[..n], block[n]).p2shSigOps
  }

  function Fees(block: seq<Tx>, s: Settings): int {
    if block == [] then 0
    else
      var n := |block| - 1;
      Fees(block[..n], s) + s.judge(block[..n], block[n]).fees
  }

  ghost predicate DistinctHashes(txs: seq<Tx>) {
    forall i, j :: 0 <= i < j < |txs| ==> txs[i].hash != txs[j].hash
  }

  // How many inputs of a transaction are read: those before the first missing one.
  function Readable(vin: seq<nat>, disk: set<nat>, pool: seq<Tx>): (n: nat)
    ensures n <= |vin| && (n < |vin| ==> Missing(vin[n], disk, pool))
    ensures forall m :: 0 <= m < n ==> !Missing(vin[m], disk, pool)
  {
    if vin == [] || Missing(vin[0], disk, pool) then 0 else 1 + Readable(vin[1..], disk, pool)
  }

  // The unconfirmed transactions found to be waited for in reading the inputs.
  function Awaited(tx: Tx, disk: set<nat>, pool: seq<Tx>): set<nat> {
    Unconfirmed(tx.vin[..Readable(tx.vin, disk, pool)], disk)
  }

  // An input is missing after an unconfirmed one: the orphan made for that is freed again, mapDependers points to it.
  predicate LeavesFreed(tx: Tx, disk: set<nat>, pool: seq<Tx>) {
    Candidate(tx) && !Whole(tx, disk, pool) && Awaited(tx, disk, pool) != {}
  }

  // Everything tx waits for is in the block.
  predicate Ready(tx: Tx, disk: set<nat>, block: seq<Tx>) {
    Parents(tx, disk) <= Hashes(block)
  }

  // ---------- the priority queue ----------

  // TxPriorityCompare
  predicate Below(a: Tx, b: Tx, byFee: bool) {
    if byFee then (if a.feePerKb == b.feePerKb then a.priority < b.priority else a.feePerKb < b.feePerKb)
    else (if a.priority == b.priority then a.feePerKb < b.feePerKb else a.priority < b.priority)
  }

  ghost predicate Best(queue: seq<Tx>, k: nat, byFee: bool) {
    k < |queue| && forall j :: 0 <= j < |queue| ==> !Below(queue[k], queue[j], byFee)
  }

  lemma {:induction false} BestExists(queue: seq<Tx>, byFee: bool) returns (k: nat)
    requires queue != []
    ensures Best(queue, k, byFee)
  {
    var n := |queue| - 1;
    if n == 0 {
      k := 0;
    } else {
      var front := queue[..n];
      k := BestExists(front, byFee);
      forall j | 0 <= j < n
        ensures !Below(queue[k], queue[j], byFee)
      {
        assert !Below(front[k], front[j], byFee);
      }
      if Below(queue[k], queue[n], byFee) {
        k := n;
      }
    }
  }

  // A transaction of the queue that none is above.
  ghost predicate First(tx: Tx, queue: seq<Tx>, byFee: bool) {
    tx in queue && forall x :: x in queue ==> !Below(tx, x, byFee)
  }

  // In the two numbers: nobody pays more when fees decide, nobody has more priority otherwise, and the other number
  // breaks ties.
  lemma FirstIs(tx: Tx, queue: seq<Tx>, byFee: bool)
    ensures First(tx, queue, byFee) <==>
              tx in queue && forall x :: x in queue ==>
                if byFee then x.feePerKb < tx.feePerKb || (x.feePerKb == tx.feePerKb && x.priority <= tx.priority)
                else x.priority < tx.priority || (x.priority == tx.priority && x.feePerKb <= tx.feePerKb)
  {
  }

  // front and pop_heap: some transaction that none is above.
  method TakeBest(queue: seq<Tx>, byFee: bool) returns (tx: Tx, rest: seq<Tx>, ghost k: nat)
    requires queue != []
    ensures Best(queue, k, byFee) && tx == queue[k] && rest == queue[..k] + queue[k + 1..]
    ensures First(tx, queue, byFee) && |rest| == |queue| - 1
    ensures forall x :: x in queue ==>
              if byFee then x.feePerKb < tx.feePerKb || (x.feePerKb == tx.feePerKb && x.priority <= tx.priority)
              else x.priority < tx.priority || (x.priority == tx.priority && x.feePerKb <= tx.feePerKb)
  {
    ghost var w := BestExists(queue, byFee);
    var i :| 0 <= i < |queue| && forall j :: 0 <= j < |queue| ==> !Below(queue[i], queue[j], byFee);
    k := i;
    return queue[i], queue[..i] + queue[i + 1..], i;
  }

  // ---------- who waits for whom ----------

  ghost predicate Names(depends: map<nat, seq<nat>>, h: nat, i: nat) {
    h in depends && i in depends[h]
  }

  // mapDependers names, for each hash, the orphans that were found to spend it.
  ghost predicate Dependers(orphans: seq<Orphan>, depends: map<nat, seq<nat>>, disk: set<nat>, pool: seq<Tx>) {
    forall h: nat, i: nat :: Names(depends, h, i) <==> i < |orphans| && h in Awaited(orphans[i].tx, disk, pool)
  }

  // The orphans are the candidates with unconfirmed parents, one each, with the parents not yet in the block; those
  // freed are the ones with a missing input.
  ghost predicate Orphans(pool: seq<Tx>, disk: set<nat>, orphans: seq<Orphan>, block: seq<Tx>) {
    && (forall i :: 0 <= i < |orphans| ==>
          && orphans[i].tx in pool && Candidate(orphans[i].tx) && Awaited(orphans[i].tx, disk, pool) != {}
          && orphans[i].freed == !Whole(orphans[i].tx, disk, pool)
          && orphans[i].dependsOn == Awaited(orphans[i].tx, disk, pool) - Hashes(block))
    && (forall i, j :: 0 <= i < j < |orphans| ==> orphans[i].tx.hash != orphans[j].tx.hash)
    && (forall tx :: tx in pool && Candidate(tx) && Awaited(tx, disk, pool) != {} ==>
          exists i :: 0 <= i < |orphans| && orphans[i].tx == tx)
  }

  // A transaction in the block is one that a freed orphan waited for.
  ghost predicate Reached(pool: seq<Tx>, disk: set<nat>, block: seq<Tx>) {
    exists tx :: tx in pool && LeavesFreed(tx, disk, pool) && Awaited(tx, disk, pool) * Hashes(block) != {}
  }

  // The queue and the transactions taken from it are the ready ones, one each.
  ghost predicate Queued(pool: seq<Tx>, disk: set<nat>, block: seq<Tx>, queue: seq<Tx>, taken: set<nat>) {
    && DistinctHashes(queue)
    && (forall tx :: tx in queue ==> tx in pool && Eligible(tx, disk, pool) && Ready(tx, disk, block) && tx.hash !in taken)
    && (forall tx :: tx in pool && Eligible(tx, disk, pool) && Ready(tx, disk, block) ==> tx in queue || tx.hash in taken)
    && (forall tx :: tx in pool && tx.hash in taken ==> Eligible(tx, disk, pool) && Ready(tx, disk, block))
  }

  function Unreleased(orphans: seq<Orphan>): nat {
    if orphans == [] then 0
    else Unreleased(orphans[..|orphans| - 1]) + (if orphans[|orphans| - 1].dependsOn != {} then 1 else 0)
  }

  lemma {:induction false} UnreleasedUpdate(orphans: seq<Orphan>, i: nat, o: Orphan)
    requires i < |orphans|
    ensures Unreleased(orphans[i := o]) + (if orphans[i].dependsOn != {} then 1 else 0)
            == Unreleased(orphans) + (if o.dependsOn != {} then 1 else 0)
  {
    var n := |orphans| - 1;
    if i == n {
      assert orphans[i := o][..n] == orphans[..n];
    } else {
      assert orphans[i := o][..n] == orphans[..n][i := o];
      UnreleasedUpdate(orphans[..n], i, o);
    }
  }

  function Without(o: Orphan, hash: nat): Orphan { o.(dependsOn := o.dependsOn - {hash}) }

  // The orphans that hash was the last to hold back.
  ghost predicate Released(orphans: seq<Orphan>, hash: nat, i: nat) {
    i < |orphans| && orphans[i].dependsOn != {} && Without(orphans[i], hash).dependsOn == {}
  }

  // The dependers of a transaction that got into the block no longer wait for it; it ends at a freed one.
  method Release(orphans0: seq<Orphan>, depends: map<nat, seq<nat>>, hash: nat, queue: seq<Tx>)
    returns (freed: bool, orphans: seq<Orphan>, added: seq<Tx>)
    requires forall i: nat :: Names(depends, hash, i) ==> i < |orphans0|
    requires forall i: nat :: i < |orphans0| && hash in orphans0[i].dependsOn ==> Names(depends, hash, i)
    requires forall i, j :: 0 <= i < j < |orphans0| ==> orphans0[i].tx.hash != orphans0[j].tx.hash
    ensures freed <==> exists i: nat :: Names(depends, hash, i) && orphans0[i].freed
    ensures !freed ==> |orphans| == |orphans0| && forall i :: 0 <= i < |orphans| ==> orphans[i] == Without(orphans0[i], hash)
    ensures !freed ==> forall i: nat :: Released(orphans0, hash, i) ==> orphans0[i].tx in added
    ensures !freed ==> forall tx :: tx in added ==> exists i: nat :: Released(orphans0, hash, i) && orphans0[i].tx == tx
    ensures !freed ==> DistinctHashes(added) && |added| + Unreleased(orphans) == Unreleased(orphans0)
  {
    hide Unreleased;
    freed, orphans, added := false, orphans0, [];
    if hash in depends {
      var list := depends[hash];
      for k := 0 to |list|
        invariant |orphans| == |orphans0|
        invariant forall i :: 0 <= i < |orphans| ==>
                    orphans[i] == if i in list[..k] then Without(orphans0[i], hash) else orphans0[i]
        invariant forall i: nat :: i in list[..k] ==> i < |orphans0| && !orphans0[i].freed
        invariant forall i: nat :: i in list[..k] && Released(orphans0, hash, i) ==> orphans0[i].tx in added
        invariant forall tx :: tx in added ==> exists i: nat :: i in list[..k] && Released(orphans0, hash, i) && orphans0[i].tx == tx
        invariant DistinctHashes(added) && |added| + Unreleased(orphans) == Unreleased(orphans0)
      {
        var i := list[k];
        assert i in list;
        assert Names(depends, hash, i);
        assert list[..k + 1] == list[..k] + [i];
        if orphans[i].freed {
          return true, orphans, added;
        }
        if orphans[i].dependsOn != {} {
          var o := Without(orphans[i], hash);
          UnreleasedUpdate(orphans, i, o);
          orphans := orphans[i := o];
          if o.dependsOn == {} {
            assert i !in list[..k] by {
              assert orphans0[i].dependsOn - {hash} - {hash} == orphans0[i].dependsOn - {hash};
            }
            assert Released(orphans0, hash, i);
            forall tx | tx in added
              ensures tx.hash != o.tx.hash
            {
              var j: nat :| j in list[..k] && Released(orphans0, hash, j) && orphans0[j].tx == tx;
            }
            added := added + [o.tx];
          }
        }
      }
      assert list[..|list|] == list;
    }
  }

  lemma HashesNext(block: seq<Tx>, tx: Tx)
    ensures Hashes(block + [tx]) == Hashes(block) + {tx.hash}
  {
    assert forall x :: x in block + [tx] <==> x in block || x == tx;
    assert tx in block + [tx];
    forall h | h in Hashes(block)
      ensures h in Hashes(block + [tx])
    {
      var x :| x in block && x.hash == h;
      assert x in block + [tx];
    }
  }

  lemma SameHash(pool: seq<Tx>, a: Tx, b: Tx)
    requires DistinctHashes(pool) && a in pool && b in pool && a.hash == b.hash
    ensures a == b
  {
  }

  // The queue without its element k, slot by slot.
  lemma RestAt(queue: seq<Tx>, k: nat, j: nat)
    requires k < |queue| && j < |queue| && j != k
    ensures (queue[..k] + queue[k + 1..])[if j < k then j else j - 1] == queue[j]
  {
  }

  // The same transactions but that one.
  lemma RestIs(queue: seq<Tx>, k: nat)
    requires DistinctHashes(queue) && k < |queue|
    ensures var rest := queue[..k] + queue[k + 1..];
            DistinctHashes(rest) && forall x :: x in rest <==> x in queue && x.hash != queue[k].hash
  {
    var tx, rest := queue[k], queue[..k] + queue[k + 1..];
    forall i, j | 0 <= i < j < |rest|
      ensures rest[i].hash != rest[j].hash
    {
      RestAt(queue, k, if i < k then i else i + 1);
      RestAt(queue, k, if j < k then j else j + 1);
    }
    RestMembers(queue, k, rest);
  }

  lemma RestMembers(queue: seq<Tx>, k: nat, rest: seq<Tx>)
    requires DistinctHashes(queue) && k < |queue| && rest == queue[..k] + queue[k + 1..]
    ensures forall x :: x in rest <==> x in queue && x.hash != queue[k].hash
  {
    forall x | x in rest
      ensures x in queue && x.hash != queue[k].hash
    {
      var j :| 0 <= j < |rest| && rest[j] == x;
      RestAt(queue, k, if j < k then j else j + 1);
    }
    forall x | x in queue && x.hash != queue[k].hash
      ensures x in rest
    {
      var j :| 0 <= j < |queue| && queue[j] == x;
      RestAt(queue, k, j);
    }
  }

  // Taking the next transaction from the queue.
  lemma TakeKeeps(pool: seq<Tx>, disk: set<nat>, block: seq<Tx>, queue: seq<Tx>, taken: set<nat>, k: nat)
    requires DistinctHashes(pool) && Queued(pool, disk, block, queue, taken) && k < |queue|
    ensures Queued(pool, disk, block, queue[..k] + queue[k + 1..], taken + {queue[k].hash})
    ensures queue[k] in pool && Eligible(queue[k], disk, pool) && Ready(queue[k], disk, block) && queue[k].hash !in taken
  {
    hide Eligible, Ready, DistinctHashes;
    var tx := queue[k];
    assert tx in queue;
    RestIs(queue, k);
    forall x | x in pool && x.hash == tx.hash
      ensures x == tx
    {
      SameHash(pool, x, tx);
    }
  }

  // Putting it into the block and releasing its dependers.
  lemma ReleaseKeeps(pool: seq<Tx>, disk: set<nat>, block: seq<Tx>, queue: seq<Tx>, taken: set<nat>, tx: Tx,
                     orphans: seq<Orphan>, orphans': seq<Orphan>, added: seq<Tx>)
    requires DistinctHashes(pool) && Queued(pool, disk, block, queue, taken) && Orphans(pool, disk, orphans, block)
    requires |orphans'| == |orphans| && forall i :: 0 <= i < |orphans| ==> orphans'[i] == Without(orphans[i], tx.hash)
    requires forall i: nat :: Released(orphans, tx.hash, i) ==> orphans[i].tx in added
    requires forall x :: x in added ==> exists i: nat :: Released(orphans, tx.hash, i) && orphans[i].tx == x
    requires DistinctHashes(added) && forall i: nat :: i < |orphans| && tx.hash in orphans[i].dependsOn ==> !orphans[i].freed
    ensures Orphans(pool, disk, orphans', block + [tx]) && Queued(pool, disk, block + [tx], queue + added, taken)
  {
    HashesNext(block, tx);
    OrphansNext(pool, disk, block, tx, orphans, orphans');
    hide Eligible, Hashes, Parents, Orphans, Released, Awaited, Whole, Candidate;
    forall x | x in added
      ensures x in pool && Eligible(x, disk, pool) && Ready(x, disk, block + [tx]) && !Ready(x, disk, block)
    {
      var i: nat :| Released(orphans, tx.hash, i) && orphans[i].tx == x;
      ReleasedFacts(pool, disk, block, tx, orphans, i);
    }
    forall x | x in pool && Eligible(x, disk, pool) && Ready(x, disk, block + [tx]) && !Ready(x, disk, block)
      ensures x in added
    {
      var i := WasOrphan(pool, disk, block, tx, orphans, x);
    }
    forall a, b | a in queue && b in added
      ensures a.hash != b.hash
    {
      if a.hash == b.hash {
        SameHash(pool, a, b);
      }
    }
    forall x | x in pool && x in added && x.hash in taken
      ensures false
    {
    }
  }

  lemma OrphansNext(pool: seq<Tx>, disk: set<nat>, block: seq<Tx>, tx: Tx, orphans: seq<Orphan>, orphans': seq<Orphan>)
    requires Orphans(pool, disk, orphans, block)
    requires |orphans'| == |orphans| && forall i :: 0 <= i < |orphans| ==> orphans'[i] == Without(orphans[i], tx.hash)
    ensures Orphans(pool, disk, orphans', block + [tx])
  {
    hide Candidate, Whole, Hashes, Awaited;
    HashesNext(block, tx);
    forall x | x in pool && Candidate(x) && Awaited(x, disk, pool) != {}
      ensures exists i :: 0 <= i < |orphans'| && orphans'[i].tx == x
    {
      var i :| 0 <= i < |orphans| && orphans[i].tx == x;
      assert orphans'[i].tx == x;
    }
  }

  // A transaction without a missing input waits for all its unconfirmed parents.
  lemma WholeAwaits(tx: Tx, disk: set<nat>, pool: seq<Tx>)
    ensures Whole(tx, disk, pool) <==> Readable(tx.vin, disk, pool) == |tx.vin|
    ensures Whole(tx, disk, pool) ==> Awaited(tx, disk, pool) == Parents(tx, disk)
  {
    hide Missing, Unconfirmed;
    var n := Readable(tx.vin, disk, pool);
    if n < |tx.vin| {
      assert tx.vin[n] in tx.vin;
    } else {
      assert tx.vin[..n] == tx.vin;
    }
  }

  lemma ReleasedFacts(pool: seq<Tx>, disk: set<nat>, block: seq<Tx>, tx: Tx, orphans: seq<Orphan>, i: nat)
    requires Orphans(pool, disk, orphans, block) && Released(orphans, tx.hash, i)
    requires tx.hash in orphans[i].dependsOn ==> !orphans[i].freed
    ensures orphans[i].tx in pool && Eligible(orphans[i].tx, disk, pool)
    ensures Ready(orphans[i].tx, disk, block + [tx]) && !Ready(orphans[i].tx, disk, block)
  {
    hide Candidate, Whole, Hashes, Parents, Awaited;
    HashesNext(block, tx);
    WholeAwaits(orphans[i].tx, disk, pool);
    var p := Awaited(orphans[i].tx, disk, pool);
    assert p - Hashes(block) != {} && p - Hashes(block) - {tx.hash} == {};
    var x :| x in p - Hashes(block);
    assert x == tx.hash by {
      assert x !in p - Hashes(block) - {tx.hash};
    }
    forall h | h in p
      ensures h in Hashes(block + [tx])
    {
      assert h !in p - Hashes(block) - {tx.hash};
    }
  }

  lemma WasOrphan(pool: seq<Tx>, disk: set<nat>, block: seq<Tx>, tx: Tx, orphans: seq<Orphan>, x: Tx) returns (i: nat)
    requires Orphans(pool, disk, orphans, block) && x in pool && Eligible(x, disk, pool)
    requires Ready(x, disk, block + [tx]) && !Ready(x, disk, block)
    ensures Released(orphans, tx.hash, i) && orphans[i].tx == x
  {
    hide Candidate, Whole, Hashes, Parents, Awaited;
    HashesNext(block, tx);
    WholeAwaits(x, disk, pool);
    var p := Parents(x, disk);
    assert p != {} by {
      assert !(p <= Hashes(block));
    }
    i :| 0 <= i < |orphans| && orphans[i].tx == x;
    assert orphans[i].dependsOn == p - Hashes(block);
    assert p - Hashes(block) - {tx.hash} == {};
  }

  // A freed orphan is met exactly if the transaction is one it waited for.
  lemma MeetsFreed(pool: seq<Tx>, disk: set<nat>, orphans: seq<Orphan>, depends: map<nat, seq<nat>>, block: seq<Tx>, tx: Tx)
    requires Orphans(pool, disk, orphans, block) && Dependers(orphans, depends, disk, pool) && !Reached(pool, disk, block)
    ensures Reached(pool, disk, block + [tx]) <==> exists i: nat :: Names(depends, tx.hash, i) && orphans[i].freed
  {
    hide Candidate, Whole, Hashes, Awaited, Names;
    HashesNext(block, tx);
    if Reached(pool, disk, block + [tx]) {
      var x :| x in pool && LeavesFreed(x, disk, pool) && Awaited(x, disk, pool) * Hashes(block + [tx]) != {};
      assert Awaited(x, disk, pool) * Hashes(block) == {};
      assert tx.hash in Awaited(x, disk, pool) by {
        var h :| h in Awaited(x, disk, pool) * Hashes(block + [tx]);
        assert h !in Awaited(x, disk, pool) * Hashes(block);
      }
      var i :| 0 <= i < |orphans| && orphans[i].tx == x;
      assert Names(depends, tx.hash, i) && orphans[i].freed;
    }
    if i: nat :| Names(depends, tx.hash, i) && orphans[i].freed {
      var x := orphans[i].tx;
      assert LeavesFreed(x, disk, pool) && tx.hash in Awaited(x, disk, pool) * Hashes(block + [tx]);
    }
  }

  // ---------- reading the pool ----------

  ghost predicate Listed(orphans: seq<Orphan>, depends: map<nat, seq<nat>>) {
    forall h: nat, i: nat :: Names(depends, h, i) <==> i < |orphans| && h in orphans[i].dependsOn
  }

  // The inputs of one transaction; it becomes an orphan at its first unconfirmed one, and is dropped at a missing one.
  method ReadInputs(tx: Tx, disk: set<nat>, pool: seq<Tx>, orphans0: seq<Orphan>, depends0: map<nat, seq<nat>>)
    returns (missing: bool, waits: bool, orphans: seq<Orphan>, depends: map<nat, seq<nat>>)
    requires Listed(orphans0, depends0)
    ensures missing <==> !Whole(tx, disk, pool)
    ensures waits <==> Awaited(tx, disk, pool) != {}
    ensures orphans == if waits then orphans0 + [Orphan(tx, Awaited(tx, disk, pool), missing)] else orphans0
    ensures Listed(orphans, depends)
  {
    hide Unconfirmed, Listed, Whole, Missing;
    NoneUnconfirmed(disk);
    WholeAwaits(tx, disk, pool);
    missing, waits, orphans, depends := false, false, orphans0, depends0;
    var porphan := |orphans0|;
    for n := 0 to |tx.vin|
      invariant n <= Readable(tx.vin, disk, pool)
      invariant var seen := Unconfirmed(tx.vin[..n], disk);
                && (waits <==> seen != {})
                && orphans == if waits then orphans0 + [Orphan(tx, seen, false)] else orphans0
      invariant Listed(orphans, depends)
    {
      var p := tx.vin[n];
      ghost var seen := Unconfirmed(tx.vin[..n], disk);
      UnconfirmedNext(tx.vin, n, disk);
      MissingMeans(p, disk, pool);
      if p !in disk {
        if p !in Hashes(pool) {
          missing := true;
          if waits {
            ListedFreed(orphans, depends, porphan);
            orphans := orphans[porphan := Freed(orphans[porphan])];
          }
          return;
        }
        if !waits {
          ListedPush(orphans, depends, tx);
          orphans := orphans + [Orphan(tx, {}, false)];
          waits := true;
        }
        assert seen == {} ==> {} == seen;
        assert orphans == orphans0 + [Orphan(tx, seen, false)];
        ListedNext(orphans, depends, porphan, p);
        depends := depends[p := (if p in depends then depends[p] else []) + [porphan]];
        orphans := orphans[porphan := WaitsFor(orphans[porphan], p)];
        assert orphans == orphans0 + [Orphan(tx, seen + {p}, false)];
      }
    }
  }

  // vOrphan.pop_back, for the last one
  function Freed(o: Orphan): Orphan { o.(freed := true) }

  lemma ListedFreed(orphans: seq<Orphan>, depends: map<nat, seq<nat>>, k: nat)
    requires k < |orphans| && Listed(orphans, depends)
    ensures Listed(orphans[k := Freed(orphans[k])], depends)
  {
    hide Names;
  }

  lemma MissingMeans(p: nat, disk: set<nat>, pool: seq<Tx>)
    ensures Missing(p, disk, pool) <==> p !in disk && p !in Hashes(pool)
  {
  }

  function Unconfirmed(vin: seq<nat>, disk: set<nat>): set<nat> {
    set p | p in vin && p !in disk
  }

  lemma NoneUnconfirmed(disk: set<nat>)
    ensures Unconfirmed([], disk) == {}
  {
  }

  lemma UnconfirmedNext(vin: seq<nat>, n: nat, disk: set<nat>)
    requires n < |vin|
    ensures Unconfirmed(vin[..n + 1], disk) == if vin[n] in disk then Unconfirmed(vin[..n], disk) else Unconfirmed(vin[..n], disk) + {vin[n]}
  {
    assert vin[..n + 1] == vin[..n] + [vin[n]];
  }

  function WaitsFor(o: Orphan, p: nat): Orphan { o.(dependsOn := o.dependsOn + {p}) }

  lemma ListedPush(orphans: seq<Orphan>, depends: map<nat, seq<nat>>, tx: Tx)
    requires Listed(orphans, depends)
    ensures Listed(orphans + [Orphan(tx, {}, false)], depends)
  {
    hide Names;
  }

  lemma ListedNext(orphans: seq<Orphan>, depends: map<nat, seq<nat>>, k: nat, p: nat)
    requires k < |orphans| && Listed(orphans, depends)
    ensures Listed(orphans[k := WaitsFor(orphans[k], p)],
                   depends[p := (if p in depends then depends[p] else []) + [k]])
  {
    hide Names;
    var o := orphans[k := WaitsFor(orphans[k], p)];
    var d := depends[p := (if p in depends then depends[p] else []) + [k]];
    forall h: nat, i: nat
      ensures Names(d, h, i) <==> i < |o| && h in o[i].dependsOn
    {
      NamesNext(depends, k, p, h, i);
      assert Names(depends, h, i) <==> i < |orphans| && h in orphans[i].dependsOn;
    }
  }

  lemma NamesNext(depends: map<nat, seq<nat>>, k: nat, p: nat, h: nat, i: nat)
    ensures var l := (if p in depends then depends[p] else []) + [k];
            Names(depends[p := l], h, i) <==> Names(depends, h, i) || (h == p && i == k)
  {
    var l := (if p in depends then depends[p] else []) + [k];
    if h == p {
      assert i in l <==> (p in depends && i in depends[p]) || i == k;
    }
  }

  // The orphans among the first m transactions of the pool.
  ghost predicate OrphansTo(pool: seq<Tx>, disk: set<nat>, m: nat, orphans: seq<Orphan>) {
    && m <= |pool|
    && (forall i :: 0 <= i < |orphans| ==>
          && orphans[i].tx in pool[..m] && Candidate(orphans[i].tx)
          && orphans[i].freed == !Whole(orphans[i].tx, disk, pool)
          && orphans[i].dependsOn == Awaited(orphans[i].tx, disk, pool) != {})
    && (forall i, j :: 0 <= i < j < |orphans| ==> orphans[i].tx.hash != orphans[j].tx.hash)
    && (forall tx :: tx in pool[..m] && Candidate(tx) && Awaited(tx, disk, pool) != {} ==>
          exists i :: 0 <= i < |orphans| && orphans[i].tx == tx)
  }

  // Those among them that wait for nothing.
  ghost predicate QueueTo(pool: seq<Tx>, disk: set<nat>, m: nat, queue: seq<Tx>) {
    && m <= |pool| && DistinctHashes(queue)
    && (forall tx :: tx in queue <==> tx in pool[..m] && Eligible(tx, disk, pool) && Parents(tx, disk) == {})
  }

  lemma NewHash(pool: seq<Tx>, m: nat, x: Tx)
    requires DistinctHashes(pool) && m < |pool| && x in pool[..m]
    ensures x.hash != pool[m].hash
  {
    var j :| 0 <= j < m && pool[j] == x;
  }

  lemma OrphansToNext(pool: seq<Tx>, disk: set<nat>, m: nat, orphans: seq<Orphan>)
    requires DistinctHashes(pool) && m < |pool| && OrphansTo(pool, disk, m, orphans)
    ensures var tx := pool[m];
            var waits := Candidate(tx) && Awaited(tx, disk, pool) != {};
            OrphansTo(pool, disk, m + 1,
                      if waits then orphans + [Orphan(tx, Awaited(tx, disk, pool), !Whole(tx, disk, pool))] else orphans)
  {
    hide Candidate, Whole, Awaited;
    var tx := pool[m];
    ReadMembers(pool, m);
    if Candidate(tx) && Awaited(tx, disk, pool) != {} {
      OrphanPushed(pool, disk, m, orphans);
    }
  }

  lemma ReadMembers(pool: seq<Tx>, m: nat)
    requires m < |pool|
    ensures forall x :: x in pool[..m + 1] <==> x in pool[..m] || x == pool[m]
  {
    assert pool[..m + 1] == pool[..m] + [pool[m]];
  }

  lemma OrphanPushed(pool: seq<Tx>, disk: set<nat>, m: nat, orphans: seq<Orphan>)
    requires DistinctHashes(pool) && m < |pool| && OrphansTo(pool, disk, m, orphans)
    requires Candidate(pool[m]) && Awaited(pool[m], disk, pool) != {}
    ensures OrphansTo(pool, disk, m + 1,
                      orphans + [Orphan(pool[m], Awaited(pool[m], disk, pool), !Whole(pool[m], disk, pool))])
  {
    hide Candidate, Whole, Awaited, DistinctHashes;
    var tx := pool[m];
    var o := orphans + [Orphan(tx, Awaited(tx, disk, pool), !Whole(tx, disk, pool))];
    ReadMembers(pool, m);
    forall i | 0 <= i < |orphans|
      ensures orphans[i].tx.hash != tx.hash
    {
      NewHash(pool, m, orphans[i].tx);
    }
    forall x | x in pool[..m + 1] && Candidate(x) && Awaited(x, disk, pool) != {}
      ensures exists i :: 0 <= i < |o| && o[i].tx == x
    {
      if x == tx {
        assert o[|orphans|].tx == x;
      } else {
        var i :| 0 <= i < |orphans| && orphans[i].tx == x;
        assert o[i].tx == x;
      }
    }
  }

  lemma QueueToNext(pool: seq<Tx>, disk: set<nat>, m: nat, queue: seq<Tx>)
    requires DistinctHashes(pool) && m < |pool| && QueueTo(pool, disk, m, queue)
    ensures var tx := pool[m];
            var ready := Candidate(tx) && Whole(tx, disk, pool) && Awaited(tx, disk, pool) == {};
            QueueTo(pool, disk, m + 1, if ready then queue + [tx] else queue)
  {
    hide Candidate, Whole, Parents, Awaited;
    var tx := pool[m];
    assert pool[..m + 1] == pool[..m] + [tx];
    WholeAwaits(tx, disk, pool);
    forall x | x in pool[..m]
      ensures x.hash != tx.hash
    {
      NewHash(pool, m, x);
    }
  }

  lemma ReadAll(pool: seq<Tx>, disk: set<nat>, orphans: seq<Orphan>, queue: seq<Tx>)
    requires OrphansTo(pool, disk, |pool|, orphans) && QueueTo(pool, disk, |pool|, queue)
    ensures Orphans(pool, disk, orphans, []) && Queued(pool, disk, [], queue, {})
    ensures forall i :: 0 <= i < |orphans| ==> orphans[i].dependsOn == Awaited(orphans[i].tx, disk, pool)
  {
    hide Candidate, Whole, Parents, Hashes, Awaited;
    assert pool[..|pool|] == pool;
    NoHashes();
  }

  // mapDependers points to a freed orphan.
  ghost predicate Dangles(orphans: seq<Orphan>, depends: map<nat, seq<nat>>) {
    exists h: nat, i: nat :: Names(depends, h, i) && i < |orphans| && orphans[i].freed
  }

  method ReadPool(pool: seq<Tx>, disk: set<nat>)
    returns (orphans: seq<Orphan>, depends: map<nat, seq<nat>>, queue: seq<Tx>)
    requires DistinctHashes(pool)
    ensures Orphans(pool, disk, orphans, []) && Dependers(orphans, depends, disk, pool) && Queued(pool, disk, [], queue, {})
    ensures Dangles(orphans, depends) <==> exists tx :: tx in pool && LeavesFreed(tx, disk, pool)
  {
    hide Whole, Parents, Hashes, Names, Listed, OrphansTo, QueueTo, Orphans, Queued, Awaited, Dangles, LeavesFreed, Dependers;
    NothingListed();
    orphans, depends, queue := [], map[], [];
    NothingRead(pool, disk);
    for m := 0 to |pool|
      invariant Listed(orphans, depends) && OrphansTo(pool, disk, m, orphans) && QueueTo(pool, disk, m, queue)
    {
      var tx := pool[m];
      OrphansToNext(pool, disk, m, orphans);
      QueueToNext(pool, disk, m, queue);
      if !(tx.coinBaseOrStake || !tx.final) {
        var missing, waits;
        missing, waits, orphans, depends := ReadInputs(tx, disk, pool, orphans, depends);
        if !missing && !waits {
          queue := queue + [tx];
        }
      }
    }
    ReadAll(pool, disk, orphans, queue);
    ListedAll(orphans, depends, disk, pool);
    DanglesExactly(pool, disk, orphans, depends);
  }

  // It does exactly if some transaction has a missing input after an unconfirmed one.
  lemma DanglesExactly(pool: seq<Tx>, disk: set<nat>, orphans: seq<Orphan>, depends: map<nat, seq<nat>>)
    requires Orphans(pool, disk, orphans, []) && Dependers(orphans, depends, disk, pool)
    ensures Dangles(orphans, depends) <==> exists tx :: tx in pool && LeavesFreed(tx, disk, pool)
  {
    hide Whole, Candidate, Hashes, Awaited, Names;
    if Dangles(orphans, depends) {
      var h: nat, i: nat :| Names(depends, h, i) && i < |orphans| && orphans[i].freed;
      assert LeavesFreed(orphans[i].tx, disk, pool);
    }
    if tx :| tx in pool && LeavesFreed(tx, disk, pool) {
      var i :| 0 <= i < |orphans| && orphans[i].tx == tx;
      var h :| h in Awaited(tx, disk, pool);
      assert Names(depends, h, i);
    }
  }

  // A pool of two: the second spends the first and something nobody has. Its orphan is freed, and met as soon as the
  // first gets into the block.
  lemma FreedOrphanReached(a: Tx, b: Tx)
    requires a.hash == 1 && a.vin == [] && b.hash == 2 && b.vin == [1, 9] && Candidate(b)
    ensures LeavesFreed(b, {}, [a, b]) && Eligible(a, {}, [a, b]) == Candidate(a) && Ready(a, {}, [])
    ensures Reached([a, b], {}, [a])
  {
    var pool := [a, b];
    assert a in pool && b in pool && a in [a];
    assert 1 in Hashes(pool) && 9 !in Hashes(pool) && 1 in Hashes([a]);
    assert b.vin[1..] == [9];
    assert Readable([9], {}, pool) == 0 && Readable(b.vin, {}, pool) == 1;
    assert 9 in b.vin && Missing(9, {}, pool);
    assert b.vin[..1] == [1];
    assert 1 in Awaited(b, {}, pool) * Hashes([a]);
  }

  lemma NothingRead(pool: seq<Tx>, disk: set<nat>)
    ensures OrphansTo(pool, disk, 0, []) && QueueTo(pool, disk, 0, [])
  {
  }

  lemma NothingListed()
    ensures Listed([], map[])
  {
  }

  lemma ListedAll(orphans: seq<Orphan>, depends: map<nat, seq<nat>>, disk: set<nat>, pool: seq<Tx>)
    requires Listed(orphans, depends)
    requires forall i :: 0 <= i < |orphans| ==> orphans[i].dependsOn == Awaited(orphans[i].tx, disk, pool)
    ensures Dependers(orphans, depends, disk, pool)
  {
    hide Awaited, Names;
  }

  lemma NoHashes()
    ensures Hashes([]) == {}
  {
  }

  // ---------- filling the block ----------

  // What a transaction next to the block must meet; free ones are held to the minimum size once fees decide.
  predicate Passes(tx: Tx, s: Settings, block: seq<Tx>, byFee: bool) {
    var v := s.judge(block, tx);
    && 1000 + Size(block) + tx.size < MaxSize(s)
    && 100 + SigOps(block, s) + tx.legacySigOps + v.p2shSigOps < 20000
    && !s.tooLate(tx)
    && (byFee && tx.feePerKb < s.minTxFee as real ==> 1000 + Size(block) + tx.size < s.blockMinSize)
    && v.fetched && v.fees >= s.minFee(1000 + Size(block), tx) && v.connects
  }

  // Fees decide from the first transaction on that fits and is past the priority size or of low priority.
  predicate ByFeeAfter(tx: Tx, s: Settings, block: seq<Tx>, byFee: bool) {
    || byFee
    || (&& 1000 + Size(block) + tx.size < MaxSize(s) && 100 + SigOps(block, s) + tx.legacySigOps < 20000
        && !s.tooLate(tx)
        && (1000 + Size(block) + tx.size >= s.blockPrioritySize || tx.priority < 576000.0))
  }

  // What lets transaction k stay in the block.
  ghost predicate Accepted(block: seq<Tx>, k: nat, s: Settings)
    requires k < |block|
  {
    var v := s.judge(block[..k], block[k]);
    v.fetched && v.connects && v.fees >= s.minFee(1000 + Size(block[..k]), block[k]) && !s.tooLate(block[k])
  }

  ghost predicate GoodBlock(pool: seq<Tx>, disk: set<nat>, block: seq<Tx>, s: Settings) {
    && DistinctHashes(block)
    && (forall tx :: tx in block ==> tx in pool && Eligible(tx, disk, pool))
    // Nothing comes before what it spends.
    && (forall k :: 0 <= k < |block| ==> Ready(block[k], disk, block[..k]))
    && (forall k :: 0 <= k < |block| ==> Accepted(block, k, s))
  }

  lemma GoodNext(pool: seq<Tx>, disk: set<nat>, block: seq<Tx>, s: Settings, tx: Tx)
    requires GoodBlock(pool, disk, block, s)
    requires tx in pool && Eligible(tx, disk, pool) && Ready(tx, disk, block) && forall x :: x in block ==> x.hash != tx.hash
    requires var v := s.judge(block, tx);
             v.fetched && v.connects && v.fees >= s.minFee(1000 + Size(block), tx) && !s.tooLate(tx)
    ensures GoodBlock(pool, disk, block + [tx], s)
  {
    hide Eligible, Ready, Accepted;
    var b := block + [tx];
    forall k | 0 <= k < |b|
      ensures Ready(b[k], disk, b[..k]) && Accepted(b, k, s)
    {
      if k < |block| {
        assert b[..k] == block[..k];
        AcceptedOf(b, k, block, s);
      } else {
        assert b[..k] == block;
        AcceptedLast(b, block, tx, s);
      }
    }
  }

  lemma AcceptedOf(b: seq<Tx>, k: nat, block: seq<Tx>, s: Settings)
    requires k < |block| && k < |b| && b[k] == block[k] && b[..k] == block[..k] && Accepted(block, k, s)
    ensures Accepted(b, k, s)
  {
    hide Size;
  }

  lemma AcceptedLast(b: seq<Tx>, block: seq<Tx>, tx: Tx, s: Settings)
    requires |b| == |block| + 1 && b[|block|] == tx && b[..|block|] == block
    requires var v := s.judge(block, tx);
             v.fetched && v.connects && v.fees >= s.minFee(1000 + Size(block), tx) && !s.tooLate(tx)
    ensures Accepted(b, |block|, s)
  {
    hide Size;
  }

  // One turn of the queue: the block so far, who was waiting, in which order, and who was taken.
  datatype Turn = Turn(block: seq<Tx>, queue: seq<Tx>, byFee: bool, tx: Tx)

  function Taken(log: seq<Turn>): set<nat> {
    if log == [] then {} else Taken(log[..|log| - 1]) + {log[|log| - 1].tx.hash}
  }

  // The order at the end of a run.
  predicate ByFee(log: seq<Turn>, s: Settings) {
    if log == [] then Min(MaxSize(s), s.blockPrioritySize) == 0
    else
      var turn := log[|log| - 1];
      ByFeeAfter(turn.tx, s, turn.block, turn.byFee)
  }

  // The block after a turn: the transaction joins it exactly if it passes.
  function After(turn: Turn, s: Settings): seq<Tx> {
    if Passes(turn.tx, s, turn.block, turn.byFee) then turn.block + [turn.tx] else turn.block
  }

  // The whole run that led to a block. At every turn the queue held the ready transactions not yet taken, once
  // each, and a best one of them was taken.
  ghost predicate Built(pool: seq<Tx>, disk: set<nat>, s: Settings, log: seq<Turn>, block: seq<Tx>) {
    if log == [] then block == []
    else
      var n := |log| - 1;
      var turn := log[n];
      && Built(pool, disk, s, log[..n], turn.block)
      && Queued(pool, disk, turn.block, turn.queue, Taken(log[..n]))
      && turn.byFee == ByFee(log[..n], s)
      && First(turn.tx, turn.queue, turn.byFee)
      && block == After(turn, s)
  }

  lemma BuiltNext(pool: seq<Tx>, disk: set<nat>, s: Settings, log: seq<Turn>, turn: Turn)
    requires Built(pool, disk, s, log, turn.block) && Queued(pool, disk, turn.block, turn.queue, Taken(log))
    requires turn.byFee == ByFee(log, s) && First(turn.tx, turn.queue, turn.byFee)
    ensures Built(pool, disk, s, log + [turn], After(turn, s))
    ensures Taken(log + [turn]) == Taken(log) + {turn.tx.hash}
    ensures ByFee(log + [turn], s) == ByFeeAfter(turn.tx, s, turn.block, turn.byFee)
  {
    hide Queued, First, After, ByFeeAfter;
    assert (log + [turn])[..|log|] == log;
  }

  // The turn of a transaction decides whether it is in the block.
  lemma {:induction false} TurnDecides(pool: seq<Tx>, disk: set<nat>, s: Settings, log: seq<Turn>, block: seq<Tx>, i: nat)
    requires Built(pool, disk, s, log, block) && DistinctHashes(pool) && i < |log|
    ensures log[i].tx in block <==> Passes(log[i].tx, s, log[i].block, log[i].byFee)
  {
    hide Passes, ByFee, Taken;
    var n := |log| - 1;
    TookReady(pool, disk, s, log, block, n);
    if i < n {
      TurnDecides(pool, disk, s, log[..n], log[n].block, i);
      TookReady(pool, disk, s, log[..n], log[n].block, i);
    } else {
      InBlockTaken(pool, disk, s, log[..n], log[n].block);
    }
  }

  // Nobody is taken twice, and only ready transactions are.
  lemma TookReady(pool: seq<Tx>, disk: set<nat>, s: Settings, log: seq<Turn>, block: seq<Tx>, i: nat)
    requires Built(pool, disk, s, log, block) && i < |log|
    ensures log[i].tx in pool && Eligible(log[i].tx, disk, pool) && Ready(log[i].tx, disk, log[i].block)
    ensures log[i].tx.hash in Taken(log) && log[i].tx.hash !in Taken(log[..i])
  {
    hide Eligible, Ready, Passes, ByFee;
    var n := |log| - 1;
    if i < n {
      TookReady(pool, disk, s, log[..n], log[n].block, i);
      assert log[..n][..i] == log[..i];
    }
  }

  // Only those taken are in the block.
  lemma {:induction false} InBlockTaken(pool: seq<Tx>, disk: set<nat>, s: Settings, log: seq<Turn>, block: seq<Tx>)
    requires Built(pool, disk, s, log, block)
    ensures forall tx :: tx in block ==> tx.hash in Taken(log)
  {
    hide Passes, ByFee, Queued;
    if log != [] {
      InBlockTaken(pool, disk, s, log[..|log| - 1], log[|log| - 1].block);
    }
  }

  // Once fees decide, they decide to the end.
  lemma {:induction false} ByFeeStays(pool: seq<Tx>, disk: set<nat>, s: Settings, log: seq<Turn>, block: seq<Tx>, i: nat)
    requires Built(pool, disk, s, log, block) && i < |log| && log[i].byFee
    ensures ByFee(log, s)
  {
    hide Passes, Queued, Taken;
    var n := |log| - 1;
    if i < n {
      ByFeeStays(pool, disk, s, log[..n], log[n].block, i);
    }
  }

  // Where the block stands: its size, signature operations and fees.
  ghost predicate Counted(block: seq<Tx>, s: Settings, nBlockSize: nat, nBlockSigOps: nat, nFees: int) {
    && nBlockSize == 1000 + Size(block) && nBlockSize <= MaxSize(s)
    && nBlockSigOps == 100 + SigOps(block, s) && nBlockSigOps < 20000
    && nFees == Fees(block, s)
  }

  // Everything between taking a transaction and adding it; priority counts until the order by fee begins.
  method Test(tx: Tx, s: Settings, block: seq<Tx>, nBlockSize: nat, nBlockSigOps: nat, byFee0: bool)
    returns (ok: bool, byFee: bool)
    requires nBlockSize == 1000 + Size(block) && nBlockSigOps == 100 + SigOps(block, s)
    ensures ok <==> Passes(tx, s, block, byFee0)
    ensures byFee <==> ByFeeAfter(tx, s, block, byFee0)
  {
    byFee := byFee0;
    if nBlockSize + tx.size >= MaxSize(s) {
      return false, byFee;
    }
    var nTxSigOps := tx.legacySigOps;
    if nBlockSigOps + nTxSigOps >= MAX_BLOCK_SIGOPS {
      return false, byFee;
    }
    if s.tooLate(tx) {
      return false, byFee;
    }
    var nMinFee := s.minFee(nBlockSize, tx);
    if byFee && tx.feePerKb < s.minTxFee as real && nBlockSize + tx.size >= Min(MaxSize(s), s.blockMinSize) {
      return false, byFee;
    }
    if !byFee && (nBlockSize + tx.size >= Min(MaxSize(s), s.blockPrioritySize) || tx.priority < 576000.0) {
      byFee := true;
    }
    var v := s.judge(block, tx);
    if !v.fetched {
      return false, byFee;
    }
    if v.fees < nMinFee {
      return false, byFee;
    }
    nTxSigOps := nTxSigOps + v.p2shSigOps;
    if nBlockSigOps + nTxSigOps >= MAX_BLOCK_SIGOPS {
      return false, byFee;
    }
    return v.connects, byFee;
  }

  lemma TurnsBest(pool: seq<Tx>, disk: set<nat>, s: Settings, log: seq<Turn>, block: seq<Tx>)
    requires Built(pool, disk, s, log, block)
    ensures forall i, x :: 0 <= i < |log| && x in log[i].queue ==>
              var tx := log[i].tx;
              if log[i].byFee then x.feePerKb < tx.feePerKb || (x.feePerKb == tx.feePerKb && x.priority <= tx.priority)
              else x.priority < tx.priority || (x.priority == tx.priority && x.feePerKb <= tx.feePerKb)
  {
    hide ByFee, Queued, After;
    if log != [] {
      var n := |log| - 1;
      TurnsBest(pool, disk, s, log[..n], log[n].block);
      FirstIs(log[n].tx, log[n].queue, log[n].byFee);
    }
  }

  // Filling the block. Every ready transaction gets its turn, and no other; it joins exactly if it then passes. What
  // happens after a freed orphan is met is not defined: the run ends there.
  method Fill(pool: seq<Tx>, disk: set<nat>, s: Settings)
    returns (freed: bool, block: seq<Tx>, nBlockSize: nat, nBlockSigOps: nat, nFees: int, ghost log: seq<Turn>)
    requires DistinctHashes(pool)
    ensures freed <==> Reached(pool, disk, block)
    ensures GoodBlock(pool, disk, block, s) && forall tx :: tx in block ==> !tx.coinBaseOrStake && tx.final
    ensures Counted(block, s, nBlockSize, nBlockSigOps, nFees)
    ensures Built(pool, disk, s, log, block)
    ensures forall i :: 0 <= i < |log| ==> (log[i].tx in block <==> Passes(log[i].tx, s, log[i].block, log[i].byFee))
    ensures !freed ==> forall tx :: tx in pool && Eligible(tx, disk, pool) ==> (tx.hash in Taken(log) <==> Ready(tx, disk, block))
    ensures forall i, x :: 0 <= i < |log| && x in log[i].queue ==>
              var tx := log[i].tx;
              if log[i].byFee then x.feePerKb < tx.feePerKb || (x.feePerKb == tx.feePerKb && x.priority <= tx.priority)
              else x.priority < tx.priority || (x.priority == tx.priority && x.feePerKb <= tx.feePerKb)
  {
    hide Eligible, Ready, GoodBlock, Counted, Built, Queued, Orphans, Dependers, Unreleased, Best, Released, Names;
    hide Passes, ByFeeAfter, ByFee, Taken, First, Reached;
    var orphans, depends, queue := ReadPool(pool, disk);
    freed, block, nBlockSize, nBlockSigOps, nFees, log := false, [], 1000, 100, 0, [];
    var fSortedByFee := Min(MaxSize(s), s.blockPrioritySize) <= 0;
    Begins(pool, disk, s);
    while queue != []
      invariant GoodBlock(pool, disk, block, s) && Counted(block, s, nBlockSize, nBlockSigOps, nFees)
      invariant Built(pool, disk, s, log, block) && fSortedByFee == ByFee(log, s)
      invariant Orphans(pool, disk, orphans, block) && Dependers(orphans, depends, disk, pool)
      invariant Queued(pool, disk, block, queue, Taken(log)) && !Reached(pool, disk, block) && !freed
      decreases |queue| + Unreleased(orphans)
    {
      var tx, rest;
      ghost var k;
      tx, rest, k := TakeBest(queue, fSortedByFee);
      ghost var turn := Turn(block, queue, fSortedByFee, tx);
      BestIsFirst(queue, k, fSortedByFee);
      TakeKeeps(pool, disk, block, queue, Taken(log), k);
      InBlockTaken(pool, disk, s, log, block);
      BuiltNext(pool, disk, s, log, turn);
      log, queue := log + [turn], rest;
      CountedSize(block, s, nBlockSize, nBlockSigOps, nFees);
      var ok;
      ok, fSortedByFee := Test(tx, s, block, nBlockSize, nBlockSigOps, fSortedByFee);
      if ok {
        PassesMeans(tx, s, block, turn.byFee);
        GoodNext(pool, disk, block, s, tx);
        CountedNext(block, s, nBlockSize, nBlockSigOps, nFees, tx);
        ReleasePossible(pool, disk, orphans, depends, block, tx.hash);
        MeetsFreed(pool, disk, orphans, depends, block, tx);
        ghost var before := block;
        nBlockSize := nBlockSize + tx.size;
        nBlockSigOps := nBlockSigOps + tx.legacySigOps + s.judge(block, tx).p2shSigOps;
        nFees := nFees + s.judge(block, tx).fees;
        block := block + [tx];
        var released, added;
        freed, released, added := Release(orphans, depends, tx.hash, queue);
        if freed {
          TurnsDecide(pool, disk, s, log, block);
          TurnsBest(pool, disk, s, log, block);
          AllFinal(pool, disk, block, s);
          return;
        }
        ReleaseKeeps(pool, disk, before, queue, Taken(log), tx, orphans, released, added);
        DependersKept(orphans, released, depends, disk, pool, tx.hash);
        orphans, queue := released, queue + added;
      }
    }
    AllTaken(pool, disk, block, Taken(log));
    AllFinal(pool, disk, block, s);
    TurnsDecide(pool, disk, s, log, block);
    TurnsBest(pool, disk, s, log, block);
  }

  lemma TurnsDecide(pool: seq<Tx>, disk: set<nat>, s: Settings, log: seq<Turn>, block: seq<Tx>)
    requires Built(pool, disk, s, log, block) && DistinctHashes(pool)
    ensures forall i :: 0 <= i < |log| ==> (log[i].tx in block <==> Passes(log[i].tx, s, log[i].block, log[i].byFee))
  {
    hide Built, Passes;
    forall i | 0 <= i < |log|
      ensures log[i].tx in block <==> Passes(log[i].tx, s, log[i].block, log[i].byFee)
    {
      TurnDecides(pool, disk, s, log, block, i);
    }
  }

  lemma Begins(pool: seq<Tx>, disk: set<nat>, s: Settings)
    ensures GoodBlock(pool, disk, [], s) && Counted([], s, 1000, 100, 0)
    ensures Built(pool, disk, s, [], []) && Taken([]) == {}
    ensures ByFee([], s) == (Min(MaxSize(s), s.blockPrioritySize) <= 0) && !Reached(pool, disk, [])
  {
  }

  lemma BestIsFirst(queue: seq<Tx>, k: nat, byFee: bool)
    requires Best(queue, k, byFee)
    ensures k < |queue| && First(queue[k], queue, byFee)
  {
  }

  lemma PassesMeans(tx: Tx, s: Settings, block: seq<Tx>, byFee: bool)
    requires Passes(tx, s, block, byFee)
    ensures var v := s.judge(block, tx);
            && v.fetched && v.connects && v.fees >= s.minFee(1000 + Size(block), tx) && !s.tooLate(tx)
            && 1000 + Size(block) + tx.size < MaxSize(s)
            && 100 + SigOps(block, s) + tx.legacySigOps + v.p2shSigOps < MAX_BLOCK_SIGOPS
  {
  }

  lemma CountedSize(block: seq<Tx>, s: Settings, nBlockSize: nat, nBlockSigOps: nat, nFees: int)
    requires Counted(block, s, nBlockSize, nBlockSigOps, nFees)
    ensures nBlockSize == 1000 + Size(block) && nBlockSigOps == 100 + SigOps(block, s)
  {
  }

  lemma CountedNext(block: seq<Tx>, s: Settings, nBlockSize: nat, nBlockSigOps: nat, nFees: int, tx: Tx)
    requires Counted(block, s, nBlockSize, nBlockSigOps, nFees)
    requires nBlockSize + tx.size < MaxSize(s)
    requires nBlockSigOps + tx.legacySigOps + s.judge(block, tx).p2shSigOps < MAX_BLOCK_SIGOPS
    ensures Counted(block + [tx], s, nBlockSize + tx.size,
                    nBlockSigOps + tx.legacySigOps + s.judge(block, tx).p2shSigOps, nFees + s.judge(block, tx).fees)
  {
    assert (block + [tx])[..|block|] == block;
  }

  lemma ReleasePossible(pool: seq<Tx>, disk: set<nat>, orphans: seq<Orphan>, depends: map<nat, seq<nat>>, block: seq<Tx>, hash: nat)
    requires Orphans(pool, disk, orphans, block) && Dependers(orphans, depends, disk, pool)
    ensures forall i: nat :: Names(depends, hash, i) ==> i < |orphans|
    ensures forall i: nat :: i < |orphans| && hash in orphans[i].dependsOn ==> Names(depends, hash, i)
    ensures forall i, j :: 0 <= i < j < |orphans| ==> orphans[i].tx.hash != orphans[j].tx.hash
  {
    hide Names, Awaited, Candidate, Whole, Hashes;
  }

  lemma DependersKept(orphans: seq<Orphan>, orphans': seq<Orphan>, depends: map<nat, seq<nat>>, disk: set<nat>, pool: seq<Tx>,
                      hash: nat)
    requires Dependers(orphans, depends, disk, pool)
    requires |orphans'| == |orphans| && forall i :: 0 <= i < |orphans| ==> orphans'[i] == Without(orphans[i], hash)
    ensures Dependers(orphans', depends, disk, pool)
  {
    hide Names, Awaited;
  }

  lemma AllFinal(pool: seq<Tx>, disk: set<nat>, block: seq<Tx>, s: Settings)
    requires GoodBlock(pool, disk, block, s)
    ensures forall tx :: tx in block ==> !tx.coinBaseOrStake && tx.final
  {
    hide Accepted, Whole, Ready;
  }

  lemma AllTaken(pool: seq<Tx>, disk: set<nat>, block: seq<Tx>, taken: set<nat>)
    requires Queued(pool, disk, block, [], taken)
    ensures forall tx :: tx in pool && Eligible(tx, disk, pool) ==> (tx.hash in taken <==> Ready(tx, disk, block))
  {
  }
}
