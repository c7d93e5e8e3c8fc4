/** CBloomFilter: a table of bits that only fills up, two shortcut flags, and the matching of BIP 37. */
module Bloom {
  import opened BitOps
  import opened Bytes

  // What is inserted: a byte string.
  type Key = seq<nat>

  const TWO_32 := 0x1_0000_0000
  const SEED := 0xFBA4_C795
  const BLOOM_UPDATE_ALL := 1
  const BLOOM_UPDATE_P2PUBKEY_ONLY := 2

  // ---------- the table ----------

  function Bit(v: seq<Byte>, i: nat): bool
    requires i < 8 * |v|
  {
    BitAt(v[i / 8], i % 8)
  }

  // Bit i, counted from bit 0 of byte 0, is set.
  function SetBit(v: seq<Byte>, i: nat): (r: seq<Byte>)
    requires i < 8 * |v|
    ensures |r| == |v| && forall j :: 0 <= j < 8 * |v| ==> Bit(r, j) == (Bit(v, j) || j == i)
  {
    MaskBound(i % 8);
    OrBound(v[i / 8], Pow2(i % 8), 8);
    var r: seq<Byte> := v[i / 8 := BitOr(v[i / 8], Pow2(i % 8))];
    SetBitBits(v, i, r);
    r
  }

  lemma MaskBound(k: nat)
    requires k < 8
    ensures Pow2(k) < Pow2(8) == 256
  {
    Pow2Mono(k, 7);
  }

  lemma SetBitBits(v: seq<Byte>, i: nat, r: seq<Byte>)
    requires i < 8 * |v| == 8 * |r|
    requires forall k :: 0 <= k < |v| ==> r[k] == if k == i / 8 then BitOr(v[k], Pow2(i % 8)) else v[k]
    ensures forall j :: 0 <= j < 8 * |v| ==> Bit(r, j) == (Bit(v, j) || j == i)
  {
    hide BitAt, BitOr, Pow2;
    forall j | 0 <= j < 8 * |v|
      ensures Bit(r, j) == (Bit(v, j) || j == i)
    {
      if j / 8 == i / 8 {
        OrBit(v[i / 8], Pow2(i % 8), j % 8);
        BitShiftedBit(true, i % 8, j % 8);
      }
    }
  }

  ghost predicate Grows(v: seq<Byte>, w: seq<Byte>) {
    |v| == |w| && forall i :: 0 <= i < 8 * |v| && Bit(v, i) ==> Bit(w, i)
  }

  ghost predicate AllSet(v: seq<Byte>) { forall i :: 0 <= i < 8 * |v| ==> Bit(v, i) }

  ghost predicate NoneSet(v: seq<Byte>) { forall i :: 0 <= i < 8 * |v| ==> !Bit(v, i) }

  // ---------- the filter as a table ----------

  // The hash function and the parameters a filter keeps.
  datatype Params = Params(murmur: (nat, Key) -> nat, nHashFuncs: nat, nTweak: nat, nFlags: nat)

  // Hash
  function Index(p: Params, size: nat, i: nat, key: Key): (r: nat)
    requires size > 0
    ensures r < 8 * size
  {
    p.murmur((i * SEED + p.nTweak) % TWO_32, key) % (size * 8)
  }

  // The seed of probe i in unsigned 32-bit steps: from the tweak on, each one further by the same amount.
  function Seed(p: Params, i: nat): nat {
    if i == 0 then p.nTweak % 0x1_0000_0000 else (Seed(p, i - 1) + 4221880213) % 0x1_0000_0000
  }

  lemma {:induction false} SeedIs(p: Params, i: nat)
    ensures Seed(p, i) == (i * SEED + p.nTweak) % TWO_32
  {
    if i > 0 {
      SeedIs(p, i - 1);
      assert i * SEED + p.nTweak == ((i - 1) * SEED + p.nTweak) + SEED;
      ModStep((i - 1) * SEED + p.nTweak, SEED);
    }
  }

  lemma ModStep(x: nat, y: nat)
    ensures (x % TWO_32 + y) % TWO_32 == (x + y) % TWO_32
  {
  }

  // A probe depends on key, tweak, its number and the size of the table, in this way.
  lemma IndexIs(p: Params, size: nat, i: nat, key: Key)
    requires size > 0
    ensures Index(p, size, i, key) == p.murmur(Seed(p, i), key) % (8 * size)
  {
    SeedIs(p, i);
  }

  // All probes of a key hit.
  predicate Probe(p: Params, v: seq<Byte>, key: Key)
    requires v != []
  {
    forall i :: 0 <= i < p.nHashFuncs ==> Bit(v, Index(p, |v|, i, key))
  }

  // The table with the first n probes of a key set.
  function SetProbes(p: Params, v: seq<Byte>, key: Key, n: nat): (r: seq<Byte>)
    requires v != []
    ensures Grows(v, r)
    ensures forall i :: 0 <= i < n ==> Bit(r, Index(p, |v|, i, key))
    ensures AllSet(v) ==> r == v
  {
    if n == 0 then v
    else
      var w := SetProbes(p, v, key, n - 1);
      var r := SetBit(w, Index(p, |v|, n - 1, key));
      SetWhenSet(v, w, r);
      r
  }

  lemma SetWhenSet(v: seq<Byte>, w: seq<Byte>, r: seq<Byte>)
    requires |w| == |v| == |r| && (AllSet(v) ==> w == v) && forall j :: 0 <= j < 8 * |v| && Bit(w, j) ==> Bit(r, j)
    ensures AllSet(v) ==> r == v
  {
    if AllSet(v) {
      forall k | 0 <= k < |v|
        ensures r[k] == v[k]
      {
        FullByte(v, k);
        FullByte(r, k);
      }
    }
  }

  lemma FullByte(v: seq<Byte>, k: nat)
    requires k < |v|
    ensures v[k] == 0xFF <==> forall i :: 8 * k <= i < 8 * k + 8 ==> Bit(v, i)
    ensures v[k] == 0 <==> forall i :: 8 * k <= i < 8 * k + 8 ==> !Bit(v, i)
  {
    hide BitAt, Pow2;
    MaskBound(0);
    forall i | 8 * k <= i < 8 * k + 8
      ensures Bit(v, i) == BitAt(v[k], i - 8 * k)
    {
      OnesBit(8, i - 8 * k);
      ZeroBit(i - 8 * k);
    }
    if v[k] != 0xFF {
      var j := FindClear(v[k], 8);
      assert !Bit(v, 8 * k + j);
    } else {
      forall i | 8 * k <= i < 8 * k + 8
        ensures Bit(v, i)
      {
        OnesBit(8, i - 8 * k);
      }
    }
    if v[k] != 0 {
      var j := FindSet(v[k], 8);
      assert Bit(v, 8 * k + j);
    } else {
      forall i | 8 * k <= i < 8 * k + 8
        ensures !Bit(v, i)
      {
        ZeroBit(i - 8 * k);
      }
    }
  }

  function Inserted(p: Params, v: seq<Byte>, key: Key): seq<Byte>
    requires v != []
  {
    SetProbes(p, v, key, p.nHashFuncs)
  }

  // Inserting sets the bits at the probes of the key, and no other.
  lemma {:induction false} SetProbesBits(p: Params, v: seq<Byte>, key: Key, n: nat, j: nat)
    requires v != [] && j < 8 * |v|
    ensures Bit(SetProbes(p, v, key, n), j) <==> Bit(v, j) || exists i :: 0 <= i < n && Index(p, |v|, i, key) == j
  {
    hide Bit, Index, SetBit;
    if n > 0 {
      SetProbesBits(p, v, key, n - 1, j);
      var w := SetProbes(p, v, key, n - 1);
      assert Bit(SetBit(w, Index(p, |v|, n - 1, key)), j) == (Bit(w, j) || j == Index(p, |v|, n - 1, key));
    }
  }

  // What is in stays in.
  lemma ProbeGrows(p: Params, v: seq<Byte>, w: seq<Byte>, key: Key)
    requires v != [] && Grows(v, w) && Probe(p, v, key)
    ensures Probe(p, w, key)
  {
  }

  // ---------- matching ----------

  // Scripts are the data elements they push, up to the first bad operation.
  datatype Out = Out(data: seq<Key>, payToKey: bool)

  datatype In = In(prevout: Key, data: seq<Key>)

  datatype Tx = Tx(hash: Key, vout: seq<Out>, vin: seq<In>)

  // How an outpoint is written.
  type Outpoint = (Key, nat) -> Key

  ghost predicate HasData(p: Params, v: seq<Byte>, data: seq<Key>)
    requires v != []
  {
    exists k :: 0 <= k < |data| && data[k] != [] && Probe(p, v, data[k])
  }

  // Whether a matched output is added.
  predicate Updates(p: Params, out: Out) {
    p.nFlags % 4 == BLOOM_UPDATE_ALL || (p.nFlags % 4 == BLOOM_UPDATE_P2PUBKEY_ONLY && out.payToKey)
  }

  // The table after the first n outputs.
  ghost function AfterOutputs(p: Params, o: Outpoint, v: seq<Byte>, tx: Tx, n: nat): (r: seq<Byte>)
    requires v != [] && n <= |tx.vout|
    ensures Grows(v, r)
  {
    if n == 0 then v
    else
      var w := AfterOutputs(p, o, v, tx, n - 1);
      var out := tx.vout[n - 1];
      if HasData(p, w, out.data) && Updates(p, out) then Inserted(p, w, o(tx.hash, n - 1)) else w
  }

  // Output i matches the table as the outputs before it left it.
  ghost predicate Matched(p: Params, o: Outpoint, v: seq<Byte>, tx: Tx, i: nat)
    requires v != []
  {
    i < |tx.vout| && HasData(p, AfterOutputs(p, o, v, tx, i), tx.vout[i].data)
  }

  ghost predicate Spends(p: Params, v: seq<Byte>, tx: Tx, i: nat)
    requires v != []
  {
    i < |tx.vin| && (Probe(p, v, tx.vin[i].prevout) || HasData(p, v, tx.vin[i].data))
  }

  // BIP 37: the hash, an output, or an input matches.
  ghost predicate Relevant(p: Params, o: Outpoint, v: seq<Byte>, tx: Tx)
    requires v != []
  {
    || Probe(p, v, tx.hash)
    || (exists i: nat :: Matched(p, o, v, tx, i))
    || exists i: nat :: Spends(p, AfterOutputs(p, o, v, tx, |tx.vout|), tx, i)
  }

  // The table and the two flags.
  datatype Filter = Filter(v: seq<Byte>, isFull: bool, isEmpty: bool)

  // The flags are never wrong about the bits.
  ghost predicate Sound(f: Filter) {
    && f.v != []
    && (f.isFull ==> AllSet(f.v)) && (f.isEmpty ==> NoneSet(f.v))
  }

  // The one case in which a flag decides against the bits: all probes of no hash function hit an empty table.
  predicate Blind(p: Params, f: Filter) { f.isEmpty && !f.isFull && p.nHashFuncs == 0 }

  datatype Op = InsertOp(key: Key) | TxOp(tx: Tx) | UpdateOp

  // What an operation does to the filter.
  ghost function Step(p: Params, o: Outpoint, f: Filter, op: Op): (g: Filter)
    requires f.v != []
    ensures Grows(f.v, g.v)
  {
    match op
    case InsertOp(key) => Filter(Inserted(p, f.v, key), f.isFull, false)
    case TxOp(tx) => f.(v := AfterOutputs(p, o, f.v, tx, |tx.vout|))
    case UpdateOp => Filter(f.v, AllSet(f.v), NoneSet(f.v))
  }

  // ---------- the class ----------

  class CBloomFilter {
    const params: Params
    var vData: seq<Byte>
    var isFull: bool
    var isEmpty: bool

    ghost function F(): Filter
      reads this
    {
      Filter(vData, isFull, isEmpty)
    }

    ghost predicate Valid()
      reads this
    {
      Sound(F())
    }

    // A table of zeros; its size and the number of hash functions come from floating point.
    constructor (params: Params, size: nat)
      requires size > 0
      ensures Valid() && NoneSet(vData) && !isFull && !isEmpty && this.params == params
    {
      this.params := params;
      vData := seq(size, _ => 0);
      isFull := false;
      isEmpty := false;
      new;
      ZeroTable(vData);
    }

    method Insert(key: Key)
      requires Valid()
      modifies this
      ensures Valid() && Probe(params, vData, key)
      ensures vData == Inserted(params, old(vData), key) && isFull == old(isFull) && !isEmpty
    {
      hide SetBit, Index, Bit;
      if isFull {
        NotBoth(vData);
        FullProbes(params, vData, key);
        return;
      }
      ghost var v := vData;
      for i := 0 to params.nHashFuncs
        invariant vData == SetProbes(params, v, key, i) && !isFull
      {
        var nIndex := Index(params, |vData|, i, key);
        vData := SetBit(vData, nIndex);
      }
      isEmpty := false;
    }

    method Contains(key: Key) returns (r: bool)
      requires Valid()
      ensures r == (Probe(params, vData, key) && !Blind(params, F()))
    {
      hide Index, Bit;
      if isFull {
        FullProbes(params, vData, key);
        return true;
      }
      if isEmpty {
        EmptyProbes(params, vData, key);
        return false;
      }
      for i := 0 to params.nHashFuncs
        invariant forall j :: 0 <= j < i ==> Bit(vData, Index(params, |vData|, j, key))
      {
        if !Bit(vData, Index(params, |vData|, i, key)) {
          return false;
        }
      }
      return true;
    }

    // The elements of a script against the filter.
    method ContainsData(data: seq<Key>) returns (r: bool)
      requires Valid() && !Blind(params, F())
      ensures r == HasData(params, vData, data)
    {
      hide Probe;
      for k := 0 to |data|
        invariant forall j :: 0 <= j < k ==> data[j] == [] || !Probe(params, vData, data[j])
      {
        if |data[k]| != 0 {
          var c := Contains(data[k]);
          if c {
            return true;
          }
        }
      }
      return false;
    }

    method IsRelevantAndUpdate(tx: Tx, o: Outpoint) returns (r: bool)
      requires Valid()
      modifies this
      ensures Valid() && r == (Relevant(params, o, old(vData), tx) && !Blind(params, old(F())))
      ensures vData == AfterOutputs(params, o, old(vData), tx, |tx.vout|) && isFull == old(isFull) && isEmpty == old(isEmpty)
    {
      hide Probe, HasData, Bit, AllSet, NoneSet, AfterOutputs;
      ghost var v := vData;
      if isFull {
        FullOutputs(params, o, v, tx, |tx.vout|);
        FullProbes(params, v, tx.hash);
        return true;
      }
      if isEmpty {
        EmptyOutputs(params, o, v, tx, |tx.vout|);
        if params.nHashFuncs >= 1 {
          EmptyIrrelevant(params, o, v, tx);
        }
        return false;
      }
      var fFound := Contains(tx.hash);
      NoOutputs(params, o, v, tx);
      for i := 0 to |tx.vout|
        invariant Valid() && !isEmpty && isFull == old(isFull) && vData == AfterOutputs(params, o, v, tx, i)
        invariant fFound <==> Probe(params, v, tx.hash) || exists j: nat :: j < i && Matched(params, o, v, tx, j)
      {
        NextOutput(params, o, v, tx, i);
        var found := ContainsData(tx.vout[i].data);
        if found {
          assert Matched(params, o, v, tx, i);
          fFound := true;
          if params.nFlags % 4 == BLOOM_UPDATE_ALL {
            Insert(o(tx.hash, i));
          } else if params.nFlags % 4 == BLOOM_UPDATE_P2PUBKEY_ONLY {
            if tx.vout[i].payToKey {
              Insert(o(tx.hash, i));
            }
          }
        }
      }
      if fFound {
        return true;
      }
      for i := 0 to |tx.vin|
        invariant Valid() && !isEmpty && isFull == old(isFull) && vData == AfterOutputs(params, o, v, tx, |tx.vout|)
        invariant forall j: nat :: j < i ==> !Spends(params, vData, tx, j)
      {
        var c := Contains(tx.vin[i].prevout);
        if c {
          assert Spends(params, vData, tx, i);
          return true;
        }
        c := ContainsData(tx.vin[i].data);
        if c {
          assert Spends(params, vData, tx, i);
          return true;
        }
      }
      return false;
    }

    method UpdateEmptyFull()
      requires Valid()
      modifies this`isFull, this`isEmpty
      ensures Valid() && (isFull <==> AllSet(vData)) && (isEmpty <==> NoneSet(vData))
    {
      hide Bit;
      var full, empty := true, true;
      for i := 0 to |vData|
        invariant full <==> forall k :: 0 <= k < i ==> vData[k] == 0xFF
        invariant empty <==> forall k :: 0 <= k < i ==> vData[k] == 0
      {
        full := full && vData[i] == 0xFF;
        empty := empty && vData[i] == 0;
      }
      ByteTests(vData);
      isFull := full;
      isEmpty := empty;
    }
  }

  lemma ZeroTable(v: seq<Byte>)
    requires forall i :: 0 <= i < |v| ==> v[i] == 0
    ensures NoneSet(v)
  {
    hide BitAt;
    forall i | 0 <= i < 8 * |v|
      ensures !Bit(v, i)
    {
      ZeroBit(i % 8);
    }
  }

  lemma ByteTests(v: seq<Byte>)
    ensures AllSet(v) <==> forall k :: 0 <= k < |v| ==> v[k] == 0xFF
    ensures NoneSet(v) <==> forall k :: 0 <= k < |v| ==> v[k] == 0
  {
    hide Bit;
    forall k | 0 <= k < |v|
      ensures v[k] == 0xFF <==> forall i :: 8 * k <= i < 8 * k + 8 ==> Bit(v, i)
      ensures v[k] == 0 <==> forall i :: 8 * k <= i < 8 * k + 8 ==> !Bit(v, i)
    {
      FullByte(v, k);
    }
    forall i | 0 <= i < 8 * |v|
      ensures v[i / 8] == 0xFF ==> Bit(v, i)
      ensures v[i / 8] == 0 ==> !Bit(v, i)
    {
      assert 8 * (i / 8) <= i < 8 * (i / 8) + 8;
    }
  }

  lemma FullProbes(p: Params, v: seq<Byte>, key: Key)
    requires v != [] && AllSet(v)
    ensures Probe(p, v, key) && Inserted(p, v, key) == v
  {
  }

  lemma FullOutputs(p: Params, o: Outpoint, v: seq<Byte>, tx: Tx, n: nat)
    requires v != [] && AllSet(v) && n <= |tx.vout|
    ensures AfterOutputs(p, o, v, tx, n) == v
  {
    hide AllSet, HasData;
    if n > 0 {
      FullOutputs(p, o, v, tx, n - 1);
      FullProbes(p, v, o(tx.hash, n - 1));
    }
  }

  // The empty shortcut answers as the bits would exactly when there is a hash function.
  lemma EmptyProbes(p: Params, v: seq<Byte>, key: Key)
    requires v != [] && NoneSet(v)
    ensures !Probe(p, v, key) <==> p.nHashFuncs >= 1
  {
    hide Index, Bit;
    if p.nHashFuncs >= 1 {
      assert !Bit(v, Index(p, |v|, 0, key));
    }
  }

  lemma EmptyData(p: Params, v: seq<Byte>, data: seq<Key>)
    requires v != [] && NoneSet(v) && p.nHashFuncs >= 1
    ensures !HasData(p, v, data)
  {
    hide Probe, NoneSet;
    forall k | 0 <= k < |data|
      ensures !Probe(p, v, data[k])
    {
      EmptyProbes(p, v, data[k]);
    }
  }

  lemma EmptyOutputs(p: Params, o: Outpoint, v: seq<Byte>, tx: Tx, n: nat)
    requires v != [] && NoneSet(v) && n <= |tx.vout|
    ensures AfterOutputs(p, o, v, tx, n) == v
  {
    hide NoneSet, HasData;
    if n > 0 {
      EmptyOutputs(p, o, v, tx, n - 1);
      if p.nHashFuncs >= 1 {
        EmptyData(p, v, tx.vout[n - 1].data);
      }
    }
  }

  lemma EmptyIrrelevant(p: Params, o: Outpoint, v: seq<Byte>, tx: Tx)
    requires v != [] && NoneSet(v) && p.nHashFuncs >= 1
    ensures !Relevant(p, o, v, tx)
  {
    hide NoneSet, HasData, Probe, AfterOutputs;
    EmptyProbes(p, v, tx.hash);
    EmptyOutputs(p, o, v, tx, |tx.vout|);
    forall i: nat
      ensures !Matched(p, o, v, tx, i) && !Spends(p, v, tx, i)
    {
      if i < |tx.vout| {
        EmptyOutputs(p, o, v, tx, i);
        EmptyData(p, v, tx.vout[i].data);
      }
      if i < |tx.vin| {
        EmptyProbes(p, v, tx.vin[i].prevout);
        EmptyData(p, v, tx.vin[i].data);
      }
    }
  }

  lemma NoOutputs(p: Params, o: Outpoint, v: seq<Byte>, tx: Tx)
    requires v != []
    ensures AfterOutputs(p, o, v, tx, 0) == v
  {
  }

  lemma NextOutput(p: Params, o: Outpoint, v: seq<Byte>, tx: Tx, n: nat)
    requires v != [] && n < |tx.vout|
    ensures var w := AfterOutputs(p, o, v, tx, n);
            AfterOutputs(p, o, v, tx, n + 1)
            == if HasData(p, w, tx.vout[n].data) && (p.nFlags % 4 == 1 || (p.nFlags % 4 == 2 && tx.vout[n].payToKey))
               then Inserted(p, w, o(tx.hash, n)) else w
  {
  }

  // ---------- runs ----------

  // Every method is its step.
  method Apply(filter: CBloomFilter, o: Outpoint, op: Op)
    requires filter.Valid()
    modifies filter
    ensures filter.Valid() && filter.F() == Step(filter.params, o, old(filter.F()), op)
  {
    match op
    case InsertOp(key) => filter.Insert(key);
    case TxOp(tx) => var _ := filter.IsRelevantAndUpdate(tx, o);
    case UpdateOp => filter.UpdateEmptyFull();
  }

  ghost function Run(p: Params, o: Outpoint, f: Filter, ops: seq<Op>): (g: Filter)
    requires f.v != []
    ensures |g.v| == |f.v|
  {
    if ops == [] then f else Step(p, o, Run(p, o, f, ops[..|ops| - 1]), ops[|ops| - 1])
  }

  // Over any run bits only appear.
  lemma {:induction false} RunGrows(p: Params, o: Outpoint, f: Filter, ops: seq<Op>)
    requires f.v != []
    ensures Grows(f.v, Run(p, o, f, ops).v)
  {
    hide Step;
    if ops != [] {
      RunGrows(p, o, f, ops[..|ops| - 1]);
    }
  }

  // The flags stay right.
  lemma {:induction false} RunSound(p: Params, o: Outpoint, f: Filter, ops: seq<Op>)
    requires Sound(f)
    ensures Sound(Run(p, o, f, ops))
  {
    if ops != [] {
      var g := Run(p, o, f, ops[..|ops| - 1]);
      RunSound(p, o, f, ops[..|ops| - 1]);
      StepSound(p, o, g, ops[|ops| - 1]);
    }
  }

  lemma StepSound(p: Params, o: Outpoint, f: Filter, op: Op)
    requires Sound(f)
    ensures Sound(Step(p, o, f, op))
  {
    hide Inserted, AfterOutputs, Bit;
    if op.TxOp? && f.isEmpty {
      EmptyOutputs(p, o, f.v, op.tx, |op.tx.vout|);
    }
  }

  // Whether the empty flag is last set, by an update after which nothing was inserted; e says what it was.
  predicate Flagged(ops: seq<Op>, e: bool) {
    if ops == [] then e
    else
      match ops[|ops| - 1]
      case InsertOp(_) => false
      case TxOp(_) => Flagged(ops[..|ops| - 1], e)
      case UpdateOp => true
  }

  // Exactly when a run leaves the filter blind.
  lemma {:induction false} BlindExactly(p: Params, o: Outpoint, f: Filter, ops: seq<Op>)
    requires Sound(f)
    ensures Blind(p, Run(p, o, f, ops)) <==> p.nHashFuncs == 0 && NoneSet(f.v) && Flagged(ops, f.isEmpty)
    ensures p.nHashFuncs == 0 ==> Run(p, o, f, ops).v == f.v
  {
    hide AfterOutputs, Inserted, Bit;
    if ops == [] {
      NotBoth(f.v);
    } else {
      var g := Run(p, o, f, ops[..|ops| - 1]);
      BlindExactly(p, o, f, ops[..|ops| - 1]);
      RunSound(p, o, f, ops[..|ops| - 1]);
      NotBoth(f.v);
      if p.nHashFuncs == 0 {
        NothingSet(p, o, g, ops[|ops| - 1]);
      }
    }
  }

  lemma NotBoth(v: seq<Byte>)
    requires v != []
    ensures !(AllSet(v) && NoneSet(v))
  {
    hide Bit;
    var first := Bit(v, 0);
  }

  lemma NothingSet(p: Params, o: Outpoint, f: Filter, op: Op)
    requires f.v != [] && p.nHashFuncs == 0
    ensures Step(p, o, f, op).v == f.v
  {
    if op.TxOp? {
      NothingAdded(p, o, f.v, op.tx, |op.tx.vout|);
    }
  }

  lemma {:induction false} NothingAdded(p: Params, o: Outpoint, v: seq<Byte>, tx: Tx, n: nat)
    requires v != [] && n <= |tx.vout| && p.nHashFuncs == 0
    ensures AfterOutputs(p, o, v, tx, n) == v
  {
    if n > 0 {
      NothingAdded(p, o, v, tx, n - 1);
    }
  }

  // What Contains answers, and IsRelevantAndUpdate.
  ghost predicate Says(p: Params, f: Filter, key: Key)
    requires f.v != []
  {
    Probe(p, f.v, key) && !Blind(p, f)
  }

  ghost predicate SaysRelevant(p: Params, o: Outpoint, f: Filter, tx: Tx)
    requires f.v != []
  {
    Relevant(p, o, f.v, tx) && !Blind(p, f)
  }

  lemma InsertedProbes(p: Params, v: seq<Byte>, key: Key)
    requires v != []
    ensures Probe(p, Inserted(p, v, key), key) && (p.nHashFuncs == 0 ==> Inserted(p, v, key) == v)
  {
  }

  // After any run an inserted key is contained, unless there is no hash function, no bit was ever set, and the flags
  // were updated after the last insertion.
  lemma InsertedStays(p: Params, o: Outpoint, f: Filter, key: Key, ops: seq<Op>)
    requires Sound(f)
    ensures Says(p, Run(p, o, Step(p, o, f, InsertOp(key)), ops), key)
            <==> !(p.nHashFuncs == 0 && NoneSet(f.v) && Flagged(ops, false))
  {
    hide Run, Bit, AllSet, NoneSet, Inserted, Probe;
    InsertedProbes(p, f.v, key);
    var g := Step(p, o, f, InsertOp(key));
    StepSound(p, o, f, InsertOp(key));
    RunGrows(p, o, g, ops);
    ProbeGrows(p, g.v, Run(p, o, g, ops).v, key);
    BlindExactly(p, o, g, ops);
  }

  // A matched output that the filter updates for is in the table afterwards.
  lemma MatchedIsInserted(p: Params, o: Outpoint, v: seq<Byte>, tx: Tx, i: nat, n: nat)
    requires v != [] && Matched(p, o, v, tx, i) && i < n <= |tx.vout|
    requires p.nFlags % 4 == 1 || (p.nFlags % 4 == 2 && tx.vout[i].payToKey)
    ensures Probe(p, AfterOutputs(p, o, v, tx, n), o(tx.hash, i))
  {
    hide Bit, HasData, AfterOutputs;
    NextOutput(p, o, v, tx, n - 1);
    if i < n - 1 {
      MatchedIsInserted(p, o, v, tx, i, n - 1);
      var w := AfterOutputs(p, o, v, tx, n - 1);
      ProbeGrows(p, w, AfterOutputs(p, o, v, tx, n), o(tx.hash, i));
    }
  }

  // So whoever spends it later is relevant, whatever happens in between, with the same exception.
  lemma SpendIsRelevant(p: Params, o: Outpoint, f: Filter, tx: Tx, i: nat, ops: seq<Op>, spend: Tx, j: nat)
    requires Sound(f) && Matched(p, o, f.v, tx, i) && (p.nFlags % 4 == 1 || (p.nFlags % 4 == 2 && tx.vout[i].payToKey))
    requires j < |spend.vin| && spend.vin[j].prevout == o(tx.hash, i)
    ensures SaysRelevant(p, o, Run(p, o, Step(p, o, f, TxOp(tx)), ops), spend)
            <==> !(p.nHashFuncs == 0 && NoneSet(f.v) && Flagged(ops, f.isEmpty))
  {
    hide Bit, HasData, AfterOutputs, Run, Probe, AllSet, NoneSet;
    var g := Step(p, o, f, TxOp(tx));
    var x := Run(p, o, g, ops).v;
    StepSound(p, o, f, TxOp(tx));
    BlindExactly(p, o, g, ops);
    if p.nHashFuncs == 0 {
      NothingSet(p, o, f, TxOp(tx));
    }
    MatchedIsInserted(p, o, f.v, tx, i, |tx.vout|);
    RunGrows(p, o, g, ops);
    ProbeGrows(p, g.v, x, o(tx.hash, i));
    var y := AfterOutputs(p, o, x, spend, |spend.vout|);
    ProbeGrows(p, x, y, o(tx.hash, i));
    assert Spends(p, y, spend, j);
  }
}
