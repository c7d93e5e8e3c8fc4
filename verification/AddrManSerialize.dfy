/** Saving and loading the address manager. Ids are renumbered, vRandom is rebuilt, the tried table
    and all back references are reconstructed; the book must come back the same.

    A stream is the sequence of values read or written, grouped as the format lists them; the byte
    layout of a single value is left out. */
module AddrManSerialize {
  import opened AddrBook
  import opened AddrManState
  import opened AddrMan

  // The fields of an entry that go to disk.
  datatype Record = Record(service: Service, services: bv64, nTime: int, source: NetAddr, lastSuccess: int, attempts: int)

  datatype Stream = Stream(nVersion: int, nKey: Key, nNew: int, nTried: int, nUBuckets: int, newRecords: seq<Record>,
                           triedRecords: seq<Record>, buckets: seq<seq<int>>)

  function ToRecord(i: Info): Record { Record(i.service, i.services, i.nTime, i.source, i.lastSuccess, i.attempts) }

  // An entry as it comes from disk: times of tries and the back references are not stored.
  function FromRecord(r: Record): Info {
    Info(r.service, r.services, r.nTime, r.source, r.lastSuccess, 0, r.attempts, 0, false, -1)
  }

  // records lists what m holds for the ids of xs.
  ghost predicate Recorded(m: map<int, Info>, xs: seq<int>, records: seq<Record>) {
    && |records| == |xs|
    && forall k :: 0 <= k < |xs| ==> xs[k] in m && records[k] == ToRecord(m[xs[k]])
  }

  // numbers sends every id of xs to its position.
  ghost predicate Numbers(numbers: map<int, int>, xs: seq<int>) {
    forall k :: 0 <= k < |xs| ==> xs[k] in numbers && numbers[xs[k]] == k
  }

  // The ids in N and T are the new and the tried ids in writing order.
  ghost predicate IsImage(s: State, key: Key, st: Stream, N: seq<int>, T: seq<int>) {
    && st.nKey == key && st.nNew == s.nNew && st.nTried == s.nTried && st.nUBuckets == NEW_BUCKET_COUNT
    && NoDup(N) && Elems(N) == NewIds(s.mapInfo) && NoDup(T) && Elems(T) == TriedIds(s.mapInfo)
    && Recorded(s.mapInfo, N, st.newRecords) && |N| == s.nNew
    && Recorded(s.mapInfo, T, st.triedRecords) && |T| == s.nTried
    && |st.buckets| == |s.vvNew| == NEW_BUCKET_COUNT
    && (forall b :: 0 <= b < NEW_BUCKET_COUNT ==> BucketImage(s.vvNew[b], N, st.buckets[b]))
  }

  // indices lists, once each, the positions in N of the ids of a bucket.
  ghost predicate BucketImage(bucket: set<int>, N: seq<int>, indices: seq<int>) {
    && NoDup(indices)
    && forall k {:trigger k in indices} :: k in indices <==> 0 <= k < |N| && N[k] in bucket
  }

  ghost predicate Ascending(xs: seq<int>) {
    forall i, j :: 0 <= i < j < |xs| ==> xs[i] < xs[j]
  }

  // Every id of xs comes before all of rest.
  ghost predicate Before(xs: seq<int>, rest: set<int>) {
    forall i, x :: 0 <= i < |xs| && x in rest ==> xs[i] < x
  }

  lemma AscendNext(xs: seq<int>, rest: set<int>, x: int)
    requires Ascending(xs) && Before(xs, rest) && x in rest && forall y :: y in rest ==> x <= y
    ensures Ascending(xs + [x]) && Before(xs + [x], rest - {x}) && Before(xs, rest - {x})
  {
  }

  // ---------- writing ----------

  // Write the new entries, numbering them.
  method WriteNew(am: CAddrMan) returns (records: seq<Record>, mapUnkIds: map<int, int>, ghost N: seq<int>)
    requires am.Valid()
    ensures NoDup(N) && Elems(N) == NewIds(am.mapInfo) && |records| == |N| == am.nNew && Ascending(N)
    ensures Recorded(am.mapInfo, N, records)
    ensures Numbers(mapUnkIds, N)
  {
    hide InvBut, NoDup, Recorded, Numbers, Ascending, Before;
    RefCountsTell(am.H(), am.S());
    StartEmpty(am.mapInfo);
    records, mapUnkIds, N := [], map[], [];
    var nIds := 0;
    var rest := am.mapInfo.Keys;
    while rest != {}
      invariant rest <= am.mapInfo.Keys && nIds == |N| == |records|
      invariant NoDup(N) && Elems(N) == NewIds(am.mapInfo) - rest && Ascending(N) && Before(N, rest)
      invariant Recorded(am.mapInfo, N, records)
      invariant Numbers(mapUnkIds, N)
      decreases |rest|
    {
      if nIds == am.nNew {
        break;
      }
      var id := Least(rest);
      NumberNext(mapUnkIds, N, id);
      AscendNext(N, rest, id);
      mapUnkIds := mapUnkIds[id := nIds];
      if am.mapInfo[id].refCount != 0 {
        AppendNew(N, id);
        RecordNext(am.mapInfo, N, records, id);
        records := records + [ToRecord(am.mapInfo[id])];
        N := N + [id];
        nIds := nIds + 1;
      }
      rest := rest - {id};
    }
    ElemsCard(N);
    AllMet(N, NewIds(am.mapInfo), rest);
  }

  lemma RefCountsTell(h: Hasher, s: State)
    requires Inv(h, s)
    ensures forall id :: id in s.mapInfo ==> (s.mapInfo[id].refCount != 0 <==> !s.mapInfo[id].inTried)
    ensures s.nNew == |NewIds(s.mapInfo)| && s.nTried == |TriedIds(s.mapInfo)|
  {
  }

  lemma StartEmpty(m: map<int, Info>)
    ensures NoDup<int>([]) && Recorded(m, [], []) && Numbers(map[], [])
    ensures Ascending([]) && forall rest :: Before([], rest)
  {
  }

  lemma RecordNext(m: map<int, Info>, xs: seq<int>, records: seq<Record>, x: int)
    requires Recorded(m, xs, records) && x in m
    ensures Recorded(m, xs + [x], records + [ToRecord(m[x])])
  {
  }

  // Renumbering an id outside xs disturbs nothing.
  lemma NumberNext(numbers: map<int, int>, xs: seq<int>, x: int)
    requires Numbers(numbers, xs) && x !in Elems(xs)
    ensures Numbers(numbers[x := |xs|], xs) && Numbers(numbers[x := |xs|], xs + [x])
  {
  }

  lemma AppendNew(xs: seq<int>, x: int)
    requires NoDup(xs) && x !in Elems(xs)
    ensures NoDup(xs + [x]) && Elems(xs + [x]) == Elems(xs) + {x}
  {
  }

  // Stopping early at the full count misses nothing.
  lemma AllMet(xs: seq<int>, all: set<int>, rest: set<int>)
    requires NoDup(xs) && Elems(xs) == all - rest && (rest == {} || |xs| == |all|)
    ensures Elems(xs) == all && |xs| == |all|
  {
    ElemsCard(xs);
    if rest != {} {
      assert all == (all - rest) + (all * rest);
      assert |all * rest| == 0;
    }
  }

  // Write the tried entries.
  method WriteTried(am: CAddrMan) returns (records: seq<Record>, ghost T: seq<int>)
    requires am.Valid()
    ensures NoDup(T) && Elems(T) == TriedIds(am.mapInfo) && |records| == |T| == am.nTried && Ascending(T)
    ensures Recorded(am.mapInfo, T, records)
  {
    hide InvBut, NoDup, Recorded, Numbers, Ascending, Before;
    RefCountsTell(am.H(), am.S());
    StartEmpty(am.mapInfo);
    records, T := [], [];
    var nIds := 0;
    var rest := am.mapInfo.Keys;
    while rest != {}
      invariant rest <= am.mapInfo.Keys && nIds == |T| == |records|
      invariant NoDup(T) && Elems(T) == TriedIds(am.mapInfo) - rest && Ascending(T) && Before(T, rest)
      invariant Recorded(am.mapInfo, T, records)
      decreases |rest|
    {
      if nIds == am.nTried {
        break;
      }
      var id := Least(rest);
      AscendNext(T, rest, id);
      if am.mapInfo[id].inTried {
        AppendNew(T, id);
        RecordNext(am.mapInfo, T, records, id);
        records := records + [ToRecord(am.mapInfo[id])];
        T := T + [id];
        nIds := nIds + 1;
      }
      rest := rest - {id};
    }
    ElemsCard(T);
    AllMet(T, TriedIds(am.mapInfo), rest);
  }

  // indices lists, in the order of the ids, the positions of those of the bucket that are not in rest.
  ghost predicate Indexed(N: seq<int>, vNew: set<int>, rest: set<int>, indices: seq<int>) {
    && NoDup(indices) && Ascending(indices)
    && (forall k {:trigger k in indices} :: k in indices <==> 0 <= k < |N| && N[k] in vNew - rest)
    && (forall k, x :: k in indices && x in rest ==> N[k] < x)
  }

  lemma IndexedNext(N: seq<int>, vNew: set<int>, rest: set<int>, indices: seq<int>, k: int)
    requires Indexed(N, vNew, rest, indices) && rest <= vNew && NoDup(N) && Ascending(N)
    requires 0 <= k < |N| && N[k] in rest && forall y :: y in rest ==> N[k] <= y
    ensures Indexed(N, vNew, rest - {N[k]}, indices + [k])
  {
    hide NoDup;
    var r := indices + [k];
    forall i | 0 <= i < |indices|
      ensures indices[i] < k
    {
      assert indices[i] in indices;
    }
    forall j
      ensures j in r <==> 0 <= j < |N| && N[j] in vNew - (rest - {N[k]})
    {
      if 0 <= j < |N| && N[j] == N[k] {
        SameSlot(N, j, k);
      }
      assert j in r <==> j in indices || j == k;
    }
    AscendingNoDup(r);
  }

  lemma SameSlot(N: seq<int>, j: int, k: int)
    requires NoDup(N) && 0 <= j < |N| && 0 <= k < |N| && N[j] == N[k]
    ensures j == k
  {
  }

  lemma AscendingNoDup(xs: seq<int>)
    requires Ascending(xs)
    ensures NoDup(xs)
  {
  }

  lemma NothingIndexed(N: seq<int>, vNew: set<int>)
    ensures Indexed(N, vNew, vNew, [])
  {
  }

  lemma AllIndexed(N: seq<int>, vNew: set<int>, indices: seq<int>)
    requires Indexed(N, vNew, {}, indices)
    ensures BucketImage(vNew, N, indices) && Ascending(indices)
  {
    hide NoDup, Ascending;
  }

  // Write one new bucket as indices of its entries.
  method WriteBucket(vNew: set<int>, mapUnkIds: map<int, int>, ghost N: seq<int>) returns (indices: seq<int>)
    requires NoDup(N) && vNew <= Elems(N) && Ascending(N)
    requires Numbers(mapUnkIds, N)
    ensures BucketImage(vNew, N, indices) && Ascending(indices)
  {
    hide Indexed, BucketImage, Ascending, NoDup;
    indices := [];
    var rest := vNew;
    NothingIndexed(N, vNew);
    while rest != {}
      invariant rest <= vNew && Indexed(N, vNew, rest, indices)
      decreases |rest|
    {
      var it := Least(rest);
      ghost var k :| 0 <= k < |N| && N[k] == it;
      IndexedNext(N, vNew, rest, indices, k);
      var nIndex := if it in mapUnkIds then mapUnkIds[it] else 0;
      indices := indices + [nIndex];
      rest := rest - {it};
    }
    AllIndexed(N, vNew, indices);
  }

  method Write(am: CAddrMan) returns (st: Stream, ghost N: seq<int>, ghost T: seq<int>)
    requires am.Valid()
    ensures IsImage(am.S(), am.nKey, st, N, T)
    // In the order of the ids, the format being 0.
    ensures st.nVersion == 0 && Ascending(N) && Ascending(T)
    ensures forall b :: 0 <= b < |st.buckets| ==> Ascending(st.buckets[b])
  {
    hide Ascending, InvBut, AddrOk, RandomOk, BucketImage, Recorded, NoDup, Elems, NewIds, TriedIds, Numbers;
    var newRecords, mapUnkIds, triedRecords;
    newRecords, mapUnkIds, N := WriteNew(am);
    triedRecords, T := WriteTried(am);
    InvParts(am.H(), am.S(), NONE);
    var buckets := [];
    for b := 0 to |am.vvNew|
      invariant |buckets| == b
      invariant forall c :: 0 <= c < b ==> BucketImage(am.vvNew[c], N, buckets[c]) && Ascending(buckets[c])
    {
      NewBucketIds(am.H(), am.S(), b);
      var indices := WriteBucket(am.vvNew[b], mapUnkIds, N);
      buckets := buckets + [indices];
    }
    st := Stream(0, am.nKey, am.nNew, am.nTried, NEW_BUCKET_COUNT, newRecords, triedRecords, buckets);
  }

  lemma NewBucketIds(h: Hasher, s: State, b: int)
    requires Inv(h, s) && 0 <= b < |s.vvNew|
    ensures s.vvNew[b] <= NewIds(s.mapInfo)
  {
    InvParts(h, s, NONE);
    hide InvBut, AddrOk, RandomOk;
    forall x | x in s.vvNew[b]
      ensures x in NewIds(s.mapInfo)
    {
    }
  }

  // ---------- what the reader rebuilds ----------

  // Entry k of the reloaded table, before any bucket refers to it.
  function RawInfo(s: State, ids: seq<int>, k: int): Info
    requires 0 <= k < |ids| && ids[k] in s.mapInfo
  {
    s.mapInfo[ids[k]].(lastTry := 0, randomPos := k, refCount := 0)
  }

  // The first n entries of ids are loaded, under the numbers 0 to n - 1.
  ghost predicate Loaded(s: State, ids: seq<int>, n: int, m: map<int, Info>, mapAddr: map<NetAddr, int>, vRandom: seq<int>)
    requires forall k :: 0 <= k < |ids| ==> ids[k] in s.mapInfo
  {
    && 0 <= n <= |ids|
    && (forall k :: k in m <==> 0 <= k < n)
    && (forall k :: 0 <= k < n ==> m[k] == RawInfo(s, ids, k))
    && (forall k :: 0 <= k < n ==> m[k].service.ip in mapAddr && mapAddr[m[k].service.ip] == k)
    && (forall a :: a in mapAddr ==> 0 <= mapAddr[a] < n && m[mapAddr[a]].service.ip == a)
    && |vRandom| == n && (forall k :: 0 <= k < n ==> vRandom[k] == k)
  }

  lemma LoadNext(s: State, ids: seq<int>, n: int, m: map<int, Info>, mapAddr: map<NetAddr, int>, vRandom: seq<int>)
    requires AddrOk(s) && NoDup(ids) && (forall k :: 0 <= k < |ids| ==> ids[k] in s.mapInfo) && 0 <= n < |ids|
    requires Loaded(s, ids, n, m, mapAddr, vRandom)
    ensures Loaded(s, ids, n + 1, m[n := RawInfo(s, ids, n)], mapAddr[s.mapInfo[ids[n]].service.ip := n], vRandom + [n])
  {
    var a := s.mapInfo[ids[n]].service.ip;
    forall k | 0 <= k < n
      ensures m[k] == RawInfo(s, ids, k) && m[k].service.ip != a
    {
      OtherAddress(s, ids, k, n);
    }
    hide AddrOk, NoDup;
    var m1, addr1 := m[n := RawInfo(s, ids, n)], mapAddr[a := n];
    forall k | 0 <= k < n + 1
      ensures m1[k].service.ip in addr1 && addr1[m1[k].service.ip] == k
    {
    }
    forall x | x in addr1
      ensures 0 <= addr1[x] < n + 1 && m1[addr1[x]].service.ip == x
    {
    }
  }

  lemma OtherAddress(s: State, ids: seq<int>, k: int, n: int)
    requires AddrOk(s) && NoDup(ids) && 0 <= k < n < |ids| && ids[k] in s.mapInfo && ids[n] in s.mapInfo
    ensures s.mapInfo[ids[k]].service.ip != s.mapInfo[ids[n]].service.ip
  {
  }

  // The tried entries numbered below n sit in their own hash buckets.
  ghost predicate TriedLoaded(h: Hasher, s: State, ids: seq<int>, nNew: int, n: int, vvTried: seq<seq<int>>)
    requires forall k :: 0 <= k < |ids| ==> ids[k] in s.mapInfo
  {
    && |vvTried| == TRIED_BUCKET_COUNT && 0 <= nNew <= n <= |ids|
    && (forall b :: 0 <= b < TRIED_BUCKET_COUNT ==> NoDup(vvTried[b]))
    && (forall b, k {:trigger k in vvTried[b]} :: 0 <= b < TRIED_BUCKET_COUNT ==>
                         (k in vvTried[b] <==> nNew <= k < n && h.TriedBucket(s.mapInfo[ids[k]].service) == b))
  }

  lemma TriedNext(h: Hasher, s: State, ids: seq<int>, nNew: int, n: int, vvTried: seq<seq<int>>)
    requires (forall k :: 0 <= k < |ids| ==> ids[k] in s.mapInfo) && n < |ids| && TriedLoaded(h, s, ids, nNew, n, vvTried)
    ensures var b := h.TriedBucket(s.mapInfo[ids[n]].service);
            TriedLoaded(h, s, ids, nNew, n + 1, vvTried[b := vvTried[b] + [n]])
  {
    var t := h.TriedBucket(s.mapInfo[ids[n]].service);
    var post := vvTried[t := vvTried[t] + [n]];
    forall b, k | 0 <= b < TRIED_BUCKET_COUNT
      ensures k in post[b] <==> nNew <= k < n + 1 && h.TriedBucket(s.mapInfo[ids[k]].service) == b
    {
      assert k in post[b] <==> k in vvTried[b] || (b == t && k == n);
    }
    assert n !in vvTried[t];
    assert NoDup(post[t]);
  }

  lemma {:induction false} RenameCard(xs: set<int>, ids: seq<int>)
    requires NoDup(ids) && forall x :: x in xs ==> 0 <= x < |ids|
    ensures |set x | x in xs :: ids[x]| == |xs|
  {
    var image := set x | x in xs :: ids[x];
    if xs == {} {
      assert image == {};
    } else {
      var x := Member(xs);
      RenameCard(xs - {x}, ids);
      assert image == (set y | y in xs - {x} :: ids[y]) + {ids[x]};
    }
  }

  // There is room for every tried entry: its bucket never held more than fits.
  lemma TriedRoom(h: Hasher, s: State, ids: seq<int>, nNew: int, n: int, vvTried: seq<seq<int>>)
    requires (forall k :: 0 <= k < |ids| ==> ids[k] in s.mapInfo) && n < |ids| && TriedLoaded(h, s, ids, nNew, n, vvTried)
    requires TriedOk(h, s) && NoDup(ids) && forall k :: nNew <= k < |ids| ==> s.mapInfo[ids[k]].inTried
    ensures |vvTried[h.TriedBucket(s.mapInfo[ids[n]].service)]| < TRIED_BUCKET_SIZE
  {
    var b := h.TriedBucket(s.mapInfo[ids[n]].service);
    var xs := Elems(vvTried[b]);
    ElemsCard(vvTried[b]);
    ElemsCard(s.vvTried[b]);
    forall x | x in xs
      ensures nNew <= x < n
    {
      assert x in vvTried[b];
    }
    RenameCard(xs, ids);
    var image := set x | x in xs :: ids[x];
    forall y | y in image
      ensures y in Elems(s.vvTried[b]) - {ids[n]}
    {
      var x :| x in xs && ids[x] == y;
      assert x in vvTried[b];
      assert x < n;
    }
    CardMono(image, Elems(s.vvTried[b]) - {ids[n]});
    assert ids[n] in Elems(s.vvTried[b]);
  }

  // The buckets below b are loaded, and of bucket b the entries done; the later ones are empty.
  ghost predicate NewLoaded(s: State, ids: seq<int>, vvNew: seq<set<int>>, b: int, done: set<int>)
    requires |s.vvNew| == NEW_BUCKET_COUNT
  {
    && |vvNew| == NEW_BUCKET_COUNT
    && (forall c, k {:trigger k in vvNew[c]} :: 0 <= c < NEW_BUCKET_COUNT ==>
                         (k in vvNew[c] <==> if c < b then 0 <= k < |ids| && ids[k] in s.vvNew[c]
                                             else c == b && k in done))
  }

  // Reference counts follow the buckets while these are being filled.
  ghost predicate Counting(s: State, ids: seq<int>, m: map<int, Info>, vvNew: seq<set<int>>)
    requires forall k :: 0 <= k < |ids| ==> ids[k] in s.mapInfo
  {
    && (forall k :: k in m <==> 0 <= k < |ids|)
    && (forall k :: 0 <= k < |ids| ==> m[k] == RawInfo(s, ids, k).(refCount := |Buckets(vvNew, k)|))
  }

  // The saved book: it forgets when an address was last tried.
  function Forgotten(book: Book): Book { map a | a in book :: book[a].(lastTry := 0) }

  // t is s renumbered by ids.
  ghost predicate Renumbered(h: Hasher, s: State, ids: seq<int>, t: State)
    requires |s.vvNew| == NEW_BUCKET_COUNT && forall k :: 0 <= k < |ids| ==> ids[k] in s.mapInfo
  {
    && t.nIdCount == |ids| && t.nNew == s.nNew && t.nTried == s.nTried
    && Counting(s, ids, t.mapInfo, t.vvNew)
    && (forall k :: 0 <= k < |ids| ==> t.mapInfo[k].service.ip in t.mapAddr && t.mapAddr[t.mapInfo[k].service.ip] == k)
    && (forall a :: a in t.mapAddr ==> 0 <= t.mapAddr[a] < |ids| && t.mapInfo[t.mapAddr[a]].service.ip == a)
    && |t.vRandom| == |ids| && (forall k :: 0 <= k < |ids| ==> t.vRandom[k] == k)
    && TriedLoaded(h, s, ids, s.nNew, |ids|, t.vvTried)
    && NewLoaded(s, ids, t.vvNew, NEW_BUCKET_COUNT, {})
  }

  // ids lists the new ids and then the tried ids.
  ghost predicate Listing(s: State, ids: seq<int>) {
    && NoDup(ids) && |ids| == s.nNew + s.nTried && 0 <= s.nNew && 0 <= s.nTried
    && (forall k :: 0 <= k < |ids| ==> ids[k] in s.mapInfo && (s.mapInfo[ids[k]].inTried <==> s.nNew <= k))
    && Elems(ids) == s.mapInfo.Keys
  }

  lemma RenumberedBuckets(s: State, ids: seq<int>, vvNew: seq<set<int>>, k: int)
    requires |s.vvNew| == NEW_BUCKET_COUNT && NewLoaded(s, ids, vvNew, NEW_BUCKET_COUNT, {}) && 0 <= k < |ids|
    ensures Buckets(vvNew, k) == Buckets(s.vvNew, ids[k])
  {
  }

  // A new bucket is as full after loading as it was before.
  lemma RenumberedFill(s: State, ids: seq<int>, vvNew: seq<set<int>>, b: int)
    requires NoDup(ids) && |s.vvNew| == NEW_BUCKET_COUNT && NewLoaded(s, ids, vvNew, NEW_BUCKET_COUNT, {})
    requires 0 <= b < NEW_BUCKET_COUNT && s.vvNew[b] <= Elems(ids)
    ensures |vvNew[b]| == |s.vvNew[b]|
  {
    forall x | x in vvNew[b]
      ensures 0 <= x < |ids| && ids[x] in s.vvNew[b]
    {
    }
    RenameCard(vvNew[b], ids);
    var image := set x | x in vvNew[b] :: ids[x];
    forall y | y in s.vvNew[b]
      ensures y in image
    {
      assert y in Elems(ids);
      var x :| 0 <= x < |ids| && ids[x] == y;
      assert x in vvNew[b];
    }
    assert image == s.vvNew[b];
  }

  // Entry k of the renumbered state.
  lemma RenumberedEntry(h: Hasher, s: State, ids: seq<int>, t: State, k: int)
    requires Listing(s, ids) && |s.vvNew| == NEW_BUCKET_COUNT && Renumbered(h, s, ids, t) && 0 <= k < |ids|
    ensures k in t.mapInfo && ids[k] in s.mapInfo
    ensures t.mapInfo[k] == s.mapInfo[ids[k]].(lastTry := 0, randomPos := k, refCount := |Buckets(t.vvNew, k)|)
    ensures EntryOf(t, k) == EntryOf(s, ids[k]).(lastTry := 0)
    ensures Buckets(t.vvNew, k) == Buckets(s.vvNew, ids[k])
  {
    hide NoDup, TriedLoaded;
    RenumberedBuckets(s, ids, t.vvNew, k);
  }

  lemma RenumberedAddr(h: Hasher, s: State, ids: seq<int>, t: State)
    requires Listing(s, ids) && |s.vvNew| == NEW_BUCKET_COUNT && Renumbered(h, s, ids, t)
    ensures AddrOk(t) && RandomOk(t.mapInfo, t.vRandom)
  {
    hide TriedLoaded, NewLoaded, NoDup;
  }

  lemma RenumberedFills(s: State, ids: seq<int>, vvNew: seq<set<int>>)
    requires Listing(s, ids) && NewOk(s, NONE) && NewLoaded(s, ids, vvNew, NEW_BUCKET_COUNT, {})
    ensures forall b :: 0 <= b < NEW_BUCKET_COUNT ==> |vvNew[b]| <= NEW_BUCKET_SIZE
  {
    hide NoDup;
    forall b | 0 <= b < NEW_BUCKET_COUNT
      ensures |vvNew[b]| <= NEW_BUCKET_SIZE
    {
      forall x | x in s.vvNew[b]
        ensures x in Elems(ids)
      {
        assert x in s.mapInfo.Keys;
      }
      RenumberedFill(s, ids, vvNew, b);
    }
  }

  lemma RenumberedRef(h: Hasher, s: State, ids: seq<int>, t: State, k: int)
    requires Listing(s, ids) && NewOk(s, NONE) && NONE !in s.mapInfo && Renumbered(h, s, ids, t) && 0 <= k < |ids|
    ensures k in t.mapInfo && t.mapInfo[k].refCount == |Buckets(t.vvNew, k)|
    ensures if t.mapInfo[k].inTried then t.mapInfo[k].refCount == 0 else 1 <= t.mapInfo[k].refCount <= NEW_BUCKETS_PER_ADDRESS
    ensures Buckets(t.vvNew, k) != {} ==> !t.mapInfo[k].inTried
  {
    hide NewLoaded, TriedLoaded, NoDup;
    RenumberedEntry(h, s, ids, t, k);
    var id := ids[k];
    assert id in s.mapInfo && id != NONE;
  }

  lemma RenumberedNew(h: Hasher, s: State, ids: seq<int>, t: State)
    requires Listing(s, ids) && NewOk(s, NONE) && NONE !in s.mapInfo && Renumbered(h, s, ids, t)
    ensures NewOk(t, NONE)
  {
    hide TriedLoaded, NoDup;
    RenumberedFills(s, ids, t.vvNew);
    forall k | 0 <= k < |ids|
      ensures k in t.mapInfo && t.mapInfo[k].refCount == |Buckets(t.vvNew, k)|
      ensures if t.mapInfo[k].inTried then t.mapInfo[k].refCount == 0 else 1 <= t.mapInfo[k].refCount <= NEW_BUCKETS_PER_ADDRESS
      ensures Buckets(t.vvNew, k) != {} ==> !t.mapInfo[k].inTried
    {
      RenumberedRef(h, s, ids, t, k);
    }
    NewOkFrom(s, ids, t);
  }

  lemma NewOkFrom(s: State, ids: seq<int>, t: State)
    requires |s.vvNew| == NEW_BUCKET_COUNT && NewLoaded(s, ids, t.vvNew, NEW_BUCKET_COUNT, {})
    requires forall k :: k in t.mapInfo <==> 0 <= k < |ids|
    requires forall b :: 0 <= b < NEW_BUCKET_COUNT ==> |t.vvNew[b]| <= NEW_BUCKET_SIZE
    requires forall k :: 0 <= k < |ids| ==> t.mapInfo[k].refCount == |Buckets(t.vvNew, k)|
    requires forall k :: 0 <= k < |ids| ==> if t.mapInfo[k].inTried then t.mapInfo[k].refCount == 0
                                            else 1 <= t.mapInfo[k].refCount <= NEW_BUCKETS_PER_ADDRESS
    requires forall k :: 0 <= k < |ids| && Buckets(t.vvNew, k) != {} ==> !t.mapInfo[k].inTried
    ensures NewOk(t, NONE)
  {
    forall b, k | 0 <= b < NEW_BUCKET_COUNT && k in t.vvNew[b]
      ensures k in t.mapInfo && !t.mapInfo[k].inTried
    {
      assert 0 <= k < |ids|;
      assert b in Buckets(t.vvNew, k);
    }
  }

  lemma RenumberedTried(h: Hasher, s: State, ids: seq<int>, t: State)
    requires Listing(s, ids) && TriedOk(h, s) && |s.vvNew| == NEW_BUCKET_COUNT && Renumbered(h, s, ids, t)
    ensures TriedOk(h, t)
  {
    hide NewLoaded;
    forall k | 0 <= k < |ids|
      ensures t.mapInfo[k].inTried == s.mapInfo[ids[k]].inTried && t.mapInfo[k].service == s.mapInfo[ids[k]].service
    {
      RenumberedEntry(h, s, ids, t, k);
    }
    forall b | 0 <= b < TRIED_BUCKET_COUNT
      ensures |t.vvTried[b]| <= TRIED_BUCKET_SIZE
    {
      TriedFill(h, s, ids, t.vvTried, b);
    }
    forall b, k | 0 <= b < TRIED_BUCKET_COUNT && k in t.vvTried[b]
      ensures k in t.mapInfo && t.mapInfo[k].inTried && h.TriedBucket(t.mapInfo[k].service) == b
    {
      assert s.nNew <= k < |ids|;
    }
    forall k | k in t.mapInfo && t.mapInfo[k].inTried
      ensures k in t.vvTried[h.TriedBucket(t.mapInfo[k].service)]
    {
    }
  }

  lemma TriedFill(h: Hasher, s: State, ids: seq<int>, vvTried: seq<seq<int>>, b: int)
    requires Listing(s, ids) && TriedOk(h, s) && TriedLoaded(h, s, ids, s.nNew, |ids|, vvTried) && 0 <= b < TRIED_BUCKET_COUNT
    ensures |vvTried[b]| <= |s.vvTried[b]|
  {
    var xs := Elems(vvTried[b]);
    ElemsCard(vvTried[b]);
    ElemsCard(s.vvTried[b]);
    forall x | x in xs
      ensures 0 <= x < |ids|
    {
      assert x in vvTried[b];
    }
    RenameCard(xs, ids);
    var image := set x | x in xs :: ids[x];
    forall y | y in image
      ensures y in Elems(s.vvTried[b])
    {
      var x :| x in xs && ids[x] == y;
      assert x in vvTried[b];
    }
    CardMono(image, Elems(s.vvTried[b]));
  }

  lemma RenumberedIds(ids: seq<int>, m: map<int, Info>, t: map<int, Info>)
    requires NoDup(ids) && Elems(ids) == m.Keys && forall k :: k in t <==> 0 <= k < |ids|
    requires forall k :: 0 <= k < |ids| ==> ids[k] in m && t[k].inTried == m[ids[k]].inTried
    ensures |NewIds(t)| == |NewIds(m)| && |TriedIds(t)| == |TriedIds(m)|
  {
    RenameCard(NewIds(t), ids);
    RenameCard(TriedIds(t), ids);
    forall y | y in m
      ensures exists x :: 0 <= x < |ids| && ids[x] == y
    {
      assert y in Elems(ids);
    }
    assert (set x | x in NewIds(t) :: ids[x]) == NewIds(m);
    assert (set x | x in TriedIds(t) :: ids[x]) == TriedIds(m);
  }

  lemma RenumberedCounts(h: Hasher, s: State, ids: seq<int>, t: State)
    requires Listing(s, ids) && CountsOk(s) && |s.vvNew| == NEW_BUCKET_COUNT && Renumbered(h, s, ids, t)
    ensures CountsOk(t)
  {
    hide NewLoaded, TriedLoaded, NoDup;
    forall k | 0 <= k < |ids|
      ensures t.mapInfo[k].inTried == s.mapInfo[ids[k]].inTried
    {
      RenumberedEntry(h, s, ids, t, k);
    }
    RenumberedIds(ids, s.mapInfo, t.mapInfo);
  }

  lemma RenumberedTimes(h: Hasher, s: State, ids: seq<int>, t: State)
    requires Listing(s, ids) && TimesOk(s) && |s.vvNew| == NEW_BUCKET_COUNT && Renumbered(h, s, ids, t)
    ensures TimesOk(t)
  {
    hide NewLoaded, TriedLoaded, NoDup;
    forall k | k in t.mapInfo
      ensures 0 <= t.mapInfo[k].lastTry && 0 <= t.mapInfo[k].lastSuccess
      ensures t.mapInfo[k].inTried ==> t.mapInfo[k].lastSuccess != 0
    {
      RenumberedEntry(h, s, ids, t, k);
      assert ids[k] in s.mapInfo;
    }
  }

  lemma RenumberedAbs(h: Hasher, s: State, ids: seq<int>, t: State)
    requires Listing(s, ids) && AddrOk(s) && AddrOk(t) && |s.vvNew| == NEW_BUCKET_COUNT && Renumbered(h, s, ids, t)
    ensures Abs(t) == Forgotten(Abs(s))
  {
    hide Renumbered, NoDup, Abs;
    forall a | a in t.mapAddr
      ensures a in s.mapAddr && EntryAt(t, a) == EntryAt(s, a).(lastTry := 0)
    {
      RenumberedAt(h, s, ids, t, a);
    }
    forall a | a in s.mapAddr
      ensures a in t.mapAddr
    {
      RenumberedFrom(h, s, ids, t, a);
    }
    AbsEntryAt(s);
    AbsEntryAt(t);
    assert Abs(t).Keys == Forgotten(Abs(s)).Keys;
  }

  function EntryAt(s: State, a: NetAddr): Entry
    requires a in s.mapAddr && s.mapAddr[a] in s.mapInfo
  {
    EntryOf(s, s.mapAddr[a])
  }

  lemma AbsEntryAt(s: State)
    requires AddrOk(s)
    ensures Abs(s).Keys == s.mapAddr.Keys && forall a :: a in s.mapAddr ==> Abs(s)[a] == EntryAt(s, a)
  {
  }

  lemma RenumberedAt(h: Hasher, s: State, ids: seq<int>, t: State, a: NetAddr)
    requires Listing(s, ids) && AddrOk(s) && |s.vvNew| == NEW_BUCKET_COUNT && Renumbered(h, s, ids, t) && a in t.mapAddr
    ensures t.mapAddr[a] in t.mapInfo && a in s.mapAddr && s.mapAddr[a] in s.mapInfo
    ensures EntryAt(t, a) == EntryAt(s, a).(lastTry := 0)
  {
    hide TriedLoaded, NewLoaded, NoDup;
    var k := t.mapAddr[a];
    RenumberedEntry(h, s, ids, t, k);
    assert s.mapAddr[s.mapInfo[ids[k]].service.ip] == ids[k];
  }

  lemma RenumberedFrom(h: Hasher, s: State, ids: seq<int>, t: State, a: NetAddr)
    requires Listing(s, ids) && AddrOk(s) && |s.vvNew| == NEW_BUCKET_COUNT && Renumbered(h, s, ids, t) && a in s.mapAddr
    ensures a in t.mapAddr
  {
    hide TriedLoaded, NewLoaded, NoDup;
    var id := s.mapAddr[a];
    assert id in Elems(ids);
    var k :| 0 <= k < |ids| && ids[k] == id;
    RenumberedEntry(h, s, ids, t, k);
    assert t.mapInfo[k].service.ip == a;
  }

  // Renumbering keeps the invariant and the book.
  lemma RenumberedInv(h: Hasher, s: State, ids: seq<int>, t: State)
    requires Inv(h, s) && Listing(s, ids) && |s.vvNew| == NEW_BUCKET_COUNT && Renumbered(h, s, ids, t)
    ensures Inv(h, t) && Abs(t) == Forgotten(Abs(s))
  {
    hide Listing, Renumbered, NoDup;
    RenumberedAddr(h, s, ids, t);
    RenumberedNew(h, s, ids, t);
    RenumberedTried(h, s, ids, t);
    RenumberedCounts(h, s, ids, t);
    RenumberedTimes(h, s, ids, t);
    RenumberedAbs(h, s, ids, t);
  }

  // ---------- reading ----------

  // Enter a record from disk under number n.
  method Enter(am: CAddrMan, r: Record, n: int, fInTried: bool)
    modifies am`mapInfo, am`mapAddr, am`vRandom
    ensures am.mapInfo == old(am.mapInfo)[n := FromRecord(r).(randomPos := |old(am.vRandom)|, inTried := fInTried)]
    ensures am.mapAddr == old(am.mapAddr)[r.service.ip := n] && am.vRandom == old(am.vRandom) + [n]
  {
    var info := FromRecord(r).(inTried := fInTried);
    info := info.(randomPos := |am.vRandom|);
    am.vRandom := am.vRandom + [n];
    am.mapInfo := am.mapInfo[n := info];
    am.mapAddr := am.mapAddr[info.service.ip := n];
  }

  lemma LoadedSize(s: State, ids: seq<int>, n: int, m: map<int, Info>, mapAddr: map<NetAddr, int>, vRandom: seq<int>)
    requires (forall k :: 0 <= k < |ids| ==> ids[k] in s.mapInfo) && Loaded(s, ids, n, m, mapAddr, vRandom)
    ensures |vRandom| == n <= |ids|
  {
  }

  // Read the new entries.
  method ReadNew(am: CAddrMan, records: seq<Record>, ghost s: State, ghost ids: seq<int>)
    requires AddrOk(s) && Listing(s, ids) && |records| == s.nNew
    requires forall k :: 0 <= k < |records| ==> records[k] == ToRecord(s.mapInfo[ids[k]])
    requires Loaded(s, ids, 0, am.mapInfo, am.mapAddr, am.vRandom)
    modifies am`mapInfo, am`mapAddr, am`vRandom
    ensures Loaded(s, ids, s.nNew, am.mapInfo, am.mapAddr, am.vRandom)
  {
    hide NoDup, AddrOk, Loaded;
    for n := 0 to |records|
      invariant Loaded(s, ids, n, am.mapInfo, am.mapAddr, am.vRandom)
    {
      LoadedSize(s, ids, n, am.mapInfo, am.mapAddr, am.vRandom);
      LoadNext(s, ids, n, am.mapInfo, am.mapAddr, am.vRandom);
      assert FromRecord(records[n]).(randomPos := n, inTried := false) == RawInfo(s, ids, n);
      Enter(am, records[n], n, false);
    }
  }

  // Read the tried entries. Their buckets are found by hashing; an entry whose bucket is full is lost.
  method ReadTried(am: CAddrMan, records: seq<Record>, ghost h: Hasher, ghost s: State, ghost ids: seq<int>)
    returns (nLost: int)
    requires h == am.H() && AddrOk(s) && TriedOk(h, s) && Listing(s, ids) && |records| == s.nTried
    requires forall k :: 0 <= k < |records| ==> records[k] == ToRecord(s.mapInfo[ids[s.nNew + k]])
    requires Loaded(s, ids, s.nNew, am.mapInfo, am.mapAddr, am.vRandom) && am.nIdCount == s.nNew
    requires TriedLoaded(h, s, ids, s.nNew, s.nNew, am.vvTried)
    modifies am`mapInfo, am`mapAddr, am`vRandom, am`vvTried, am`nIdCount
    ensures Loaded(s, ids, |ids|, am.mapInfo, am.mapAddr, am.vRandom) && am.nIdCount == |ids|
    ensures TriedLoaded(h, s, ids, s.nNew, |ids|, am.vvTried)
    ensures nLost == 0
  {
    hide NoDup, AddrOk, Loaded, TriedOk;
    nLost := 0;
    for n := 0 to |records|
      invariant am.nIdCount == s.nNew + n && nLost == 0
      invariant Loaded(s, ids, s.nNew + n, am.mapInfo, am.mapAddr, am.vRandom)
      invariant TriedLoaded(h, s, ids, s.nNew, s.nNew + n, am.vvTried)
    {
      var bucket := am.H().TriedBucket(records[n].service);
      TriedRoom(h, s, ids, s.nNew, s.nNew + n, am.vvTried);
      if |am.vvTried[bucket]| < TRIED_BUCKET_SIZE {
        LoadedSize(s, ids, s.nNew + n, am.mapInfo, am.mapAddr, am.vRandom);
        LoadNext(s, ids, s.nNew + n, am.mapInfo, am.mapAddr, am.vRandom);
        TriedNext(h, s, ids, s.nNew, s.nNew + n, am.vvTried);
        assert FromRecord(records[n]).(randomPos := s.nNew + n, inTried := true) == RawInfo(s, ids, s.nNew + n) by {
          TriedRaw(h, s, ids, s.nNew + n);
        }
        Enter(am, records[n], am.nIdCount, true);
        am.vvTried := am.vvTried[bucket := am.vvTried[bucket] + [am.nIdCount]];
        am.nIdCount := am.nIdCount + 1;
      } else {
        nLost := nLost + 1;
      }
    }
  }

  lemma TriedRaw(h: Hasher, s: State, ids: seq<int>, k: int)
    requires Listing(s, ids) && s.nNew <= k < |ids|
    ensures RawInfo(s, ids, k) == FromRecord(ToRecord(s.mapInfo[ids[k]])).(randomPos := k, inTried := true)
  {
  }

  // One more index of bucket b is read.
  lemma CountNext(s: State, ids: seq<int>, m: map<int, Info>, vvNew: seq<set<int>>, b: int, k: int)
    requires (forall i :: 0 <= i < |ids| ==> ids[i] in s.mapInfo) && 0 <= b < |vvNew| && 0 <= k < |ids|
    requires Counting(s, ids, m, vvNew) && k !in vvNew[b]
    ensures Counting(s, ids, m[k := m[k].(refCount := m[k].refCount + 1)], vvNew[b := vvNew[b] + {k}])
  {
    forall x
      ensures Buckets(vvNew[b := vvNew[b] + {k}], x) == Buckets(vvNew, x) + (if x == k then {b} else {})
    {
      BucketsInsert(vvNew, k, b, x);
    }
    assert b !in Buckets(vvNew, k);
  }

  // While bucket b is being read an entry listed there is below the reference limit.
  lemma CountRoom(s: State, ids: seq<int>, m: map<int, Info>, vvNew: seq<set<int>>, b: int, done: set<int>, k: int)
    requires NewOk(s, NONE) && NONE !in s.mapInfo && 0 <= b < NEW_BUCKET_COUNT && 0 <= k < |ids|
    requires (forall i :: 0 <= i < |ids| ==> ids[i] in s.mapInfo) && Counting(s, ids, m, vvNew)
    requires NewLoaded(s, ids, vvNew, b, done) && k !in done && ids[k] in s.vvNew[b]
    ensures m[k].refCount < NEW_BUCKETS_PER_ADDRESS && k !in vvNew[b]
  {
    var all := Buckets(s.vvNew, ids[k]);
    assert b in all;
    forall c | c in Buckets(vvNew, k)
      ensures c in all - {b}
    {
      assert k in vvNew[c];
    }
    CardMono(Buckets(vvNew, k), all - {b});
    assert s.mapInfo[ids[k]].refCount == |all|;
  }

  lemma LoadedInsert(s: State, ids: seq<int>, vvNew: seq<set<int>>, b: int, done: set<int>, k: int)
    requires |s.vvNew| == NEW_BUCKET_COUNT && 0 <= b < NEW_BUCKET_COUNT && NewLoaded(s, ids, vvNew, b, done)
    ensures NewLoaded(s, ids, vvNew[b := vvNew[b] + {k}], b, done + {k})
  {
  }

  lemma LoadedBucket(s: State, ids: seq<int>, vvNew: seq<set<int>>, b: int, done: set<int>)
    requires |s.vvNew| == NEW_BUCKET_COUNT && 0 <= b < NEW_BUCKET_COUNT && NewLoaded(s, ids, vvNew, b, done)
    requires forall k :: k in done <==> 0 <= k < |ids| && ids[k] in s.vvNew[b]
    ensures NewLoaded(s, ids, vvNew, b + 1, {})
  {
    forall c, k | 0 <= c < NEW_BUCKET_COUNT
      ensures k in vvNew[c] <==> if c < b + 1 then 0 <= k < |ids| && ids[k] in s.vvNew[c] else false
    {
    }
  }

  // Read one new bucket.
  method ReadBucket(am: CAddrMan, b: int, indices: seq<int>, ghost s: State, ghost ids: seq<int>)
    requires Listing(s, ids) && NewOk(s, NONE) && NONE !in s.mapInfo && 0 <= b < NEW_BUCKET_COUNT
    requires NoDup(indices) && forall k :: k in indices <==> 0 <= k < |ids| && ids[k] in s.vvNew[b]
    requires Counting(s, ids, am.mapInfo, am.vvNew) && NewLoaded(s, ids, am.vvNew, b, {})
    modifies am`mapInfo, am`vvNew
    ensures Counting(s, ids, am.mapInfo, am.vvNew) && NewLoaded(s, ids, am.vvNew, b + 1, {})
  {
    hide Counting, NewLoaded;
    NewSizes(s, ids, am.vvNew, b, {});
    assert Elems(indices[..0]) == {};
    for n := 0 to |indices|
      invariant |am.vvNew| == NEW_BUCKET_COUNT
      invariant Counting(s, ids, am.mapInfo, am.vvNew) && NewLoaded(s, ids, am.vvNew, b, Elems(indices[..n]))
    {
      var nIndex := indices[n];
      assert nIndex in indices && nIndex !in Elems(indices[..n]);
      CountRoom(s, ids, am.mapInfo, am.vvNew, b, Elems(indices[..n]), nIndex);
      CountedIn(s, ids, am.mapInfo, am.vvNew);
      if am.mapInfo[nIndex].refCount < NEW_BUCKETS_PER_ADDRESS {
        CountNext(s, ids, am.mapInfo, am.vvNew, b, nIndex);
        LoadedInsert(s, ids, am.vvNew, b, Elems(indices[..n]), nIndex);
        am.mapInfo := am.mapInfo[nIndex := am.mapInfo[nIndex].(refCount := am.mapInfo[nIndex].refCount + 1)];
        am.vvNew := am.vvNew[b := am.vvNew[b] + {nIndex}];
      }
      assert Elems(indices[..n + 1]) == Elems(indices[..n]) + {nIndex};
    }
    assert indices[..|indices|] == indices;
    LoadedBucket(s, ids, am.vvNew, b, Elems(indices));
  }

  lemma NewSizes(s: State, ids: seq<int>, vvNew: seq<set<int>>, b: int, done: set<int>)
    requires |s.vvNew| == NEW_BUCKET_COUNT && NewLoaded(s, ids, vvNew, b, done)
    ensures |vvNew| == NEW_BUCKET_COUNT
  {
  }

  lemma CountedIn(s: State, ids: seq<int>, m: map<int, Info>, vvNew: seq<set<int>>)
    requires (forall i :: 0 <= i < |ids| ==> ids[i] in s.mapInfo) && Counting(s, ids, m, vvNew)
    ensures forall k :: k in m <==> 0 <= k < |ids|
  {
  }

  lemma ImageListing(s: State, key: Key, st: Stream, N: seq<int>, T: seq<int>)
    requires IsImage(s, key, st, N, T) && CountsOk(s)
    ensures Listing(s, N + T)
    ensures forall k :: 0 <= k < s.nNew ==> (N + T)[k] == N[k]
    ensures forall k :: 0 <= k < s.nTried ==> (N + T)[s.nNew + k] == T[k]
  {
    var ids := N + T;
    forall k | 0 <= k < |ids|
      ensures ids[k] in s.mapInfo && (s.mapInfo[ids[k]].inTried <==> s.nNew <= k)
    {
      if k < |N| {
        assert ids[k] in Elems(N);
      } else {
        assert ids[k] in Elems(T);
      }
    }
    forall x
      ensures x in Elems(ids) <==> x in s.mapInfo.Keys
    {
      if x in s.mapInfo {
        assert x in Elems(N) || x in Elems(T);
      }
    }
    forall i, j | 0 <= i < j < |ids|
      ensures ids[i] != ids[j]
    {
      if i < |N| <= j {
        assert s.mapInfo[ids[j]].inTried && !s.mapInfo[ids[i]].inTried;
      }
    }
  }

  // The record lists follow the new numbering.
  lemma ImageRecords(s: State, key: Key, st: Stream, N: seq<int>, T: seq<int>)
    requires IsImage(s, key, st, N, T) && Listing(s, N + T)
    ensures st.nKey == key && st.nNew == s.nNew == |st.newRecords| && st.nTried == s.nTried == |st.triedRecords|
    ensures |N + T| == s.nNew + s.nTried && forall k :: 0 <= k < |N + T| ==> (N + T)[k] in s.mapInfo
    ensures forall k :: 0 <= k < s.nNew ==> st.newRecords[k] == ToRecord(s.mapInfo[(N + T)[k]])
    ensures forall k :: 0 <= k < s.nTried ==> st.triedRecords[k] == ToRecord(s.mapInfo[(N + T)[s.nNew + k]])
  {
    hide NoDup, BucketImage, Elems, NewIds, TriedIds;
  }

  // The index list of bucket b names its entries under the new numbering.
  lemma ImageBucket(h: Hasher, s: State, st: Stream, N: seq<int>, T: seq<int>, b: int)
    requires Inv(h, s) && IsImage(s, h.key, st, N, T) && Listing(s, N + T) && 0 <= b < NEW_BUCKET_COUNT
    ensures NoDup(st.buckets[b])
    ensures forall k :: k in st.buckets[b] <==> 0 <= k < |N + T| && (N + T)[k] in s.vvNew[b]
  {
    hide NoDup;
    InvParts(h, s, NONE);
    assert BucketImage(s.vvNew[b], N, st.buckets[b]);
    forall k
      ensures k in st.buckets[b] <==> 0 <= k < |N + T| && (N + T)[k] in s.vvNew[b]
    {
      assert k in st.buckets[b] <==> 0 <= k < |N| && N[k] in s.vvNew[b];
      if 0 <= k < |N| {
        assert (N + T)[k] == N[k];
      } else if |N| <= k < |N + T| {
        var id := (N + T)[k];
        assert s.mapInfo[id].inTried;
        assert id !in s.vvNew[b];
      }
    }
  }

  lemma StartLoading(h: Hasher, s: State, ids: seq<int>)
    requires Listing(s, ids) && |s.vvNew| == NEW_BUCKET_COUNT
    ensures Loaded(s, ids, 0, map[], map[], [])
    ensures TriedLoaded(h, s, ids, s.nNew, s.nNew, seq(TRIED_BUCKET_COUNT, _ => []))
    ensures NewLoaded(s, ids, seq(NEW_BUCKET_COUNT, _ => {}), 0, {})
  {
  }

  lemma StartCounting(s: State, ids: seq<int>, m: map<int, Info>, mapAddr: map<NetAddr, int>, vRandom: seq<int>)
    requires Listing(s, ids) && Loaded(s, ids, |ids|, m, mapAddr, vRandom)
    ensures Counting(s, ids, m, seq(NEW_BUCKET_COUNT, _ => {}))
  {
    var vv: seq<set<int>> := seq(NEW_BUCKET_COUNT, _ => {});
    forall k
      ensures Buckets(vv, k) == {}
    {
    }
  }

  lemma Finished(h: Hasher, s: State, ids: seq<int>, t: State, m: map<int, Info>)
    requires Listing(s, ids) && |s.vvNew| == NEW_BUCKET_COUNT
    requires t.nIdCount == |ids| && t.nNew == s.nNew && t.nTried == s.nTried
    requires Loaded(s, ids, |ids|, m, t.mapAddr, t.vRandom) && Counting(s, ids, t.mapInfo, t.vvNew)
    requires TriedLoaded(h, s, ids, s.nNew, |ids|, t.vvTried) && NewLoaded(s, ids, t.vvNew, NEW_BUCKET_COUNT, {})
    ensures Renumbered(h, s, ids, t)
  {
    forall k | 0 <= k < |ids|
      ensures t.mapInfo[k].service == m[k].service
    {
      assert m[k] == RawInfo(s, ids, k);
    }
  }

  // Read all new buckets.
  method ReadBuckets(am: CAddrMan, st: Stream, ghost h: Hasher, ghost s: State, ghost N: seq<int>, ghost T: seq<int>)
    requires Inv(h, s) && IsImage(s, h.key, st, N, T) && Listing(s, N + T) && |s.vvNew| == NEW_BUCKET_COUNT
    requires Counting(s, N + T, am.mapInfo, am.vvNew) && NewLoaded(s, N + T, am.vvNew, 0, {})
    modifies am`mapInfo, am`vvNew
    ensures Counting(s, N + T, am.mapInfo, am.vvNew) && NewLoaded(s, N + T, am.vvNew, NEW_BUCKET_COUNT, {})
  {
    hide InvBut, Counting, NewLoaded, Listing, NoDup;
    NewParts(h, s);
    for b := 0 to NEW_BUCKET_COUNT
      invariant Counting(s, N + T, am.mapInfo, am.vvNew) && NewLoaded(s, N + T, am.vvNew, b, {})
    {
      ImageBucket(h, s, st, N, T, b);
      ReadBucket(am, b, st.buckets[b], s, N + T);
    }
  }

  lemma NewParts(h: Hasher, s: State)
    requires Inv(h, s)
    ensures NewOk(s, NONE) && NONE !in s.mapInfo && AddrOk(s) && TriedOk(h, s) && CountsOk(s)
  {
  }

  // Load am from what Write produced for a manager in state s.
  method Read(am: CAddrMan, st: Stream, ghost h: Hasher, ghost s: State, ghost N: seq<int>, ghost T: seq<int>)
    returns (nLost: int)
    requires h == Hasher(st.nKey, am.triedHash, am.newHash) && Inv(h, s) && IsImage(s, h.key, st, N, T)
    modifies am
    ensures am.Valid() && am.H() == h
    ensures am.Book() == Forgotten(Abs(s))
    ensures nLost == 0
  {
    hide InvBut, AddrOk, RandomOk, NewOk, TriedOk, CountsOk, Abs, Listing, Loaded, TriedLoaded, NewLoaded, Counting, NoDup,
         Renumbered, IsImage, Forgotten;
    ghost var ids := N + T;
    NewParts(h, s);
    InvParts(h, s, NONE);
    ImageListing(s, h.key, st, N, T);
    ImageRecords(s, h.key, st, N, T);
    StartLoading(h, s, ids);
    am.nKey, am.nNew, am.nTried := st.nKey, st.nNew, st.nTried;
    am.nIdCount, am.mapInfo, am.mapAddr, am.vRandom := 0, map[], map[], [];
    am.vvTried := seq(TRIED_BUCKET_COUNT, _ => []);
    am.vvNew := seq(NEW_BUCKET_COUNT, _ => {});
    ReadNew(am, st.newRecords, s, ids);
    am.nIdCount := am.nNew;
    nLost := ReadTried(am, st.triedRecords, h, s, ids);
    am.nTried := am.nTried - nLost;
    ghost var m := am.mapInfo;
    StartCounting(s, ids, am.mapInfo, am.mapAddr, am.vRandom);
    ReadBuckets(am, st, h, s, N, T);
    Finished(h, s, ids, am.S(), m);
    RenumberedInv(h, s, ids, am.S());
  }

  // Saving a manager and loading the stream into another object brings back its book, but for the
  // times of the last tries, and loses no tried entry.
  method RoundTrip(am: CAddrMan, target: CAddrMan) returns (nLost: int)
    requires am.Valid() && am != target && target.triedHash == am.triedHash && target.newHash == am.newHash
    modifies target
    ensures target.Valid() && target.nKey == am.nKey
    ensures target.Book() == Forgotten(am.Book())
    ensures nLost == 0
  {
    hide InvBut, Abs, IsImage, Forgotten;
    ghost var s, h := am.S(), am.H();
    var st, N, T := Write(am);
    ImageKey(s, am.nKey, st, N, T);
    nLost := Read(target, st, h, s, N, T);
  }

  lemma ImageKey(s: State, key: Key, st: Stream, N: seq<int>, T: seq<int>)
    requires IsImage(s, key, st, N, T)
    ensures st.nKey == key
  {
  }
}