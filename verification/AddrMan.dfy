/** The stochastic address manager. Its fields are the source's; what its methods do is stated
    about the book (AddrBook.dfy) that the fields stand for.

    GetRandInt returns any value in range. The clock is a parameter, and each method is one
    atomic step, as the source holds the lock throughout. */
module AddrMan {
  import opened AddrBook
  import opened AddrManState
  import opened BitOps
  import opened Numbers
  import opened TriedShuffle

  const GETADDR_MAX_PCT := 23
  const GETADDR_MAX := 2500

  method GetRandInt(n: int) returns (r: int)
    requires 0 < n
    ensures 0 <= r < n
  {
    r :| 0 <= r < n;
  }

  lemma {:induction false} HasLeast(s: set<int>)
    requires s != {}
    ensures exists x :: x in s && forall y :: y in s ==> x <= y
  {
    var x := Member(s);
    if s == {x} {
    } else {
      var rest := s - {x};
      assert s == rest + {x};
      HasLeast(rest);
      var m :| m in rest && forall y :: y in rest ==> m <= y;
      var w := if x < m then x else m;
      assert w in s && forall y :: y in s ==> w <= y;
    }
  }

  // The first element in iteration order of an ordered set.
  function Least(s: set<int>): (x: int)
    requires s != {}
    ensures x in s && forall y :: y in s ==> x <= y
  {
    HasLeast(s);
    var x :| x in s && forall y :: y in s ==> x <= y;
    x
  }

  // Position of x in iteration order.
  function Rank(s: set<int>, x: int): nat { |set y | y in s && y < x| }

  // How many steps, going round the new buckets, lead from bucket start to bucket b.
  function StepsTo(start: int, b: int): int { if start <= b then b - start else b - start + NEW_BUCKET_COUNT }

  function FreshInfo(addr: Address, source: NetAddr): Info {
    Info(addr.service, addr.services, addr.nTime, source, 0, 0, 0, 0, false, -1)
  }

  class CAddrMan {
    const triedHash: (Key, Service) -> nat
    const newHash: (Key, Service, NetAddr) -> nat
    const isRoutable: NetAddr -> bool

    var nKey: Key
    var nIdCount: int
    var mapInfo: map<int, Info>
    var mapAddr: map<NetAddr, int>
    var vRandom: seq<int>
    var nTried: int
    var vvTried: seq<seq<int>>
    var nNew: int
    var vvNew: seq<set<int>>

    function H(): Hasher
      reads this
    {
      Hasher(nKey, triedHash, newHash)
    }

    ghost function S(): State
      reads this
    {
      State(nIdCount, mapInfo, mapAddr, vRandom, nTried, vvTried, nNew, vvNew)
    }

    ghost predicate Valid()
      reads this
    {
      Inv(H(), S())
    }

    ghost function Book(): Book
      reads this
    {
      Abs(S())
    }

    constructor (key: Key, triedHash: (Key, Service) -> nat, newHash: (Key, Service, NetAddr) -> nat,
                 isRoutable: NetAddr -> bool)
      ensures Valid() && Book() == map[] && nKey == key
    {
      this.triedHash, this.newHash, this.isRoutable := triedHash, newHash, isRoutable;
      nKey := key;
      nIdCount, nTried, nNew := 0, 0, 0;
      mapInfo, mapAddr, vRandom := map[], map[], [];
      vvTried := seq(TRIED_BUCKET_COUNT, _ => []);
      vvNew := seq(NEW_BUCKET_COUNT, _ => {});
      new;
      assert NewIds(mapInfo) == {} && TriedIds(mapInfo) == {};
    }

    method Find(addr: NetAddr) returns (id: int)
      requires AddrOk(S())
      ensures id == if addr in mapAddr then mapAddr[addr] else NONE
      ensures id != NONE ==> id in mapInfo && mapInfo[id].service.ip == addr && addr in Book()
      ensures id == NONE ==> addr !in Book()
    {
      if addr in mapAddr && mapAddr[addr] in mapInfo {
        id := mapAddr[addr];
      } else {
        id := NONE;
      }
    }

    method Create(addr: Address, source: NetAddr) returns (nId: int)
      modifies this`nIdCount, this`mapInfo, this`mapAddr, this`vRandom
      ensures nId == old(nIdCount) && nIdCount == nId + 1
      ensures mapInfo == old(mapInfo)[nId := FreshInfo(addr, source).(randomPos := |old(vRandom)|)]
      ensures mapAddr == old(mapAddr)[addr.service.ip := nId] && vRandom == old(vRandom) + [nId]
    {
      nId := nIdCount;
      nIdCount := nIdCount + 1;
      mapInfo := mapInfo[nId := FreshInfo(addr, source)];
      mapAddr := mapAddr[addr.service.ip := nId];
      mapInfo := mapInfo[nId := mapInfo[nId].(randomPos := |vRandom|)];
      vRandom := vRandom + [nId];
    }

    method SwapRandom(nRndPos1: int, nRndPos2: int)
      requires RandomOk(mapInfo, vRandom)
      requires 0 <= nRndPos1 < |vRandom| && 0 <= nRndPos2 < |vRandom|
      modifies this`mapInfo, this`vRandom
      ensures RandomOk(mapInfo, vRandom)
      ensures vRandom == old(vRandom[nRndPos1 := vRandom[nRndPos2]][nRndPos2 := vRandom[nRndPos1]])
      ensures SameButPositions(old(mapInfo), mapInfo)
    {
      if nRndPos1 == nRndPos2 {
        return;
      }
      hide RandomOk, SameButPositions;
      SwappedRandom(mapInfo, vRandom, nRndPos1, nRndPos2);
      var nId1, nId2 := vRandom[nRndPos1], vRandom[nRndPos2];
      mapInfo := mapInfo[nId1 := mapInfo[nId1].(randomPos := nRndPos2)];
      mapInfo := mapInfo[nId2 := mapInfo[nId2].(randomPos := nRndPos1)];
      vRandom := vRandom[nRndPos1 := nId2];
      vRandom := vRandom[nRndPos2 := nId1];
    }

    // Forget nId: close up vRandom over it and drop it from the indexes.
    method Delete(nId: int)
      requires RandomOk(mapInfo, vRandom) && nId in mapInfo
      modifies this`mapInfo, this`mapAddr, this`vRandom, this`nNew
      ensures RandomOk(mapInfo, vRandom)
      ensures SameButPositions(old(mapInfo) - {nId}, mapInfo)
      ensures mapAddr == old(mapAddr) - {old(mapInfo)[nId].service.ip} && nNew == old(nNew) - 1
    {
      hide RandomOk;
      var info := mapInfo[nId];
      RandomAt(mapInfo, vRandom, nId);
      SwapRandom(info.randomPos, |vRandom| - 1);
      LastRandom(mapInfo, vRandom, nId);
      vRandom := vRandom[..|vRandom| - 1];
      mapAddr := mapAddr - {info.service.ip};
      mapInfo := mapInfo - {nId};
      nNew := nNew - 1;
    }

    // Give up the last reference to nId, held by bucket nUBucket.
    method ReleaseLast(nId: int, nUBucket: int, ghost pending: int)
      requires InvBut(H(), S(), pending) && 0 <= nUBucket < NEW_BUCKET_COUNT == |vvNew|
      requires nId in vvNew[nUBucket] && nId != pending && nId in mapInfo && mapInfo[nId].refCount == 1
      modifies this`mapInfo, this`mapAddr, this`vRandom, this`nNew, this`vvNew
      ensures InvBut(H(), S(), pending)
      ensures Deleted(old(S()), S(), nId, nUBucket)
      ensures old(mapInfo[nId].service.ip) in old(Book())
      ensures Book() == Drop(old(Book()), old(mapInfo[nId].service.ip), nUBucket)
    {
      InvParts(H(), S(), pending);
      hide InvBut, AddrOk, RandomOk, Abs, Drop, SameButPositions;
      ghost var s := S();
      Delete(nId);
      vvNew := vvNew[nUBucket := vvNew[nUBucket] - {nId}];
      assert Deleted(s, S(), nId, nUBucket);
      DeleteInv(H(), s, S(), nId, nUBucket, pending);
    }

    // Give up the reference to nId held by bucket nUBucket; without references it is deleted.
    method Release(nId: int, nUBucket: int, ghost pending: int)
      requires InvBut(H(), S(), pending) && 0 <= nUBucket < NEW_BUCKET_COUNT == |vvNew|
      requires nId in vvNew[nUBucket] && nId != pending && nId in mapInfo
      modifies this`mapInfo, this`mapAddr, this`vRandom, this`nNew, this`vvNew
      ensures InvBut(H(), S(), pending)
      ensures vvNew == old(vvNew)[nUBucket := old(vvNew)[nUBucket] - {nId}]
      ensures old(mapInfo[nId].service.ip) in old(Book())
      ensures Book() == Drop(old(Book()), old(mapInfo[nId].service.ip), nUBucket)
      ensures forall x :: x in old(mapInfo) && x != nId ==>
                x in mapInfo && mapInfo[x] == old(mapInfo)[x].(randomPos := mapInfo[x].randomPos)
    {
      hide InvBut, Abs, Drop;
      if mapInfo[nId].refCount - 1 == 0 {
        ReleaseLast(nId, nUBucket, pending);
      } else {
        ghost var s := S();
        LeaveInv(H(), s, nId, nUBucket, pending);
        mapInfo := mapInfo[nId := mapInfo[nId].(refCount := mapInfo[nId].refCount - 1)];
        vvNew := vvNew[nUBucket := vvNew[nUBucket] - {nId}];
        assert S() == Left(s, nId, nUBucket);
      }
    }

    // The entry last seen longest ago, among those at positions n of the bucket's iteration order.
    method PickOldest(vNew: set<int>, n: seq<int>) returns (nOldest: int)
      requires vNew != {} && vNew <= mapInfo.Keys && n != []
      requires forall i :: 0 <= i < |n| ==> 0 <= n[i] < |vNew|
      ensures OldestOf(mapInfo, vNew, n, nOldest)
    {
      hide Rank;
      var nI := 0;
      nOldest := NONE;
      var found := false;
      var rest := vNew;
      while rest != {}
        invariant rest <= vNew && nI == |vNew - rest|
        invariant forall x, y :: x in vNew - rest && y in rest ==> x < y
        invariant found ==> nOldest in vNew - rest && Rank(vNew, nOldest) in n
        invariant forall x :: x in vNew - rest && Rank(vNew, x) in n ==> found && mapInfo[nOldest].nTime <= mapInfo[x].nTime
        invariant forall x :: x in vNew - rest && Rank(vNew, x) in n && x < nOldest ==> mapInfo[nOldest].nTime < mapInfo[x].nTime
        decreases |rest|
      {
        var it := Least(rest);
        RankNext(vNew, rest, it);
        if nI in n {
          if !found || mapInfo[it].nTime < mapInfo[nOldest].nTime {
            nOldest, found := it, true;
          }
        }
        rest := rest - {it};
        nI := nI + 1;
      }
      assert vNew - rest == vNew;
      var at := RankOnto(vNew, n[0]);
    }

    // The first terrible entry of a bucket, in its iteration order.
    method FindTerrible(vNew: set<int>, now: int) returns (found: bool, id: int)
      requires vNew <= mapInfo.Keys
      ensures found ==> FirstTerrible(mapInfo, vNew, now, id)
      ensures !found ==> NoneTerrible(mapInfo, vNew, now)
    {
      hide Terrible;
      var rest := vNew;
      while rest != {}
        invariant rest <= vNew
        invariant forall x :: x in vNew - rest ==> !Terrible(mapInfo[x], now)
        invariant forall x, y :: x in vNew - rest && y in rest ==> x < y
        decreases |rest|
      {
        id := Least(rest);
        if Terrible(mapInfo[id], now) {
          return true, id;
        }
        rest := rest - {id};
      }
      assert vNew - rest == vNew;
      return false, NONE;
    }

    // Make room in new bucket nUBucket: v leaves it, the first terrible one or else the oldest at four places n.
    method ShrinkNew(nUBucket: int, now: int, ghost pending: int) returns (r: int, ghost v: int, ghost n: seq<int>)
      requires InvBut(H(), S(), pending) && 0 <= nUBucket < NEW_BUCKET_COUNT == |vvNew|
      requires vvNew[nUBucket] != {} && pending !in vvNew[nUBucket]
      modifies this`mapInfo, this`mapAddr, this`vRandom, this`nNew, this`vvNew
      ensures InvBut(H(), S(), pending) && |vvNew| == NEW_BUCKET_COUNT
      ensures v in old(vvNew)[nUBucket] && old(vvNew)[nUBucket] <= old(mapInfo).Keys
      ensures Victim(old(mapInfo), old(vvNew)[nUBucket], now, r, n, v)
      ensures r == if exists x :: x in old(vvNew)[nUBucket] && var i := old(mapInfo)[x];
                        && (i.lastTry == 0 || i.lastTry < now - 60)
                        && (|| i.nTime == 0 || i.nTime > now + 600 || i.nTime < now - 2592000
                            || (i.lastSuccess == 0 && i.attempts >= 3) || (i.lastSuccess < now - 604800 && i.attempts >= 10))
                   then 0 else 1
      ensures vvNew == old(vvNew)[nUBucket := old(vvNew)[nUBucket] - {v}]
      ensures Droppable(old(Book()), old(mapInfo)[v].service.ip, nUBucket, now)
      ensures Book() == Drop(old(Book()), old(mapInfo)[v].service.ip, nUBucket)
      ensures pending in old(mapInfo) ==>
                pending in mapInfo && mapInfo[pending] == old(mapInfo)[pending].(randomPos := mapInfo[pending].randomPos)
    {
      hide InvBut, AddrOk, RandomOk, Abs, Drop, Droppable, FirstTerrible, NoneTerrible, OldestOf;
      InvParts(H(), S(), pending);
      ghost var s := S();
      var vNew := vvNew[nUBucket];
      assert forall x :: x in vNew ==> x in vvNew[nUBucket] && x in mapInfo;
      var found, id := FindTerrible(vNew, now);
      if found {
        v, n := id, [];
        VictimDroppable(s, v, nUBucket, now, 0, n);
        VictimIs(s.mapInfo, vNew, now, 0, n, v);
        Release(id, nUBucket, pending);
        return 0, v, n;
      }
      var n0 := GetRandInt(|vNew|);
      var n1 := GetRandInt(|vNew|);
      var n2 := GetRandInt(|vNew|);
      var n3 := GetRandInt(|vNew|);
      var nOldest := PickOldest(vNew, [n0, n1, n2, n3]);
      v, n := nOldest, [n0, n1, n2, n3];
      VictimDroppable(s, v, nUBucket, now, 1, n);
      VictimIs(s.mapInfo, vNew, now, 1, n, v);
      Release(nOldest, nUBucket, pending);
      return 1, v, n;
    }

    // Drop an entry from new bucket nUBucket if it is full.
    method MakeRoom(nId: int, nUBucket: int, now: int)
      requires nId in mapInfo && !mapInfo[nId].inTried && 0 <= nUBucket < NEW_BUCKET_COUNT == |vvNew|
      requires nId !in vvNew[nUBucket] && InvBut(H(), S(), nId) && |vvNew[nUBucket]| <= NEW_BUCKET_SIZE
      modifies this`mapInfo, this`mapAddr, this`vRandom, this`nNew, this`vvNew
      ensures InvBut(H(), S(), nId) && |vvNew| == NEW_BUCKET_COUNT
      ensures nId in mapInfo && !mapInfo[nId].inTried && mapInfo[nId].service == old(mapInfo)[nId].service
      ensures nId !in vvNew[nUBucket] && |vvNew[nUBucket]| < NEW_BUCKET_SIZE
      ensures if |old(vvNew)[nUBucket]| != NEW_BUCKET_SIZE then Book() == old(Book())
              else exists v :: Droppable(old(Book()), v, nUBucket, now) && Book() == Drop(old(Book()), v, nUBucket)
    {
      hide InvBut, Abs, Drop, Droppable;
      if |vvNew[nUBucket]| == NEW_BUCKET_SIZE {
        var _, _, _ := ShrinkNew(nUBucket, now, nId);
      }
    }

    // Put nId, already counted for it, into new bucket nUBucket.
    method PutCounted(nId: int, nUBucket: int, now: int)
      requires nId in mapInfo && !mapInfo[nId].inTried && 0 <= nUBucket < NEW_BUCKET_COUNT == |vvNew|
      requires nId !in vvNew[nUBucket] && InvBut(H(), S(), nId)
      modifies this`mapInfo, this`mapAddr, this`vRandom, this`nNew, this`vvNew
      ensures Valid()
      ensures old(mapInfo)[nId].service.ip in old(Book())
      ensures PlaceStep(old(Book()), Book(), old(mapInfo)[nId].service.ip, nUBucket, now)
    {
      hide InvBut, Abs, Drop, Put, Droppable, InBucket;
      BookHas(H(), S(), nId, nUBucket, nId);
      MakeRoom(nId, nUBucket, now);
      ghost var shrunk := S();
      InsertInv(H(), shrunk, nId, nUBucket);
      vvNew := vvNew[nUBucket := vvNew[nUBucket] + {nId}];
      assert S() == Inserted(shrunk, nId, nUBucket);
    }

    // Put nId into new bucket nUBucket unless it is there.
    method PutNew(nId: int, nUBucket: int, now: int)
      requires nId in mapInfo && !mapInfo[nId].inTried && 0 <= nUBucket < NEW_BUCKET_COUNT == |vvNew|
      requires if nId in vvNew[nUBucket] then Valid() else InvBut(H(), Counted(S(), nId), nId)
      modifies this`mapInfo, this`mapAddr, this`vRandom, this`nNew, this`vvNew
      ensures Valid()
      ensures old(mapInfo)[nId].service.ip in old(Book())
      ensures PlaceStep(old(Book()), Book(), old(mapInfo)[nId].service.ip, nUBucket, now)
    {
      ghost var s := S();
      if nId !in vvNew[nUBucket] {
        CountedAbs(H(), s, nId);
        mapInfo := mapInfo[nId := mapInfo[nId].(refCount := mapInfo[nId].refCount + 1)];
        assert S() == Counted(s, nId);
        PutCounted(nId, nUBucket, now);
      } else {
        BookHas(H(), s, nId, nUBucket, NONE);
      }
    }

    // Bring time and flags of nId up to date.
    method RefreshKnown(nId: int, addr: Address, source: NetAddr, nTimePenalty: int, now: int)
      requires Valid() && nId in mapInfo && mapInfo[nId].service.ip == addr.service.ip
      modifies this`mapInfo
      ensures Valid() && Book() == AddMid(old(Book()), addr, source, nTimePenalty, now)
      ensures mapInfo.Keys == old(mapInfo).Keys && mapInfo[nId].service == old(mapInfo)[nId].service
    {
      hide InvBut, Abs, AddMid, U32, AddServices;
      // The time is only moved when it is a day (an hour, if online) behind.
      var info := mapInfo[nId];
      var fCurrentlyOnline := now - addr.nTime < 24 * 60 * 60;
      var nUpdateInterval := if fCurrentlyOnline then 60 * 60 else 24 * 60 * 60;
      if addr.nTime != 0 && (info.nTime == 0 || info.nTime < addr.nTime - nUpdateInterval - nTimePenalty) {
        info := info.(nTime := U32(Max(0, addr.nTime - nTimePenalty)));
      }
      // Service flags only accumulate.
      info := info.(services := AddServices(info.services, addr.services));
      Refreshed(H(), S(), nId, info, addr, source, nTimePenalty, now);
      mapInfo := mapInfo[nId := info];
    }

    // A repeated announcement of nId.
    method AddKnown(nId: int, addr: Address, source: NetAddr, nTimePenalty: int, now: int) returns (ghost dice: int)
      requires Valid() && nId in mapInfo && mapInfo[nId].service.ip == addr.service.ip
      modifies this`mapInfo, this`mapAddr, this`vRandom, this`nNew, this`vvNew
      ensures Valid()
      ensures AddStep(H(), true, old(Book()), Book(), addr, source, nTimePenalty, now, false, dice)
    {
      hide PlaceStep, Abs, InvBut;
      dice := 0;
      EntryFacts(H(), S(), nId);
      RefreshKnown(nId, addr, source, nTimePenalty, now);
      EntryFacts(H(), S(), nId);
      // Nothing to learn from an announcement no newer than what is known.
      var info := mapInfo[nId];
      Pow2Mono(0, info.refCount);
      if addr.nTime == 0 || (info.nTime != 0 && addr.nTime <= info.nTime) {
        return;
      }
      // Tried entries, and those with four references, stay where they are.
      if info.inTried || info.refCount == NEW_BUCKETS_PER_ADDRESS {
        return;
      }
      // Another reference is granted with odds of one in nFactor.
      var nFactor := 1;
      for n := 0 to info.refCount
        invariant nFactor == Pow2(n)
      {
        nFactor := nFactor * 2;
      }
      var nDraw := GetRandInt(nFactor);
      dice := nDraw;
      if nFactor > 1 && nDraw != 0 {
        return;
      }
      CountInv(H(), S(), nId);
      PutNew(nId, H().NewBucket(info.service, source), now);
    }

    // The first announcement of an address.
    method AddUnknown(addr: Address, source: NetAddr, nTimePenalty: int, now: int)
      requires Valid() && addr.service.ip !in mapAddr
      modifies this`nIdCount, this`mapInfo, this`mapAddr, this`vRandom, this`nNew, this`vvNew
      ensures Valid()
      ensures AddStep(H(), true, old(Book()), Book(), addr, source, nTimePenalty, now, true, 0)
    {
      hide InvBut, Abs, PlaceStep, U32;
      ghost var s := S();
      var nId := Create(addr, source);
      mapInfo := mapInfo[nId := mapInfo[nId].(nTime := U32(Max(0, mapInfo[nId].nTime - nTimePenalty)))];
      nNew := nNew + 1;
      ghost var i := mapInfo[nId].(refCount := 1);
      FirstSeen(H(), s, i, addr, source, nTimePenalty, now);
      assert Counted(S(), nId) == Created(s, i);
      CountedAbs(H(), S(), nId);
      var nUBucket := H().NewBucket(addr.service, source);
      PutNew(nId, nUBucket, now);
    }

    method Add(addr: Address, source: NetAddr, nTimePenalty: int, now: int) returns (fNew: bool, ghost dice: int)
      requires Valid()
      modifies this`nIdCount, this`mapInfo, this`mapAddr, this`vRandom, this`nNew, this`vvNew
      ensures Valid()
      ensures AddStep(H(), isRoutable(addr.service.ip), old(Book()), Book(), addr, source, nTimePenalty, now, fNew, dice)
    {
      if !isRoutable(addr.service.ip) {
        return false, 0;
      }
      hide InvBut, AddrOk, Abs, AddStep;
      InvParts(H(), S(), NONE);
      var nId := Find(addr.service.ip);
      if nId != NONE {
        dice := AddKnown(nId, addr, source, nTimePenalty, now);
        fNew := false;
      } else {
        AddUnknown(addr, source, nTimePenalty, now);
        fNew, dice := true, 0;
      }
    }

    // Shuffle the first few slots of a tried bucket and return a slot to replace: the one from which the draws n
    // brought the least recently successful of them, now in slot k.
    method SelectTried(nKBucket: int) returns (nOldestPos: int, ghost n: seq<int>, ghost k: int)
      requires 0 <= nKBucket < |vvTried| && vvTried[nKBucket] != []
      requires forall i :: 0 <= i < |vvTried[nKBucket]| ==> 0 <= vvTried[nKBucket][i] && vvTried[nKBucket][i] in mapInfo
      modifies this`vvTried
      ensures Draws(old(vvTried)[nKBucket], n) && Run(mapInfo, old(vvTried)[nKBucket], n, k) && nOldestPos == n[k]
      ensures vvTried == old(vvTried)[nKBucket := Shuffled(old(vvTried)[nKBucket], n)]
      ensures multiset(vvTried[nKBucket]) == multiset(old(vvTried)[nKBucket])
      ensures 0 <= nOldestPos < |vvTried[nKBucket]|
    {
      hide Shuffled, FirstOldest;
      var vTried := vvTried[nKBucket];
      ghost var v := vTried;
      var nOldest := NONE;
      nOldestPos := NONE;
      n, k := [], 0;
      ShuffledNone(v);
      var i := 0;
      while i < TRIED_ENTRIES_INSPECT_ON_EVICT && i < |vTried|
        invariant 0 <= i == |n| <= TRIED_ENTRIES_INSPECT_ON_EVICT && Draws(v, n) && vTried == Shuffled(v, n)
        invariant forall s :: 0 <= s < |vTried| ==> 0 <= vTried[s] && vTried[s] in mapInfo
        invariant vvTried == old(vvTried)
        invariant i == 0 ==> nOldest == NONE
        invariant i > 0 ==> 0 <= k < i && nOldest == vTried[k] && nOldestPos == n[k] && FirstOldest(mapInfo, vTried[..i], k)
      {
        var nPos := GetRandInt(|vTried| - i);
        nPos := nPos + i;
        var nTemp := vTried[nPos];
        ShuffledNext(v, n, nPos);
        n := n + [nPos];
        ghost var was := vTried;
        vTried := vTried[nPos := vTried[i]][i := nTemp];
        assert vTried[..i + 1] == was[..i] + [nTemp];
        OldestNext(mapInfo, was[..i], nTemp, k);
        if nOldest == NONE || mapInfo[nTemp].lastSuccess < mapInfo[nOldest].lastSuccess {
          nOldest, nOldestPos := nTemp, nPos;
          k := i;
        }
        i := i + 1;
      }
      ShuffledSame(v, n);
      vvTried := vvTried[nKBucket := vTried];
    }

    // Take nId out of every new bucket.
    method ClearNew(nId: int)
      requires nId in mapInfo
      modifies this`mapInfo, this`vvNew
      ensures vvNew == Cleared(old(vvNew), nId)
      ensures mapInfo == old(mapInfo)[nId := old(mapInfo)[nId].(refCount := old(mapInfo)[nId].refCount
                                                                           - |Buckets(old(vvNew), nId)|)]
    {
      hide Buckets;
      ghost var vv, m := vvNew, mapInfo;
      BucketsNone(nId);
      for b := 0 to |vvNew|
        invariant |vvNew| == |vv|
        invariant forall c :: 0 <= c < |vv| ==> vvNew[c] == if c < b then vv[c] - {nId} else vv[c]
        invariant mapInfo == m[nId := m[nId].(refCount := m[nId].refCount - |Buckets(vv[..b], nId)|)]
      {
        BucketsPrefix(vv, nId, b);
        if nId in vvNew[b] {
          vvNew := vvNew[b := vvNew[b] - {nId}];
          mapInfo := mapInfo[nId := mapInfo[nId].(refCount := mapInfo[nId].refCount - 1)];
        }
      }
      assert vv[..|vv|] == vv;
    }

    // Move nId from the new table, where bucket nOrigin holds it, to the tried table.
    method MakeTried(nId: int, nOrigin: int) returns (ghost n: seq<int>, ghost k: int)
      requires Valid() && nId in mapInfo && mapInfo[nId].lastSuccess != 0
      requires 0 <= nOrigin < NEW_BUCKET_COUNT == |vvNew| && nId in vvNew[nOrigin]
      modifies this`mapInfo, this`vvNew, this`vvTried, this`nNew, this`nTried
      ensures Valid()
      ensures MakeTriedStep(H(), old(Book()), Book(), old(mapInfo)[nId].service, nOrigin)
      ensures Entered(old(mapInfo), old(vvTried), vvTried, nId, H().TriedBucket(old(mapInfo)[nId].service), n, k)
    {
      hide InvBut, Abs, InTried, SendBack, ToTried, Run, Shuffled;
      n, k := [], 0;
      ghost var s := S();
      MakeTriedFacts(H(), s, nId, nOrigin);
      TriedFacts(H(), s, H().TriedBucket(mapInfo[nId].service));
      ClearNew(nId);
      nNew := nNew - 1;
      assert mapInfo[nId].refCount == 0;
      // Its tried bucket follows from its service.
      var nKBucket := H().TriedBucket(mapInfo[nId].service);
      // With room in that bucket nobody has to leave.
      if |vvTried[nKBucket]| < TRIED_BUCKET_SIZE {
        vvTried := vvTried[nKBucket := vvTried[nKBucket] + [nId]];
        nTried := nTried + 1;
        mapInfo := mapInfo[nId := mapInfo[nId].(inTried := true)];
        assert S() == Moved(s, nId, nKBucket);
        MoveInv(H(), s, nId);
      } else {
        n, k := Evict(nId, nOrigin, nKBucket, s);
      }
    }

    // Put nId in slot nPos of a tried bucket; the entry found there returns to the new table.
    method Exchange(nId: int, nOrigin: int, nKBucket: int, nPos: int) returns (ghost nb: int)
      requires 0 <= nKBucket < |vvTried| && 0 <= nPos < |vvTried[nKBucket]| && |vvNew| == NEW_BUCKET_COUNT && 0 <= nOrigin < |vvNew|
      requires nId in mapInfo && vvTried[nKBucket][nPos] in mapInfo && vvTried[nKBucket][nPos] != nId
      modifies this`mapInfo, this`vvNew, this`vvTried, this`nNew
      ensures var idOld := old(vvTried)[nKBucket][nPos];
              var own := H().NewBucket(old(mapInfo)[idOld].service, old(mapInfo)[idOld].source);
              && 0 <= own < NEW_BUCKET_COUNT && nb == (if |old(vvNew)[own]| < NEW_BUCKET_SIZE then own else nOrigin)
              && vvNew == old(vvNew)[nb := old(vvNew)[nb] + {idOld}]
              && mapInfo == old(mapInfo)[idOld := old(mapInfo)[idOld].(inTried := false, refCount := 1)]
                                        [nId := old(mapInfo)[nId].(inTried := true)]
              && vvTried == old(vvTried)[nKBucket := old(vvTried)[nKBucket][nPos := nId]]
      ensures nNew == old(nNew) + 1
    {
      var idOld := vvTried[nKBucket][nPos];
      // The new bucket the evicted entry belongs to.
      var nUBucket := H().NewBucket(mapInfo[idOld].service, mapInfo[idOld].source);
      // The evicted entry becomes a new one, with one reference.
      mapInfo := mapInfo[idOld := mapInfo[idOld].(inTried := false, refCount := 1)];
      // Its own bucket if that has room, else the one nId came from.
      nb := if |vvNew[nUBucket]| < NEW_BUCKET_SIZE then nUBucket else nOrigin;
      if |vvNew[nUBucket]| < NEW_BUCKET_SIZE {
        vvNew := vvNew[nUBucket := vvNew[nUBucket] + {idOld}];
      } else {
        vvNew := vvNew[nOrigin := vvNew[nOrigin] + {idOld}];
      }
      nNew := nNew + 1;
      vvTried := vvTried[nKBucket := vvTried[nKBucket][nPos := nId]];
      mapInfo := mapInfo[nId := mapInfo[nId].(inTried := true)];
    }

    // The tried bucket is full: put nId in the place of another entry.
    method Evict(nId: int, nOrigin: int, nKBucket: int, ghost s: State) returns (ghost n: seq<int>, ghost k: int)
      requires Inv(H(), s) && nId in s.mapInfo && !s.mapInfo[nId].inTried && s.mapInfo[nId].lastSuccess != 0
      requires nKBucket == H().TriedBucket(s.mapInfo[nId].service) && |vvTried| == TRIED_BUCKET_COUNT
      requires |vvTried[nKBucket]| == TRIED_BUCKET_SIZE
      requires |s.vvNew| == NEW_BUCKET_COUNT && 0 <= nOrigin < NEW_BUCKET_COUNT
      requires |Cleared(s.vvNew, nId)[nOrigin]| < NEW_BUCKET_SIZE
      requires S() == s.(mapInfo := s.mapInfo[nId := s.mapInfo[nId].(refCount := 0)], vvNew := Cleared(s.vvNew, nId),
                         nNew := s.nNew - 1)
      modifies this`mapInfo, this`vvNew, this`vvTried, this`nNew
      ensures Valid()
      ensures s.mapInfo[nId].service.ip in Abs(s)
      ensures exists v :: v in InTried(H(), Abs(s), nKBucket) && v in ToTried(Abs(s), s.mapInfo[nId].service.ip)
                          && Book() == SendBack(H(), ToTried(Abs(s), s.mapInfo[nId].service.ip), v, nOrigin)
      ensures Entered(s.mapInfo, old(vvTried), vvTried, nId, nKBucket, n, k)
    {
      hide InvBut, Abs, InTried, SendBack, ToTried, Draws, Shuffled, FirstOldest, Run;
      TriedFacts(H(), s, nKBucket);
      // The position SelectTried proposes.
      var nPos;
      nPos, n, k := SelectTried(nKBucket);
      RunSame(mapInfo, s.mapInfo, s.vvTried[nKBucket], n, k);
      ghost var shuffled := vvTried[nKBucket];
      ghost var idOld := vvTried[nKBucket][nPos];
      VictimFacts(H(), s, nId, shuffled, nPos);
      ghost var nb := Exchange(nId, nOrigin, nKBucket, nPos);
      SwappedMap(s.mapInfo, nId, idOld);
      assert S() == Swapped(s, nId, nKBucket, shuffled, nPos, nb);
      SwapInv(H(), s, nId, shuffled, nPos, nb);
      SentBack(H(), s, nId, idOld, nOrigin);
    }

    // Some new bucket holding nId, searched from a random start; NONE if there is none.
    method FindBucket(nId: int) returns (nUBucket: int)
      requires |vvNew| == NEW_BUCKET_COUNT
      ensures nUBucket == NONE <==> Buckets(vvNew, nId) == {}
      ensures nUBucket != NONE ==> 0 <= nUBucket < NEW_BUCKET_COUNT && nId in vvNew[nUBucket]
    {
      var nRnd := GetRandInt(|vvNew|);
      nUBucket := NONE;
      var n := 0;
      while n < |vvNew|
        invariant 0 <= n <= |vvNew|
        invariant forall b :: 0 <= b < |vvNew| && StepsTo(nRnd, b) < n ==> nId !in vvNew[b]
      {
        var nB := (n + nRnd) % |vvNew|;
        if nId in vvNew[nB] {
          assert nB in Buckets(vvNew, nId);
          return nB;
        }
        n := n + 1;
      }
    }

    method Good(addr: Service, nTime: int) returns (ghost n: seq<int>, ghost k: int)
      requires Valid() && 0 < nTime
      modifies this`mapInfo, this`vvNew, this`vvTried, this`nNew, this`nTried
      ensures Valid()
      ensures GoodStep(H(), old(Book()), Book(), addr, nTime)
      ensures if Unproven(old(S()), addr)
              then Entered(old(mapInfo), old(vvTried), vvTried, old(mapAddr)[addr.ip], H().TriedBucket(addr), n, k)
              else vvTried == old(vvTried)
    {
      hide InvBut, AddrOk, Abs, GoodStep, MakeTriedStep, U32, Entered, Run;
      n, k := [], 0;
      InvParts(H(), S(), NONE);
      ghost var s := S();
      // An address nobody announced changes nothing.
      var nId := Find(addr.ip);
      if nId == NONE {
        GoodUnknown(H(), s, addr, nTime);
        return;
      }
      EntryFacts(H(), s, nId);
      // The same address under another port is another service.
      var info := mapInfo[nId];
      if info.service != addr {
        GoodUnknown(H(), s, addr, nTime);
        return;
      }
      // A success counts as a try.
      info := info.(lastSuccess := nTime, lastTry := nTime, nTime := U32(nTime), attempts := 0);
      GoodTouch(H(), s, nId, nTime);
      mapInfo := mapInfo[nId := info];
      ghost var touched := S();
      // For a tried entry the time of success is all.
      if info.inTried {
        return;
      }
      // Some new bucket that refers to it: there is one.
      var nUBucket := FindBucket(nId);
      assert nUBucket != NONE;
      // From here on the entry is tried.
      n, k := MakeTried(nId, nUBucket);
      EnteredTouched(H(), s, touched.mapInfo, vvTried, nId, n, k);
      GoodMoved(H(), s, touched, S(), nId, nTime, nUBucket);
    }

    method Attempt(addr: Service, nTime: int)
      requires Valid() && 0 < nTime
      modifies this`mapInfo
      ensures Valid()
      ensures AttemptStep(old(Book()), Book(), addr, nTime)
    {
      hide InvBut, AddrOk, Abs;
      InvParts(H(), S(), NONE);
      ghost var s := S();
      var nId := Find(addr.ip);
      if nId == NONE {
        return;
      }
      EntryFacts(H(), s, nId);
      var info := mapInfo[nId];
      if info.service != addr {
        return;
      }
      info := info.(lastTry := nTime, attempts := info.attempts + 1);
      TouchInv(H(), s, nId, info, NONE);
      mapInfo := mapInfo[nId := info];
      assert S() == s.(mapInfo := s.mapInfo[nId := info]);
    }

    method Connected(addr: Service, nTime: int)
      requires Valid()
      modifies this`mapInfo
      ensures Valid()
      ensures ConnectedStep(old(Book()), Book(), addr, nTime)
    {
      hide InvBut, AddrOk, Abs, U32;
      InvParts(H(), S(), NONE);
      ghost var s := S();
      var nId := Find(addr.ip);
      if nId == NONE {
        return;
      }
      EntryFacts(H(), s, nId);
      var info := mapInfo[nId];
      if info.service != addr {
        return;
      }
      var nUpdateInterval := 20 * 60;
      if nTime - info.nTime > nUpdateInterval {
        info := info.(nTime := U32(nTime));
        TouchInv(H(), s, nId, info, NONE);
        mapInfo := mapInfo[nId := info];
        assert S() == s.(mapInfo := s.mapInfo[nId := info]);
      }
    }

    // A random selection of the known addresses, none of them twice.
    method GetAddr() returns (vAddr: seq<Address>)
      requires Valid()
      modifies this`mapInfo, this`vRandom
      ensures Valid() && Book() == old(Book())
      ensures |vAddr| == var pct := 23 * |Book()| / 100; if pct > 2500 then 2500 else pct
      ensures forall i :: 0 <= i < |vAddr| ==>
                vAddr[i].service.ip in Book()
                && var e := Book()[vAddr[i].service.ip]; vAddr[i] == Address(e.service, e.services, e.nTime)
      ensures forall i, j :: 0 <= i < j < |vAddr| ==> vAddr[i].service.ip != vAddr[j].service.ip
    {
      hide InvBut, AddrOk, Abs, BookInv, RandomOk, Picked, Reordered, SameButPositions, AddressOf;
      ghost var s := S();
      InvParts(H(), s, NONE);
      AbsInv(H(), s);
      var nNodes := GETADDR_MAX_PCT * |vRandom| / 100;
      if nNodes > GETADDR_MAX {
        nNodes := GETADDR_MAX;
      }
      vAddr := [];
      PickNone(s);
      for n := 0 to nNodes
        invariant Reordered(s, S()) && Picked(S(), vAddr) && |vRandom| == |s.vRandom| && |vAddr| == n
      {
        ghost var before := S();
        ReorderedParts(s, before);
        var nRndPos := GetRandInt(|vRandom| - n);
        nRndPos := nRndPos + n;
        SwapRandom(n, nRndPos);
        SwapReorders(before, S());
        PickNext(s, before, S(), vAddr, n, nRndPos);
        vAddr := vAddr + [AddressOf(mapInfo[vRandom[n]])];
      }
      ReorderInv(H(), s, S());
      InvParts(H(), S(), NONE);
      GivenAway(H(), S(), vAddr);
    }
  }

  // Every method is the step of its operation, so a use of the class is a run of the book.
  method Apply(manager: CAddrMan, op: Op)
    requires manager.Valid() && (op.Good? || op.Attempt? ==> 0 < op.time)
    requires op.Add? ==> op.routable == manager.isRoutable(op.addr.service.ip)
    modifies manager
    ensures manager.Valid() && OpOk(op) && Step(manager.H(), old(manager.Book()), op, manager.Book())
    ensures manager.H() == old(manager.H())
  {
    hide Inv, Abs, AddStep, GoodStep, AttemptStep, ConnectedStep;
    match op
    case Add(_, addr, source, penalty, now) =>
      var _, dice := manager.Add(addr, source, penalty, now);
    case Good(svc, time) =>
      var _, _ := manager.Good(svc, time);
    case Attempt(svc, time) =>
      manager.Attempt(svc, time);
    case Connected(svc, time) =>
      manager.Connected(svc, time);
    case GetAddr =>
      var _ := manager.GetAddr();
  }

  function AddressOf(i: Info): Address { Address(i.service, i.services, i.nTime) }

  // Two slots of vRandom exchanged, with the positions recorded for them.
  lemma SwappedRandom(m: map<int, Info>, v: seq<int>, i: int, j: int)
    requires RandomOk(m, v) && 0 <= i < |v| && 0 <= j < |v| && i != j
    ensures v[i] in m && v[j] in m && v[i] != v[j]
    ensures RandomOk(SwappedPositions(m, v[i], i, v[j], j), v[i := v[j]][j := v[i]])
    ensures SameButPositions(m, SwappedPositions(m, v[i], i, v[j], j))
  {
  }

  function SwappedPositions(m: map<int, Info>, x: int, i: int, y: int, j: int): map<int, Info>
    requires x in m && y in m
  {
    m[x := m[x].(randomPos := j)][y := m[y].(randomPos := i)]
  }

  lemma RandomAt(m: map<int, Info>, v: seq<int>, x: int)
    requires RandomOk(m, v) && x in m
    ensures 0 <= m[x].randomPos < |v| && v[m[x].randomPos] == x
  {
  }

  // The last slot of vRandom given up.
  lemma LastRandom(m: map<int, Info>, v: seq<int>, x: int)
    requires RandomOk(m, v) && v != [] && v[|v| - 1] == x
    ensures RandomOk(m - {x}, v[..|v| - 1])
  {
  }

  // Only the order of vRandom, and the positions recorded for it, differ.
  ghost predicate Reordered(s: State, t: State) {
    && t == s.(mapInfo := t.mapInfo, vRandom := t.vRandom)
    && SameButPositions(s.mapInfo, t.mapInfo)
    && RandomOk(t.mapInfo, t.vRandom)
  }

  lemma ReorderedParts(s: State, t: State)
    requires Reordered(s, t)
    ensures RandomOk(t.mapInfo, t.vRandom)
  {
  }

  lemma SwapReorders(s: State, t: State)
    requires t == s.(mapInfo := t.mapInfo, vRandom := t.vRandom)
    requires SameButPositions(s.mapInfo, t.mapInfo) && RandomOk(t.mapInfo, t.vRandom)
    ensures Reordered(s, t)
  {
  }

  // vAddr lists the addresses of the first ids in vRandom.
  ghost predicate Picked(s: State, vAddr: seq<Address>) {
    && |vAddr| <= |s.vRandom|
    && forall k :: 0 <= k < |vAddr| ==> s.vRandom[k] in s.mapInfo && vAddr[k] == AddressOf(s.mapInfo[s.vRandom[k]])
  }

  lemma PickNone(s: State)
    requires RandomOk(s.mapInfo, s.vRandom)
    ensures Picked(s, []) && Reordered(s, s)
  {
  }

  // A swap of slot n with a later one leaves the picks so far in place, and fixes the next one.
  lemma PickNext(s: State, t: State, u: State, vAddr: seq<Address>, n: int, m: int)
    requires Reordered(s, t) && Reordered(t, u) && Picked(t, vAddr) && |vAddr| == n <= m < |t.vRandom|
    requires u.vRandom == t.vRandom[n := t.vRandom[m]][m := t.vRandom[n]]
    ensures Reordered(s, u)
    ensures u.vRandom[n] in u.mapInfo && Picked(u, vAddr + [AddressOf(u.mapInfo[u.vRandom[n]])])
  {
    forall x | x in u.mapInfo
      ensures u.mapInfo[x] == s.mapInfo[x].(randomPos := u.mapInfo[x].randomPos)
      ensures AddressOf(u.mapInfo[x]) == AddressOf(t.mapInfo[x])
    {
      assert x in t.mapInfo;
    }
    assert u.vRandom[n] in u.mapInfo;
    assert forall k :: 0 <= k < n ==> u.vRandom[k] == t.vRandom[k];
  }

  lemma ReorderInv(h: Hasher, s: State, t: State)
    requires Inv(h, s) && Reordered(s, t)
    ensures Inv(h, t) && Abs(t) == Abs(s)
  {
    ReorderParts(h, s, t);
    ReorderAbs(s, t);
  }

  lemma ReorderAbs(s: State, t: State)
    requires AddrOk(s) && Reordered(s, t)
    ensures Abs(t) == Abs(s)
  {
  }

  lemma ReorderParts(h: Hasher, s: State, t: State)
    requires Inv(h, s) && Reordered(s, t)
    ensures Inv(h, t)
  {
    FrameInv(h, s, t);
    FrameNew(s, t, NONE);
  }

  lemma GivenAway(h: Hasher, s: State, vAddr: seq<Address>)
    requires AddrOk(s) && RandomOk(s.mapInfo, s.vRandom) && Picked(s, vAddr)
    ensures forall i :: 0 <= i < |vAddr| ==>
              vAddr[i].service.ip in Abs(s)
              && var e := Abs(s)[vAddr[i].service.ip]; vAddr[i] == Address(e.service, e.services, e.nTime)
    ensures forall i, j :: 0 <= i < j < |vAddr| ==> vAddr[i].service.ip != vAddr[j].service.ip
  {
    forall i | 0 <= i < |vAddr|
      ensures vAddr[i].service.ip in Abs(s)
      ensures var e := Abs(s)[vAddr[i].service.ip]; vAddr[i] == Address(e.service, e.services, e.nTime)
    {
      var x := s.vRandom[i];
      assert x in s.mapInfo;
      assert s.mapAddr[s.mapInfo[x].service.ip] == x;
    }
    forall i, j | 0 <= i < j < |vAddr|
      ensures vAddr[i].service.ip != vAddr[j].service.ip
    {
      var x, y := s.vRandom[i], s.vRandom[j];
      assert s.mapInfo[x].randomPos == i && s.mapInfo[y].randomPos == j;
    }
  }

  lemma GoodUnknown(h: Hasher, s: State, svc: Service, time: int)
    requires !SameService(Abs(s), svc)
    ensures GoodStep(h, Abs(s), Abs(s), svc, time)
  {
  }

  lemma GoodTouch(h: Hasher, s: State, id: int, time: int)
    requires Inv(h, s) && id in s.mapInfo && 0 < time
    ensures var i := s.mapInfo[id];
            var t := s.(mapInfo := s.mapInfo[id := i.(lastSuccess := time, lastTry := time, nTime := U32(time), attempts := 0)]);
            && Inv(h, t) && i.service.ip in Abs(s)
            && Abs(t) == Abs(s)[i.service.ip := Succeeded(Abs(s)[i.service.ip], time)]
            && (i.inTried ==> GoodStep(h, Abs(s), Abs(t), i.service, time))
            && (!i.inTried ==> Buckets(s.vvNew, id) != {})
  {
    hide InvBut, Abs, U32;
    EntryFacts(h, s, id);
    var i := s.mapInfo[id];
    if !i.inTried {
      NewHasBucket(h, s, id);
    }
    TouchInv(h, s, id, i.(lastSuccess := time, lastTry := time, nTime := U32(time), attempts := 0), NONE);
  }

  lemma NewHasBucket(h: Hasher, s: State, id: int)
    requires Inv(h, s) && id in s.mapInfo && !s.mapInfo[id].inTried
    ensures Buckets(s.vvNew, id) != {}
  {
  }

  // Recording the success and then moving the entry is the step the book takes.
  lemma GoodMoved(h: Hasher, s: State, touched: State, t: State, id: int, time: int, origin: int)
    requires Inv(h, s) && id in s.mapInfo && !s.mapInfo[id].inTried && 0 <= origin < |s.vvNew| && id in s.vvNew[origin]
    requires s.mapInfo[id].service.ip in Abs(s)
    requires Abs(touched) == Abs(s)[s.mapInfo[id].service.ip := Succeeded(Abs(s)[s.mapInfo[id].service.ip], time)]
    requires MakeTriedStep(h, Abs(touched), Abs(t), s.mapInfo[id].service, origin)
    ensures GoodStep(h, Abs(s), Abs(t), s.mapInfo[id].service, time)
  {
    hide InvBut, Abs, U32;
    EntryFacts(h, s, id);
    var svc := s.mapInfo[id].service;
    var book, book1 := Abs(s), Abs(touched);
    assert ToTried(book1, svc.ip) == GoodMid(book, svc, time);
    assert InTried(h, book1, h.TriedBucket(svc)) == InTried(h, book, h.TriedBucket(svc));
    assert origin in book[svc.ip].buckets;
  }

  lemma VictimFacts(h: Hasher, s: State, id: int, shuffled: seq<int>, pos: int)
    requires Inv(h, s) && id in s.mapInfo && !s.mapInfo[id].inTried && 0 <= pos < |shuffled|
    requires |s.vvTried| == TRIED_BUCKET_COUNT
    requires multiset(shuffled) == multiset(s.vvTried[h.TriedBucket(s.mapInfo[id].service)])
    ensures shuffled[pos] in s.mapInfo && s.mapInfo[shuffled[pos]].inTried && shuffled[pos] != id
  {
    MakeTriedVictim(h, s, id, shuffled, pos);
  }

  // A known entry, under this very service, that is not tried.
  ghost predicate Unproven(s: State, svc: Service) {
    && svc.ip in s.mapAddr && s.mapAddr[svc.ip] in s.mapInfo
    && s.mapInfo[s.mapAddr[svc.ip]].service == svc && !s.mapInfo[s.mapAddr[svc.ip]].inTried
  }

  // What Good records of id beforehand has no part in who leaves the tried bucket.
  lemma EnteredTouched(h: Hasher, s: State, m: map<int, Info>, ww: seq<seq<int>>, id: int, n: seq<int>, k: int)
    requires Inv(h, s) && id in s.mapInfo && !s.mapInfo[id].inTried
    requires m.Keys == s.mapInfo.Keys && forall x :: x in m && x != id ==> m[x] == s.mapInfo[x]
    requires Entered(m, s.vvTried, ww, id, h.TriedBucket(s.mapInfo[id].service), n, k)
    ensures Entered(s.mapInfo, s.vvTried, ww, id, h.TriedBucket(s.mapInfo[id].service), n, k)
  {
    hide InvBut, Run, Shuffled, Abs, InTried;
    var t := h.TriedBucket(s.mapInfo[id].service);
    TriedFacts(h, s, t);
    forall i | 0 <= i < |s.vvTried[t]|
      ensures s.vvTried[t][i] != id
    {
      VictimFacts(h, s, id, s.vvTried[t], i);
    }
    if |s.vvTried[t]| >= TRIED_BUCKET_SIZE {
      RunSame(m, s.mapInfo, s.vvTried[t], n, k);
    }
  }

  // The book before and after an entry moved to the tried table.
  ghost predicate MakeTriedStep(h: Hasher, book: Book, post: Book, svc: Service, origin: int) {
    var t := h.TriedBucket(svc);
    && svc.ip in book
    && if |InTried(h, book, t)| < TRIED_BUCKET_SIZE then post == ToTried(book, svc.ip)
       else exists v :: && v in InTried(h, book, t) && v in ToTried(book, svc.ip)
                        && post == SendBack(h, ToTried(book, svc.ip), v, origin)
  }

  lemma BucketsPrefix(vv: seq<set<int>>, id: int, b: nat)
    requires b < |vv|
    ensures |Buckets(vv[..b + 1], id)| == |Buckets(vv[..b], id)| + (if id in vv[b] then 1 else 0)
  {
    assert Buckets(vv[..b + 1], id) == Buckets(vv[..b], id) + (if id in vv[b] then {b} else {});
  }

  lemma BucketsNone(id: int)
    ensures Buckets([], id) == {}
  {
  }

  // What MakeTried relies on.
  lemma MakeTriedFacts(h: Hasher, s: State, id: int, origin: int)
    requires Inv(h, s) && id in s.mapInfo && 0 <= origin < |s.vvNew| && id in s.vvNew[origin]
    ensures !s.mapInfo[id].inTried && s.mapInfo[id].service.ip in Abs(s)
    ensures s.mapInfo[id].refCount == |Buckets(s.vvNew, id)|
    ensures |s.vvTried| == TRIED_BUCKET_COUNT && |s.vvNew| == NEW_BUCKET_COUNT
    ensures |Cleared(s.vvNew, id)[origin]| < NEW_BUCKET_SIZE
  {
    InvParts(h, s, NONE);
    EntryFacts(h, s, id);
    BookHas(h, s, id, origin, NONE);
    assert s.vvNew[origin] == Cleared(s.vvNew, id)[origin] + {id};
  }

  lemma TriedFacts(h: Hasher, s: State, t: int)
    requires Inv(h, s) && 0 <= t < |s.vvTried|
    ensures |s.vvTried| == TRIED_BUCKET_COUNT && |InTried(h, Abs(s), t)| == |s.vvTried[t]| <= TRIED_BUCKET_SIZE
    ensures forall i :: 0 <= i < |s.vvTried[t]| ==> 0 <= s.vvTried[t][i] && s.vvTried[t][i] in s.mapInfo
  {
    hide AddrOk, RandomOk, NewOk, CountsOk, TimesOk, Abs, InTried;
    InvParts(h, s, NONE);
    TriedCard(h, s, t);
    forall i | 0 <= i < |s.vvTried[t]|
      ensures 0 <= s.vvTried[t][i] && s.vvTried[t][i] in s.mapInfo
    {
      var x := s.vvTried[t][i];
      assert x in s.vvTried[t] && 0 <= t < TRIED_BUCKET_COUNT;
      IdRange(s, x);
    }
  }

  lemma IdRange(s: State, id: int)
    requires AddrOk(s) && id in s.mapInfo
    ensures 0 <= id < s.nIdCount
  {
  }

  // The changes MakeTried makes to the entries, one by one and at once.
  lemma SwappedMap(m: map<int, Info>, id: int, out: int)
    requires id in m && out in m && id != out
    ensures var m1 := m[id := m[id].(refCount := 0)];
            m1[out := m1[out].(inTried := false, refCount := 1)][id := m1[id].(inTried := true)]
            == m[id := AsTried(m[id])][out := AsNew(m[out])]
  {
  }

  lemma MakeTriedVictim(h: Hasher, s: State, id: int, shuffled: seq<int>, pos: int)
    requires TriedOk(h, s) && id in s.mapInfo && !s.mapInfo[id].inTried && 0 <= pos < |shuffled|
    requires multiset(shuffled) == multiset(s.vvTried[h.TriedBucket(s.mapInfo[id].service)])
    ensures shuffled[pos] in s.mapInfo && s.mapInfo[shuffled[pos]].inTried && shuffled[pos] != id
  {
    var t := h.TriedBucket(s.mapInfo[id].service);
    ShuffleKeeps(s.vvTried[t], shuffled);
    var x := shuffled[pos];
    assert x in shuffled;
    assert x in s.vvTried[t] && 0 <= t < TRIED_BUCKET_COUNT;
  }

  // Where the evicted entry goes, read off the indexes and read off the book.
  lemma SentBack(h: Hasher, s: State, id: int, out: int, origin: int)
    requires Inv(h, s) && id in s.mapInfo && out in s.mapInfo && id != out && 0 <= origin < |s.vvNew| == NEW_BUCKET_COUNT
    ensures s.mapInfo[id].service.ip in Abs(s)
    ensures var a, v := s.mapInfo[id].service.ip, s.mapInfo[out].service;
            var own := h.NewBucket(v, s.mapInfo[out].source);
            && v.ip in ToTried(Abs(s), a)
            && SendBack(h, ToTried(Abs(s), a), v.ip, origin)
               == ToTried(Abs(s), a)[v.ip := ToTried(Abs(s), a)[v.ip].(tried := false,
                    buckets := {if |Cleared(s.vvNew, id)[own]| < NEW_BUCKET_SIZE then own else origin})]
  {
    hide InvBut, Abs, InBucket, ToTried, Cleared;
    var a, v := s.mapInfo[id].service.ip, s.mapInfo[out].service;
    var own := h.NewBucket(v, s.mapInfo[out].source);
    EntryFacts(h, s, id);
    EntryFacts(h, s, out);
    BookHas(h, s, id, own, NONE);
    ToTriedLeaves(Abs(s), a, own);
    ToTriedHas(Abs(s), a, v.ip);
    assert Cleared(s.vvNew, id)[own] == s.vvNew[own] - {id};
  }

  lemma ToTriedLeaves(book: Book, a: NetAddr, b: int)
    requires a in book
    ensures |InBucket(ToTried(book, a), b)| == |InBucket(book, b)| - (if b in book[a].buckets then 1 else 0)
  {
    assert InBucket(ToTried(book, a), b) == InBucket(book, b) - {a};
  }

  lemma ToTriedHas(book: Book, a: NetAddr, v: NetAddr)
    requires a in book && v in book && v != a
    ensures v in ToTried(book, a) && ToTried(book, a)[v] == book[v]
  {
  }

  // A fresh entry, counted for the bucket it is about to enter, makes the book AddMid describes.
  lemma FirstSeen(h: Hasher, s: State, i: Info, addr: Address, source: NetAddr, penalty: int, now: int)
    requires Inv(h, s) && addr.service.ip !in s.mapAddr
    requires i == FreshInfo(addr, source).(nTime := U32(Max(0, addr.nTime - penalty)), refCount := 1,
                                           randomPos := |s.vRandom|)
    ensures InvBut(h, Created(s, i), s.nIdCount) && |s.vvNew| == NEW_BUCKET_COUNT
    ensures addr.service.ip !in Abs(s) && Abs(Created(s, i)) == AddMid(Abs(s), addr, source, penalty, now)
    ensures forall b :: 0 <= b < NEW_BUCKET_COUNT ==> s.nIdCount !in s.vvNew[b]
  {
    hide U32, InvBut, Abs, RandomOk;
    CreateInv(h, s, i);
    InvParts(h, s, NONE);
    AbsKeys(h, s);
  }

  lemma AbsKeys(h: Hasher, s: State)
    requires Inv(h, s)
    ensures Abs(s).Keys == s.mapAddr.Keys
    ensures s.nIdCount !in s.mapInfo
  {
  }

  // What the book says about a known id.
  lemma EntryFacts(h: Hasher, s: State, id: int)
    requires Inv(h, s) && id in s.mapInfo
    ensures s.mapInfo[id].service.ip in Abs(s) && Abs(s)[s.mapInfo[id].service.ip] == EntryOf(s, id)
    ensures s.mapInfo[id].refCount == |Buckets(s.vvNew, id)| && 0 <= s.mapInfo[id].refCount
    ensures |s.vvNew| == NEW_BUCKET_COUNT && |s.vvTried| == TRIED_BUCKET_COUNT
    ensures s.mapAddr[s.mapInfo[id].service.ip] == id
    ensures 0 <= s.mapInfo[id].lastTry && 0 <= s.mapInfo[id].lastSuccess
    ensures s.mapInfo[id].inTried ==> s.mapInfo[id].lastSuccess != 0
  {
    assert s.mapAddr[s.mapInfo[id].service.ip] == id;
  }

  // The entry of id after the time and flags were refreshed.
  lemma Refreshed(h: Hasher, s: State, id: int, info: Info, addr: Address, source: NetAddr, penalty: int, now: int)
    requires Inv(h, s) && id in s.mapInfo && s.mapInfo[id].service.ip == addr.service.ip
    requires ToEntry(info, {}) == Refresh(ToEntry(s.mapInfo[id], {}), addr, penalty, now)
    requires info.refCount == s.mapInfo[id].refCount && info.randomPos == s.mapInfo[id].randomPos
    ensures Inv(h, s.(mapInfo := s.mapInfo[id := info]))
    ensures Abs(s.(mapInfo := s.mapInfo[id := info])) == AddMid(Abs(s), addr, source, penalty, now)
  {
    hide InvBut, Abs;
    EntryFacts(h, s, id);
    TouchInv(h, s, id, info, NONE);
  }

  lemma BookHas(h: Hasher, s: State, id: int, b: int, pending: int)
    requires InvBut(h, s, pending) && id in s.mapInfo && 0 <= b < |s.vvNew|
    ensures s.mapInfo[id].service.ip in Abs(s)
    ensures b in Abs(s)[s.mapInfo[id].service.ip].buckets <==> id in s.vvNew[b]
    ensures |InBucket(Abs(s), b)| == |s.vvNew[b]| <= NEW_BUCKET_SIZE
  {
    NewCard(s, pending, b);
  }

  lemma CountedAbs(h: Hasher, s: State, id: int)
    requires id in s.mapInfo && InvBut(h, Counted(s, id), id)
    ensures AddrOk(s) && Abs(Counted(s, id)) == Abs(s)
  {
    hide InvBut, AddrOk, Abs, Buckets;
    var t := Counted(s, id);
    AddrPart(h, t, id);
    FrameAddr(t, s);
    AbsUpdate(s, t, id);
    assert EntryOf(t, id) == EntryOf(s, id);
  }

  lemma AddrPart(h: Hasher, s: State, pending: int)
    requires InvBut(h, s, pending)
    ensures AddrOk(s)
  {
    hide AddrOk, RandomOk, NewOk, TriedOk, CountsOk, TimesOk;
  }

  // The least element not yet visited comes next.
  lemma RankNext(s: set<int>, rest: set<int>, it: int)
    requires rest <= s && it in rest && (forall y :: y in rest ==> it <= y)
    requires forall x, y :: x in s - rest && y in rest ==> x < y
    ensures Rank(s, it) == |s - rest|
    ensures s - (rest - {it}) == (s - rest) + {it} && |s - (rest - {it})| == |s - rest| + 1
    ensures forall x, y :: x in s - (rest - {it}) && y in rest - {it} ==> x < y
  {
    assert (set y | y in s && y < it) == s - rest;
    assert s - (rest - {it}) == (s - rest) + {it};
  }

  lemma {:induction false} RankOnto(s: set<int>, k: int) returns (x: int)
    requires 0 <= k < |s|
    ensures x in s && Rank(s, x) == k
    decreases k
  {
    HasLeast(s);
    var m :| m in s && forall y :: y in s ==> m <= y;
    if k == 0 {
      x := m;
      assert (set y | y in s && y < x) == {};
    } else {
      x := RankOnto(s - {m}, k - 1);
      assert (set y | y in s && y < x) == (set y | y in s - {m} && y < x) + {m};
    }
  }

  // An id of bucket b that is terrible if any id there is.
  predicate Terrible(i: Info, now: int) { IsTerrible(ToEntry(i, {}), now) }

  ghost predicate NoneTerrible(m: map<int, Info>, vNew: set<int>, now: int)
    requires vNew <= m.Keys
  {
    forall x :: x in vNew ==> !Terrible(m[x], now)
  }

  ghost predicate FirstTerrible(m: map<int, Info>, vNew: set<int>, now: int, v: int)
    requires vNew <= m.Keys
  {
    v in vNew && Terrible(m[v], now) && forall x :: x in vNew && x < v ==> !Terrible(m[x], now)
  }

  // v is the first of the least recently seen among those at places n of the bucket.
  ghost predicate OldestOf(m: map<int, Info>, vNew: set<int>, n: seq<int>, v: int)
    requires vNew <= m.Keys
  {
    && v in vNew && Rank(vNew, v) in n
    && (forall x :: x in vNew && Rank(vNew, x) in n ==> m[v].nTime <= m[x].nTime)
    && (forall x :: x in vNew && Rank(vNew, x) in n && x < v ==> m[v].nTime < m[x].nTime)
  }

  // Who makes room in a bucket, and what the source returns.
  ghost predicate Victim(m: map<int, Info>, vNew: set<int>, now: int, r: int, n: seq<int>, v: int)
    requires vNew <= m.Keys
  {
    || (r == 0 && FirstTerrible(m, vNew, now, v))
    || (r == 1 && NoneTerrible(m, vNew, now) && |n| == 4 && (forall i :: 0 <= i < 4 ==> 0 <= n[i] < |vNew|)
        && OldestOf(m, vNew, n, v))
  }

  // The result in the numbers recorded.
  lemma VictimIs(m: map<int, Info>, vNew: set<int>, now: int, r: int, n: seq<int>, v: int)
    requires vNew <= m.Keys && Victim(m, vNew, now, r, n, v)
    ensures r == if exists x :: x in vNew && var i := m[x];
                      && (i.lastTry == 0 || i.lastTry < now - 60)
                      && (|| i.nTime == 0 || i.nTime > now + 600 || i.nTime < now - 2592000
                          || (i.lastSuccess == 0 && i.attempts >= 3) || (i.lastSuccess < now - 604800 && i.attempts >= 10))
                 then 0 else 1
  {
    hide OldestOf;
    forall x | x in vNew
      ensures var i := m[x];
              Terrible(i, now) <==>
                && (i.lastTry == 0 || i.lastTry < now - 60)
                && (|| i.nTime == 0 || i.nTime > now + 600 || i.nTime < now - 2592000
                    || (i.lastSuccess == 0 && i.attempts >= 3) || (i.lastSuccess < now - 604800 && i.attempts >= 10))
    {
      TerribleIs(ToEntry(m[x], {}), now);
    }
  }

  lemma VictimDroppable(s: State, v: int, b: int, now: int, r: int, n: seq<int>)
    requires AddrOk(s) && 0 <= b < |s.vvNew| && s.vvNew[b] <= s.mapInfo.Keys && Victim(s.mapInfo, s.vvNew[b], now, r, n, v)
    ensures v in s.vvNew[b] && Droppable(Abs(s), s.mapInfo[v].service.ip, b, now)
  {
    hide AddrOk, Abs, Droppable, IsTerrible, Rank;
    DroppableId(s, v, b, now);
  }

  lemma DroppableId(s: State, id: int, b: int, now: int)
    requires AddrOk(s) && 0 <= b < |s.vvNew| && id in s.vvNew[b] && s.vvNew[b] <= s.mapInfo.Keys
    requires NoneTerrible(s.mapInfo, s.vvNew[b], now) || Terrible(s.mapInfo[id], now)
    ensures Droppable(Abs(s), s.mapInfo[id].service.ip, b, now)
  {
    var v := s.mapInfo[id].service.ip;
    assert v in InBucket(Abs(s), b) && Abs(s)[v] == ToEntry(s.mapInfo[id], Buckets(s.vvNew, id));
    forall w | w in InBucket(Abs(s), b) && IsTerrible(Abs(s)[w], now)
      ensures IsTerrible(Abs(s)[v], now)
    {
      var x := s.mapAddr[w];
      assert x in s.vvNew[b] && Terrible(s.mapInfo[x], now);
    }
  }
}
