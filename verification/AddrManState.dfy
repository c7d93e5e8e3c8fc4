/** The five redundant indexes of the address manager as one value, what it means for them to
    agree, and the book (AddrBook.dfy) they stand for. */
module AddrManState {
  import opened AddrBook

  datatype Info = Info(service: Service, services: bv64, nTime: int, source: NetAddr, lastSuccess: int, lastTry: int,
                       attempts: int, refCount: int, inTried: bool, randomPos: int)

  datatype State = State(nIdCount: int, mapInfo: map<int, Info>, mapAddr: map<NetAddr, int>, vRandom: seq<int>,
                         nTried: int, vvTried: seq<seq<int>>, nNew: int, vvNew: seq<set<int>>)

  // The new buckets holding id.
  function Buckets(vvNew: seq<set<int>>, id: int): set<int> {
    set b | 0 <= b < |vvNew| && id in vvNew[b]
  }

  function NewIds(m: map<int, Info>): set<int> { set id | id in m && !m[id].inTried }

  function TriedIds(m: map<int, Info>): set<int> { set id | id in m && m[id].inTried }

  function Elems(xs: seq<int>): set<int> { set x | x in xs }

  ghost predicate NoDup<T>(xs: seq<T>) {
    forall i, j :: 0 <= i < j < |xs| ==> xs[i] != xs[j]
  }

  // mapAddr finds every id by its address.
  ghost predicate AddrOk(s: State) {
    && 0 <= s.nIdCount
    && (forall id :: id in s.mapInfo ==> 0 <= id < s.nIdCount)
    && (forall id :: id in s.mapInfo ==> s.mapInfo[id].service.ip in s.mapAddr && s.mapAddr[s.mapInfo[id].service.ip] == id)
    && (forall a :: a in s.mapAddr ==> s.mapAddr[a] in s.mapInfo && s.mapInfo[s.mapAddr[a]].service.ip == a)
  }

  // vRandom is a permutation of the ids, and randomPos is its inverse.
  ghost predicate RandomOk(m: map<int, Info>, vRandom: seq<int>) {
    && (forall id :: id in m ==> 0 <= m[id].randomPos < |vRandom| && vRandom[m[id].randomPos] == id)
    && (forall i :: 0 <= i < |vRandom| ==> vRandom[i] in m && m[vRandom[i]].randomPos == i)
  }

  // The new buckets hold new ids only, refCount counts them; pending is counted once ahead of its insertion.
  ghost predicate NewOk(s: State, pending: int) {
    && |s.vvNew| == NEW_BUCKET_COUNT
    && (forall b :: 0 <= b < NEW_BUCKET_COUNT ==> |s.vvNew[b]| <= NEW_BUCKET_SIZE)
    && (forall b, id :: 0 <= b < NEW_BUCKET_COUNT && id in s.vvNew[b] ==> id in s.mapInfo && !s.mapInfo[id].inTried)
    && (forall id :: id in s.mapInfo ==>
                       s.mapInfo[id].refCount == |Buckets(s.vvNew, id)| + (if id == pending then 1 else 0))
    && (forall id :: id in s.mapInfo && !s.mapInfo[id].inTried ==> 1 <= s.mapInfo[id].refCount <= NEW_BUCKETS_PER_ADDRESS)
    && (forall id :: id in s.mapInfo && s.mapInfo[id].inTried ==> s.mapInfo[id].refCount == 0)
  }

  // Every tried id sits exactly once, in the bucket its hash names.
  ghost predicate TriedOk(h: Hasher, s: State) {
    && |s.vvTried| == TRIED_BUCKET_COUNT
    && (forall b :: 0 <= b < TRIED_BUCKET_COUNT ==> |s.vvTried[b]| <= TRIED_BUCKET_SIZE && NoDup(s.vvTried[b]))
    && (forall b, id :: 0 <= b < TRIED_BUCKET_COUNT && id in s.vvTried[b] ==>
                          id in s.mapInfo && s.mapInfo[id].inTried && h.TriedBucket(s.mapInfo[id].service) == b)
    && (forall id :: id in s.mapInfo && s.mapInfo[id].inTried ==> id in s.vvTried[h.TriedBucket(s.mapInfo[id].service)])
  }

  ghost predicate CountsOk(s: State) {
    s.nNew == |NewIds(s.mapInfo)| && s.nTried == |TriedIds(s.mapInfo)|
  }

  ghost predicate TimesOk(s: State) {
    forall id :: id in s.mapInfo ==>
                   && 0 <= s.mapInfo[id].lastTry && 0 <= s.mapInfo[id].lastSuccess
                   && (s.mapInfo[id].inTried ==> s.mapInfo[id].lastSuccess != 0)
  }

  ghost predicate InvBut(h: Hasher, s: State, pending: int) {
    AddrOk(s) && RandomOk(s.mapInfo, s.vRandom) && NewOk(s, pending) && TriedOk(h, s) && CountsOk(s) && TimesOk(s)
  }

  const NONE := -1

  // All indexes agree.
  ghost predicate Inv(h: Hasher, s: State) { InvBut(h, s, NONE) }

  // The parts of the invariant a method needs at hand.
  lemma InvParts(h: Hasher, s: State, pending: int)
    requires InvBut(h, s, pending)
    ensures AddrOk(s) && RandomOk(s.mapInfo, s.vRandom) && |s.vvNew| == NEW_BUCKET_COUNT
    ensures |s.vvTried| == TRIED_BUCKET_COUNT && NONE !in s.mapInfo && s.nIdCount !in s.mapInfo && 0 <= s.nIdCount
    ensures forall b, id :: 0 <= b < NEW_BUCKET_COUNT && id in s.vvNew[b] ==> id in s.mapInfo && !s.mapInfo[id].inTried
  {
  }

  lemma IdParts(h: Hasher, s: State, pending: int, id: int)
    requires InvBut(h, s, pending) && id in s.mapInfo
    ensures 0 <= s.mapInfo[id].lastTry && 0 <= s.mapInfo[id].lastSuccess
    ensures s.mapInfo[id].inTried ==> s.mapInfo[id].lastSuccess != 0
    ensures s.mapInfo[id].refCount == |Buckets(s.vvNew, id)| + (if id == pending then 1 else 0)
    ensures if s.mapInfo[id].inTried then s.mapInfo[id].refCount == 0
            else 1 <= s.mapInfo[id].refCount <= NEW_BUCKETS_PER_ADDRESS
  {
    hide AddrOk, RandomOk, TriedOk, CountsOk;
  }

  // ---------- the book the indexes stand for ----------

  function ToEntry(i: Info, buckets: set<int>): Entry {
    Entry(i.service, i.services, i.nTime, i.source, i.lastSuccess, i.lastTry, i.attempts, i.inTried, buckets)
  }

  function Abs(s: State): Book {
    map a | a in s.mapAddr && s.mapAddr[a] in s.mapInfo :: ToEntry(s.mapInfo[s.mapAddr[a]], Buckets(s.vvNew, s.mapAddr[a]))
  }

  lemma {:induction false} ImageCard(xs: set<int>, m: map<int, Info>)
    requires forall x :: x in xs ==> x in m
    requires forall x, y :: x in xs && y in xs && m[x].service.ip == m[y].service.ip ==> x == y
    ensures |set x | x in xs :: m[x].service.ip| == |xs|
  {
    var image := set x | x in xs :: m[x].service.ip;
    if xs == {} {
      assert image == {};
    } else {
      var x := Member(xs);
      ImageCard(xs - {x}, m);
      assert image == (set y | y in xs - {x} :: m[y].service.ip) + {m[x].service.ip};
    }
  }

  lemma {:induction false} ElemsCard(xs: seq<int>)
    requires NoDup(xs)
    ensures |Elems(xs)| == |xs|
  {
    if xs != [] {
      var rest := xs[..|xs| - 1];
      ElemsCard(rest);
      assert xs == rest + [xs[|xs| - 1]];
      assert Elems(xs) == Elems(rest) + {xs[|xs| - 1]};
    }
  }

  // Bucket sizes read off the indexes are those of the book.
  lemma NewCard(s: State, pending: int, b: int)
    requires AddrOk(s) && NewOk(s, pending) && 0 <= b < NEW_BUCKET_COUNT
    ensures |InBucket(Abs(s), b)| == |s.vvNew[b]|
  {
    ImageCard(s.vvNew[b], s.mapInfo);
    assert InBucket(Abs(s), b) == set x | x in s.vvNew[b] :: s.mapInfo[x].service.ip;
  }

  lemma TriedCard(h: Hasher, s: State, b: int)
    requires AddrOk(s) && TriedOk(h, s) && 0 <= b < TRIED_BUCKET_COUNT
    ensures |InTried(h, Abs(s), b)| == |s.vvTried[b]|
  {
    ElemsCard(s.vvTried[b]);
    ImageCard(Elems(s.vvTried[b]), s.mapInfo);
    assert InTried(h, Abs(s), b) == set x | x in Elems(s.vvTried[b]) :: s.mapInfo[x].service.ip;
  }

  lemma AbsEntries(h: Hasher, s: State, a: NetAddr)
    requires AddrOk(s) && NewOk(s, NONE) && TimesOk(s) && a in Abs(s)
    ensures EntryOk(a, Abs(s)[a])
  {
    var id := s.mapAddr[a];
    assert id in s.mapInfo && s.mapInfo[id].service.ip == a;
  }

  lemma AbsCaps(h: Hasher, s: State)
    requires AddrOk(s) && NewOk(s, NONE) && TriedOk(h, s)
    ensures Caps(h, Abs(s))
  {
    var book := Abs(s);
    forall b
      ensures |InBucket(book, b)| <= NEW_BUCKET_SIZE
    {
      if 0 <= b < NEW_BUCKET_COUNT { NewCard(s, NONE, b); } else { assert InBucket(book, b) == {}; }
    }
    forall b
      ensures |InTried(h, book, b)| <= TRIED_BUCKET_SIZE
    {
      if 0 <= b < TRIED_BUCKET_COUNT { TriedCard(h, s, b); } else { assert InTried(h, book, b) == {}; }
    }
  }

  lemma BookSize(s: State)
    requires AddrOk(s)
    ensures |Abs(s)| == |s.mapInfo|
  {
    ImageCard(s.mapInfo.Keys, s.mapInfo);
    assert Abs(s).Keys == set x | x in s.mapInfo.Keys :: s.mapInfo[x].service.ip;
  }

  lemma RandomSize(m: map<int, Info>, vRandom: seq<int>)
    requires RandomOk(m, vRandom)
    ensures |vRandom| == |m|
  {
    forall i, j | 0 <= i < j < |vRandom|
      ensures vRandom[i] != vRandom[j]
    {
      assert m[vRandom[i]].randomPos == i && m[vRandom[j]].randomPos == j;
    }
    ElemsCard(vRandom);
    forall id | id in m.Keys
      ensures id in Elems(vRandom)
    {
      assert vRandom[m[id].randomPos] == id;
    }
    assert Elems(vRandom) == m.Keys;
  }

  lemma CountSize(m: map<int, Info>)
    ensures |m| == |NewIds(m)| + |TriedIds(m)|
  {
    assert m.Keys == NewIds(m) + TriedIds(m);
    assert |NewIds(m) + TriedIds(m)| == |NewIds(m)| + |TriedIds(m)| - |NewIds(m) * TriedIds(m)|;
    assert NewIds(m) * TriedIds(m) == {};
  }

  // The indexes describe a book that satisfies the abstract invariant, and the counters count it.
  lemma AbsInv(h: Hasher, s: State)
    requires Inv(h, s)
    ensures BookInv(h, Abs(s))
    ensures |Abs(s)| == |s.mapInfo| == |s.vRandom| == s.nNew + s.nTried <= 20480
  {
    forall a | a in Abs(s)
      ensures EntryOk(a, Abs(s)[a])
    {
      AbsEntries(h, s, a);
    }
    AbsCaps(h, s);
    BookSize(s);
    RandomSize(s.mapInfo, s.vRandom);
    CountSize(s.mapInfo);
    SizeBound(h, Abs(s));
  }

  // ---------- what a change must respect, index by index ----------

  // The same ids, with the same addresses and in the same tables.
  ghost predicate SamePlaces(m: map<int, Info>, post: map<int, Info>) {
    && post.Keys == m.Keys
    && forall id :: id in m ==> post[id].service == m[id].service && post[id].inTried == m[id].inTried
  }

  lemma FrameAddr(s: State, t: State)
    requires AddrOk(s) && t.mapAddr == s.mapAddr && t.nIdCount == s.nIdCount && t.mapInfo.Keys == s.mapInfo.Keys
    requires forall id :: id in s.mapInfo ==> t.mapInfo[id].service == s.mapInfo[id].service
    ensures AddrOk(t)
  {
  }

  lemma FrameTried(h: Hasher, s: State, t: State)
    requires TriedOk(h, s) && SamePlaces(s.mapInfo, t.mapInfo) && t.vvTried == s.vvTried
    ensures TriedOk(h, t)
  {
  }

  lemma FrameCounts(s: State, t: State)
    requires CountsOk(s) && SamePlaces(s.mapInfo, t.mapInfo) && t.nNew == s.nNew && t.nTried == s.nTried
    ensures CountsOk(t)
  {
    forall id
      ensures id in NewIds(t.mapInfo) <==> id in NewIds(s.mapInfo)
      ensures id in TriedIds(t.mapInfo) <==> id in TriedIds(s.mapInfo)
    {
      assert id in t.mapInfo.Keys <==> id in s.mapInfo.Keys;
    }
    assert NewIds(t.mapInfo) == NewIds(s.mapInfo) && TriedIds(t.mapInfo) == TriedIds(s.mapInfo);
  }

  lemma FrameNew(s: State, t: State, pending: int)
    requires NewOk(s, pending) && SamePlaces(s.mapInfo, t.mapInfo) && t.vvNew == s.vvNew
    requires forall id :: id in s.mapInfo ==> t.mapInfo[id].refCount == s.mapInfo[id].refCount
    ensures NewOk(t, pending)
  {
  }

  lemma FrameTimes(s: State, t: State, id: int, i: Info)
    requires TimesOk(s) && t.mapInfo == s.mapInfo[id := i] && 0 <= i.lastTry && 0 <= i.lastSuccess
    requires i.inTried ==> i.lastSuccess != 0
    ensures TimesOk(t)
  {
  }

  // Nothing but recorded statistics and reference counts changes.
  lemma FrameInv(h: Hasher, s: State, t: State)
    requires AddrOk(s) && TriedOk(h, s) && CountsOk(s) && SamePlaces(s.mapInfo, t.mapInfo)
    requires t.mapAddr == s.mapAddr && t.nIdCount == s.nIdCount && t.vvTried == s.vvTried
    requires t.nNew == s.nNew && t.nTried == s.nTried
    ensures AddrOk(t) && TriedOk(h, t) && CountsOk(t)
  {
    hide AddrOk, RandomOk, NewOk, TriedOk, CountsOk, TimesOk, Abs;
    FrameAddr(s, t);
    FrameTried(h, s, t);
    FrameCounts(s, t);
  }

  lemma FrameRandom(m: map<int, Info>, vRandom: seq<int>, id: int, i: Info)
    requires RandomOk(m, vRandom) && id in m && i.randomPos == m[id].randomPos
    ensures RandomOk(m[id := i], vRandom)
  {
  }

  // What the book says about an id.
  function EntryOf(s: State, id: int): Entry
    requires id in s.mapInfo
  {
    ToEntry(s.mapInfo[id], Buckets(s.vvNew, id))
  }

  lemma BookEntry(s: State, id: int)
    requires AddrOk(s) && id in s.mapInfo
    ensures s.mapInfo[id].service.ip in Abs(s) && Abs(s)[s.mapInfo[id].service.ip] == EntryOf(s, id)
  {
    assert s.mapAddr[s.mapInfo[id].service.ip] == id;
  }

  lemma AbsAt(s: State, a: NetAddr)
    requires AddrOk(s) && a in Abs(s)
    ensures a in s.mapAddr && s.mapAddr[a] in s.mapInfo && s.mapInfo[s.mapAddr[a]].service.ip == a
    ensures Abs(s)[a] == EntryOf(s, s.mapAddr[a])
  {
  }

  // The book changes at one address only.
  lemma AbsUpdate(s: State, t: State, id: int)
    requires AddrOk(s) && AddrOk(t) && id in t.mapInfo
    requires t.mapInfo.Keys == s.mapInfo.Keys + {id}
    requires forall x :: x in s.mapInfo && x != id ==> EntryOf(t, x) == EntryOf(s, x)
    requires id in s.mapInfo ==> s.mapInfo[id].service.ip == t.mapInfo[id].service.ip
    ensures Abs(t) == Abs(s)[t.mapInfo[id].service.ip := EntryOf(t, id)]
    ensures id in s.mapInfo ==> s.mapInfo[id].service.ip in Abs(s) && Abs(s)[s.mapInfo[id].service.ip] == EntryOf(s, id)
  {
    hide AddrOk, Abs, Buckets;
    var a := t.mapInfo[id].service.ip;
    var post := Abs(s)[a := EntryOf(t, id)];
    BookEntry(t, id);
    if id in s.mapInfo {
      BookEntry(s, id);
    }
    forall x
      ensures x in Abs(t) <==> x in post
      ensures x in Abs(t) ==> Abs(t)[x] == post[x]
    {
      if x != a {
        if x in Abs(t) {
          AbsAt(t, x);
          BookEntry(s, t.mapAddr[x]);
        }
        if x in Abs(s) {
          AbsAt(s, x);
          BookEntry(t, s.mapAddr[x]);
        }
      }
    }
  }

  // ---------- one lemma per elementary change ----------

  // Recording times, flags or attempts moves nothing.
  lemma TouchInv(h: Hasher, s: State, id: int, i: Info, pending: int)
    requires InvBut(h, s, pending) && id in s.mapInfo && 0 <= i.lastTry && 0 <= i.lastSuccess
    requires i.inTried ==> i.lastSuccess != 0
    requires i == s.mapInfo[id].(services := i.services, nTime := i.nTime, lastSuccess := i.lastSuccess,
                                 lastTry := i.lastTry, attempts := i.attempts)
    ensures InvBut(h, s.(mapInfo := s.mapInfo[id := i]), pending)
    ensures Abs(s.(mapInfo := s.mapInfo[id := i])) == Abs(s)[i.service.ip := ToEntry(i, Buckets(s.vvNew, id))]
  {
    hide AddrOk, RandomOk, NewOk, TriedOk, CountsOk, TimesOk, Abs;
    var t := s.(mapInfo := s.mapInfo[id := i]);
    FrameInv(h, s, t);
    FrameRandom(s.mapInfo, s.vRandom, id, i);
    FrameNew(s, t, pending);
    FrameTimes(s, t, id, i);
    AbsUpdate(s, t, id);
  }

  // The state right after a fresh id was created and counted for the bucket it is about to enter.
  function Created(s: State, i: Info): State {
    s.(nIdCount := s.nIdCount + 1, mapInfo := s.mapInfo[s.nIdCount := i],
       mapAddr := s.mapAddr[i.service.ip := s.nIdCount], vRandom := s.vRandom + [s.nIdCount], nNew := s.nNew + 1)
  }

  lemma CreatedAddr(s: State, i: Info)
    requires AddrOk(s) && i.service.ip !in s.mapAddr
    ensures AddrOk(Created(s, i)) && s.nIdCount !in s.mapInfo
  {
  }

  lemma CreatedRandom(m: map<int, Info>, vRandom: seq<int>, n: int, i: Info)
    requires RandomOk(m, vRandom) && n !in m && i.randomPos == |vRandom|
    ensures RandomOk(m[n := i], vRandom + [n])
  {
  }

  lemma CreatedNew(s: State, i: Info)
    requires NewOk(s, NONE) && NONE !in s.mapInfo && s.nIdCount !in s.mapInfo && i.refCount == 1 && !i.inTried && 0 <= s.nIdCount
    ensures NewOk(Created(s, i), s.nIdCount) && Buckets(s.vvNew, s.nIdCount) == {}
  {
    assert Buckets(s.vvNew, s.nIdCount) == {};
  }

  lemma CreatedTried(h: Hasher, s: State, i: Info)
    requires TriedOk(h, s) && s.nIdCount !in s.mapInfo && !i.inTried
    ensures TriedOk(h, Created(s, i))
  {
  }

  lemma CreatedCounts(s: State, i: Info)
    requires CountsOk(s) && s.nIdCount !in s.mapInfo && !i.inTried
    ensures CountsOk(Created(s, i))
  {
    var m := Created(s, i).mapInfo;
    assert NewIds(m) == NewIds(s.mapInfo) + {s.nIdCount} && TriedIds(m) == TriedIds(s.mapInfo);
  }

  lemma CreateInv(h: Hasher, s: State, i: Info)
    requires Inv(h, s) && i.service.ip !in s.mapAddr
    requires i.refCount == 1 && !i.inTried && i.randomPos == |s.vRandom| && i.lastTry == 0 && i.lastSuccess == 0
    ensures InvBut(h, Created(s, i), s.nIdCount)
    ensures Abs(Created(s, i)) == Abs(s)[i.service.ip := ToEntry(i, {})]
  {
    hide AddrOk, RandomOk, NewOk, TriedOk, CountsOk, TimesOk, Abs;
    InvParts(h, s, NONE);
    CreatedAddr(s, i);
    CreatedRandom(s.mapInfo, s.vRandom, s.nIdCount, i);
    CreatedNew(s, i);
    CreatedTried(h, s, i);
    CreatedCounts(s, i);
    FrameTimes(s, Created(s, i), s.nIdCount, i);
    AbsUpdate(s, Created(s, i), s.nIdCount);
  }

  // refCount is stepped for id, ahead of its insertion.
  function Counted(s: State, id: int): State
    requires id in s.mapInfo
  {
    s.(mapInfo := s.mapInfo[id := s.mapInfo[id].(refCount := s.mapInfo[id].refCount + 1)])
  }

  lemma CountedNew(s: State, id: int)
    requires NewOk(s, NONE) && NONE !in s.mapInfo && id in s.mapInfo && !s.mapInfo[id].inTried
    requires s.mapInfo[id].refCount != NEW_BUCKETS_PER_ADDRESS
    ensures NewOk(Counted(s, id), id)
  {
  }

  lemma CountInv(h: Hasher, s: State, id: int)
    requires Inv(h, s) && id in s.mapInfo && !s.mapInfo[id].inTried
    requires s.mapInfo[id].refCount != NEW_BUCKETS_PER_ADDRESS
    ensures InvBut(h, Counted(s, id), id) && Abs(Counted(s, id)) == Abs(s)
  {
    hide AddrOk, RandomOk, NewOk, TriedOk, CountsOk, TimesOk, Abs;
    InvParts(h, s, NONE);
    IdParts(h, s, NONE, id);
    var t := Counted(s, id);
    CountedNew(s, id);
    FrameInv(h, s, t);
    FrameRandom(s.mapInfo, s.vRandom, id, t.mapInfo[id]);
    FrameTimes(s, t, id, t.mapInfo[id]);
    AbsUpdate(s, t, id);
    assert EntryOf(t, id) == EntryOf(s, id);
  }

  lemma BucketsInsert(vv: seq<set<int>>, id: int, b: int, x: int)
    requires 0 <= b < |vv|
    ensures Buckets(vv[b := vv[b] + {id}], x) == Buckets(vv, x) + (if x == id then {b} else {})
  {
  }

  lemma BucketsRemove(vv: seq<set<int>>, id: int, b: int, x: int)
    requires 0 <= b < |vv|
    ensures Buckets(vv[b := vv[b] - {id}], x) == Buckets(vv, x) - (if x == id then {b} else {})
  {
  }

  function Inserted(s: State, id: int, b: int): State
    requires 0 <= b < |s.vvNew|
  {
    s.(vvNew := s.vvNew[b := s.vvNew[b] + {id}])
  }

  lemma InsertedNew(s: State, id: int, b: int)
    requires NewOk(s, id) && NONE !in s.mapInfo && id in s.mapInfo && !s.mapInfo[id].inTried
    requires 0 <= b < NEW_BUCKET_COUNT && id !in s.vvNew[b] && |s.vvNew[b]| < NEW_BUCKET_SIZE
    ensures NewOk(Inserted(s, id, b), NONE)
  {
    var t := Inserted(s, id, b);
    forall x | x in t.mapInfo
      ensures t.mapInfo[x].refCount == |Buckets(t.vvNew, x)|
    {
      BucketsInsert(s.vvNew, id, b, x);
      assert b !in Buckets(s.vvNew, id);
    }
  }

  lemma InsertedAbs(s: State, id: int, b: int)
    requires id in s.mapInfo && 0 <= b < |s.vvNew| && AddrOk(s) && AddrOk(Inserted(s, id, b))
    ensures s.mapInfo[id].service.ip in Abs(s) && Abs(Inserted(s, id, b)) == Put(Abs(s), s.mapInfo[id].service.ip, b)
  {
    hide AddrOk, Abs, Buckets;
    var t := Inserted(s, id, b);
    forall x | x in s.mapInfo
      ensures EntryOf(t, x).buckets == EntryOf(s, x).buckets + (if x == id then {b} else {})
    {
      BucketsInsert(s.vvNew, id, b, x);
    }
    AbsUpdate(s, t, id);
  }

  lemma SameTimes(s: State, t: State)
    requires TimesOk(s) && t.mapInfo == s.mapInfo
    ensures TimesOk(t)
  {
  }

  // The pending id enters bucket b.
  lemma InsertInv(h: Hasher, s: State, id: int, b: int)
    requires InvBut(h, s, id) && id in s.mapInfo && !s.mapInfo[id].inTried
    requires 0 <= b < NEW_BUCKET_COUNT && id !in s.vvNew[b] && |s.vvNew[b]| < NEW_BUCKET_SIZE
    ensures Inv(h, Inserted(s, id, b))
    ensures s.mapInfo[id].service.ip in Abs(s) && Abs(Inserted(s, id, b)) == Put(Abs(s), s.mapInfo[id].service.ip, b)
  {
    hide AddrOk, RandomOk, NewOk, TriedOk, CountsOk, TimesOk, Abs, Put;
    InvParts(h, s, id);
    var t := Inserted(s, id, b);
    InsertedNew(s, id, b);
    FrameInv(h, s, t);
    SameTimes(s, t);
    InsertedAbs(s, id, b);
  }

  function Left(s: State, id: int, b: int): State
    requires 0 <= b < |s.vvNew| && id in s.mapInfo
  {
    s.(vvNew := s.vvNew[b := s.vvNew[b] - {id}],
       mapInfo := s.mapInfo[id := s.mapInfo[id].(refCount := s.mapInfo[id].refCount - 1)])
  }

  lemma LeftNew(s: State, id: int, b: int, pending: int)
    requires NewOk(s, pending) && 0 <= b < NEW_BUCKET_COUNT && id in s.vvNew[b] && id != pending
    requires s.mapInfo[id].refCount != 1
    ensures NewOk(Left(s, id, b), pending)
  {
    var t := Left(s, id, b);
    forall x | x in t.mapInfo
      ensures t.mapInfo[x].refCount == |Buckets(t.vvNew, x)| + (if x == pending then 1 else 0)
    {
      BucketsRemove(s.vvNew, id, b, x);
      assert b in Buckets(s.vvNew, id);
    }
  }

  lemma LeftAbs(s: State, id: int, b: int)
    requires 0 <= b < |s.vvNew| && id in s.mapInfo && AddrOk(s) && AddrOk(Left(s, id, b)) && Buckets(s.vvNew, id) != {b}
    ensures s.mapInfo[id].service.ip in Abs(s) && Abs(Left(s, id, b)) == Drop(Abs(s), s.mapInfo[id].service.ip, b)
  {
    hide AddrOk, Abs, Buckets;
    var t := Left(s, id, b);
    forall x | x in s.mapInfo
      ensures EntryOf(t, x).buckets == EntryOf(s, x).buckets - (if x == id then {b} else {})
    {
      BucketsRemove(s.vvNew, id, b, x);
    }
    AbsUpdate(s, t, id);
  }

  // id leaves bucket b but stays in another one.
  lemma LeaveInv(h: Hasher, s: State, id: int, b: int, pending: int)
    requires InvBut(h, s, pending) && 0 <= b < NEW_BUCKET_COUNT && id in s.vvNew[b] && id != pending
    requires s.mapInfo[id].refCount != 1
    ensures InvBut(h, Left(s, id, b), pending)
    ensures s.mapInfo[id].service.ip in Abs(s) && Abs(Left(s, id, b)) == Drop(Abs(s), s.mapInfo[id].service.ip, b)
  {
    hide AddrOk, RandomOk, NewOk, TriedOk, CountsOk, TimesOk, Abs, Buckets, Drop;
    InvParts(h, s, pending);
    IdParts(h, s, pending, id);
    var t := Left(s, id, b);
    LeftNew(s, id, b, pending);
    FrameInv(h, s, t);
    FrameRandom(s.mapInfo, s.vRandom, id, t.mapInfo[id]);
    FrameTimes(s, t, id, t.mapInfo[id]);
    assert |Buckets(s.vvNew, id)| != |{b}|;
    LeftAbs(s, id, b);
  }

  // Only the positions recorded in vRandom differ.
  ghost predicate SameButPositions(m: map<int, Info>, post: map<int, Info>) {
    && post.Keys == m.Keys
    && forall x :: x in post ==> post[x] == m[x].(randomPos := post[x].randomPos)
  }

  // t is s with id deleted: its last new bucket was b, and vRandom was closed up in some order.
  ghost predicate Deleted(s: State, t: State, id: int, b: int)
    requires 0 <= b < |s.vvNew| && id in s.mapInfo
  {
    && t == s.(mapInfo := t.mapInfo, vRandom := t.vRandom, vvNew := s.vvNew[b := s.vvNew[b] - {id}],
               mapAddr := s.mapAddr - {s.mapInfo[id].service.ip}, nNew := s.nNew - 1)
    && SameButPositions(s.mapInfo - {id}, t.mapInfo)
    && RandomOk(t.mapInfo, t.vRandom)
  }

  lemma DeletedAddr(s: State, t: State, id: int, b: int)
    requires AddrOk(s) && 0 <= b < |s.vvNew| && id in s.mapInfo && Deleted(s, t, id, b)
    ensures AddrOk(t)
  {
  }

  lemma OnlyBucket(s: State, id: int, b: int, pending: int)
    requires NewOk(s, pending) && 0 <= b < NEW_BUCKET_COUNT && id in s.vvNew[b] && id != pending
    requires s.mapInfo[id].refCount == 1
    ensures Buckets(s.vvNew, id) == {b}
    ensures forall c :: 0 <= c < NEW_BUCKET_COUNT && id in s.vvNew[c] ==> c == b
  {
    var bs := Buckets(s.vvNew, id);
    assert b in bs && |bs| == 1;
    assert bs == (bs - {b}) + {b};
    assert bs == {b};
    forall c | 0 <= c < NEW_BUCKET_COUNT && id in s.vvNew[c]
      ensures c == b
    {
      assert c in bs;
    }
  }

  lemma DeletedNew(s: State, t: State, id: int, b: int, pending: int)
    requires NewOk(s, pending) && 0 <= b < NEW_BUCKET_COUNT && id in s.vvNew[b] && id != pending
    requires s.mapInfo[id].refCount == 1 && Deleted(s, t, id, b)
    ensures NewOk(t, pending)
  {
    OnlyBucket(s, id, b, pending);
    forall x | x in t.mapInfo
      ensures t.mapInfo[x].refCount == |Buckets(t.vvNew, x)| + (if x == pending then 1 else 0)
    {
      BucketsRemove(s.vvNew, id, b, x);
      assert Buckets(t.vvNew, x) == Buckets(s.vvNew, x);
    }
  }

  lemma DeletedTried(h: Hasher, s: State, t: State, id: int, b: int)
    requires TriedOk(h, s) && 0 <= b < |s.vvNew| && id in s.mapInfo && !s.mapInfo[id].inTried && Deleted(s, t, id, b)
    ensures TriedOk(h, t)
  {
  }

  lemma DeletedCounts(s: State, t: State, id: int, b: int)
    requires CountsOk(s) && 0 <= b < |s.vvNew| && id in s.mapInfo && !s.mapInfo[id].inTried && Deleted(s, t, id, b)
    ensures CountsOk(t)
  {
    forall x
      ensures x in NewIds(t.mapInfo) <==> x in NewIds(s.mapInfo) - {id}
      ensures x in TriedIds(t.mapInfo) <==> x in TriedIds(s.mapInfo)
    {
      assert x in t.mapInfo.Keys <==> x in s.mapInfo.Keys - {id};
    }
    assert NewIds(t.mapInfo) == NewIds(s.mapInfo) - {id} && TriedIds(t.mapInfo) == TriedIds(s.mapInfo);
  }

  lemma DeletedAbs(s: State, t: State, id: int, b: int)
    requires AddrOk(s) && AddrOk(t) && 0 <= b < |s.vvNew| && id in s.mapInfo && Deleted(s, t, id, b)
    ensures Abs(t) == Abs(s) - {s.mapInfo[id].service.ip}
  {
    hide AddrOk, Abs, Buckets;
    var a := s.mapInfo[id].service.ip;
    var post := Abs(s) - {a};
    BookEntry(s, id);
    forall x
      ensures x in Abs(t) <==> x in post
      ensures x in Abs(t) ==> Abs(t)[x] == post[x]
    {
      if x in Abs(t) {
        AbsAt(t, x);
        BookEntry(s, t.mapAddr[x]);
        BucketsRemove(s.vvNew, id, b, t.mapAddr[x]);
      }
      if x in post {
        AbsAt(s, x);
        BookEntry(t, s.mapAddr[x]);
      }
    }
  }

  // id leaves its last bucket and is deleted from every index.
  lemma DeleteInv(h: Hasher, s: State, t: State, id: int, b: int, pending: int)
    requires InvBut(h, s, pending) && 0 <= b < NEW_BUCKET_COUNT && id in s.vvNew[b] && id != pending
    requires s.mapInfo[id].refCount == 1 && Deleted(s, t, id, b)
    ensures InvBut(h, t, pending)
    ensures s.mapInfo[id].service.ip in Abs(s) && Abs(t) == Drop(Abs(s), s.mapInfo[id].service.ip, b)
  {
    hide AddrOk, RandomOk, NewOk, TriedOk, CountsOk, Abs;
    InvParts(h, s, pending);
    BookEntry(s, id);
    OnlyBucket(s, id, b, pending);
    DeletedAddr(s, t, id, b);
    DeletedNew(s, t, id, b, pending);
    DeletedTried(h, s, t, id, b);
    DeletedCounts(s, t, id, b);
    DeletedAbs(s, t, id, b);
  }

  // ---------- from the new table to the tried table ----------

  // id taken out of every new bucket.
  function Cleared(vv: seq<set<int>>, id: int): (r: seq<set<int>>)
    ensures |r| == |vv| && forall b :: 0 <= b < |vv| ==> r[b] == vv[b] - {id}
  {
    seq(|vv|, b requires 0 <= b < |vv| => vv[b] - {id})
  }

  lemma BucketsCleared(vv: seq<set<int>>, id: int, x: int)
    ensures Buckets(Cleared(vv, id), x) == if x == id then {} else Buckets(vv, x)
  {
  }

  function AsTried(i: Info): Info { i.(refCount := 0, inTried := true) }

  function AsNew(i: Info): Info { i.(refCount := 1, inTried := false) }

  // id moves into tried bucket t, which has room.
  function Moved(s: State, id: int, t: int): State
    requires 0 <= t < |s.vvTried| && id in s.mapInfo
  {
    s.(mapInfo := s.mapInfo[id := AsTried(s.mapInfo[id])], vvNew := Cleared(s.vvNew, id),
       vvTried := s.vvTried[t := s.vvTried[t] + [id]], nTried := s.nTried + 1, nNew := s.nNew - 1)
  }

  lemma MovedNew(s: State, id: int, t: int)
    requires NewOk(s, NONE) && NONE !in s.mapInfo && 0 <= t < |s.vvTried| && id in s.mapInfo
    ensures NewOk(Moved(s, id, t), NONE)
  {
    var r := Moved(s, id, t);
    forall x | x in r.mapInfo
      ensures r.mapInfo[x].refCount == |Buckets(r.vvNew, x)|
    {
      BucketsCleared(s.vvNew, id, x);
    }
    forall b | 0 <= b < NEW_BUCKET_COUNT
      ensures |r.vvNew[b]| <= NEW_BUCKET_SIZE
    {
      CardMono(r.vvNew[b], s.vvNew[b]);
    }
  }

  lemma MovedTried(h: Hasher, s: State, id: int)
    requires TriedOk(h, s) && id in s.mapInfo && !s.mapInfo[id].inTried
    requires |s.vvTried[h.TriedBucket(s.mapInfo[id].service)]| < TRIED_BUCKET_SIZE
    ensures TriedOk(h, Moved(s, id, h.TriedBucket(s.mapInfo[id].service)))
  {
  }

  lemma MovedCounts(s: State, id: int, t: int)
    requires CountsOk(s) && id in s.mapInfo && !s.mapInfo[id].inTried && 0 <= t < |s.vvTried|
    ensures CountsOk(Moved(s, id, t))
  {
    var m := Moved(s, id, t).mapInfo;
    assert NewIds(m) == NewIds(s.mapInfo) - {id} && TriedIds(m) == TriedIds(s.mapInfo) + {id};
  }

  // The book with a moved to the tried table.
  function ToTried(book: Book, a: NetAddr): Book
    requires a in book
  {
    book[a := book[a].(tried := true, buckets := {})]
  }

  lemma MoveInv(h: Hasher, s: State, id: int)
    requires Inv(h, s) && id in s.mapInfo && !s.mapInfo[id].inTried && s.mapInfo[id].lastSuccess != 0
    requires |s.vvTried[h.TriedBucket(s.mapInfo[id].service)]| < TRIED_BUCKET_SIZE
    ensures Inv(h, Moved(s, id, h.TriedBucket(s.mapInfo[id].service)))
    ensures s.mapInfo[id].service.ip in Abs(s)
    ensures Abs(Moved(s, id, h.TriedBucket(s.mapInfo[id].service))) == ToTried(Abs(s), s.mapInfo[id].service.ip)
  {
    hide AddrOk, RandomOk, NewOk, TriedOk, CountsOk, TimesOk, Abs;
    InvParts(h, s, NONE);
    IdParts(h, s, NONE, id);
    var t := h.TriedBucket(s.mapInfo[id].service);
    var r := Moved(s, id, t);
    FrameAddr(s, r);
    FrameRandom(s.mapInfo, s.vRandom, id, r.mapInfo[id]);
    MovedNew(s, id, t);
    MovedTried(h, s, id);
    MovedCounts(s, id, t);
    FrameTimes(s, r, id, r.mapInfo[id]);
    forall x | x in s.mapInfo
      ensures EntryOf(r, x).buckets == if x == id then {} else EntryOf(s, x).buckets
    {
      BucketsCleared(s.vvNew, id, x);
    }
    AbsUpdate(s, r, id);
  }

  lemma {:induction false} NoDupCounts<T>(xs: seq<T>)
    ensures NoDup(xs) <==> forall x :: x in multiset(xs) ==> multiset(xs)[x] == 1
  {
    if xs != [] {
      var rest, last := xs[..|xs| - 1], xs[|xs| - 1];
      assert xs == rest + [last];
      NoDupCounts(rest);
      assert multiset(xs) == multiset(rest) + multiset{last};
      if NoDup(xs) {
        assert last !in rest;
      } else if NoDup(rest) {
        assert last in rest;
        assert multiset(xs)[last] == 2;
      } else {
        var x :| x in multiset(rest) && multiset(rest)[x] != 1;
        assert multiset(xs)[x] != 1;
      }
    }
  }

  // A shuffled bucket holds the same ids, each once.
  lemma ShuffleKeeps(xs: seq<int>, ys: seq<int>)
    requires NoDup(xs) && multiset(ys) == multiset(xs)
    ensures NoDup(ys) && |ys| == |xs| && forall x :: x in ys <==> x in xs
  {
    NoDupCounts(xs);
    NoDupCounts(ys);
    assert |multiset(ys)| == |ys| && |multiset(xs)| == |xs|;
    forall x
      ensures x in ys <==> x in xs
    {
      assert x in multiset(ys) <==> x in multiset(xs);
    }
  }

  // id takes slot pos of its shuffled tried bucket; the id that was there goes to new bucket nb.
  function Swapped(s: State, id: int, t: int, shuffled: seq<int>, pos: int, nb: int): State
    requires 0 <= t < |s.vvTried| && id in s.mapInfo && 0 <= pos < |shuffled| && shuffled[pos] in s.mapInfo
    requires 0 <= nb < |s.vvNew|
  {
    var out := shuffled[pos];
    s.(mapInfo := s.mapInfo[id := AsTried(s.mapInfo[id])][out := AsNew(s.mapInfo[out])],
       vvNew := Cleared(s.vvNew, id)[nb := Cleared(s.vvNew, id)[nb] + {out}],
       vvTried := s.vvTried[t := shuffled[pos := id]])
  }

  // The new buckets of every id after the exchange.
  lemma SwappedBuckets(vv: seq<set<int>>, id: int, out: int, nb: int, x: int)
    requires 0 <= nb < |vv| && id != out
    ensures Buckets(Cleared(vv, id)[nb := Cleared(vv, id)[nb] + {out}], x)
            == (if x == id then {} else Buckets(vv, x)) + (if x == out then {nb} else {})
  {
    BucketsCleared(vv, id, x);
    BucketsInsert(Cleared(vv, id), out, nb, x);
  }

  lemma SwappedSizes(vv: seq<set<int>>, id: int, out: int, nb: int, b: int)
    requires 0 <= nb < |vv| && 0 <= b < |vv| && |vv[b]| <= NEW_BUCKET_SIZE && |Cleared(vv, id)[nb]| < NEW_BUCKET_SIZE
    ensures |Cleared(vv, id)[nb := Cleared(vv, id)[nb] + {out}][b]| <= NEW_BUCKET_SIZE
  {
    CardMono(Cleared(vv, id)[b], vv[b]);
  }

  lemma SwappedNew(s: State, id: int, t: int, shuffled: seq<int>, pos: int, nb: int)
    requires NewOk(s, NONE) && NONE !in s.mapInfo && 0 <= t < |s.vvTried| && 0 <= pos < |shuffled|
    requires id in s.mapInfo && shuffled[pos] in s.mapInfo && id != shuffled[pos]
    requires s.mapInfo[shuffled[pos]].inTried && 0 <= nb < NEW_BUCKET_COUNT
    requires |Cleared(s.vvNew, id)[nb]| < NEW_BUCKET_SIZE
    ensures NewOk(Swapped(s, id, t, shuffled, pos, nb), NONE)
  {
    var r := Swapped(s, id, t, shuffled, pos, nb);
    var out := shuffled[pos];
    assert |Buckets(s.vvNew, out)| == 0;
    forall b | 0 <= b < NEW_BUCKET_COUNT
      ensures |r.vvNew[b]| <= NEW_BUCKET_SIZE
    {
      SwappedSizes(s.vvNew, id, out, nb, b);
    }
    SwappedRefs(s, id, t, shuffled, pos, nb);
  }

  lemma SwappedRefs(s: State, id: int, t: int, shuffled: seq<int>, pos: int, nb: int)
    requires NewOk(s, NONE) && NONE !in s.mapInfo && 0 <= t < |s.vvTried| && 0 <= pos < |shuffled|
    requires id in s.mapInfo && shuffled[pos] in s.mapInfo && id != shuffled[pos]
    requires Buckets(s.vvNew, shuffled[pos]) == {} && 0 <= nb < NEW_BUCKET_COUNT
    ensures var r := Swapped(s, id, t, shuffled, pos, nb);
            forall x :: x in r.mapInfo ==> r.mapInfo[x].refCount == |Buckets(r.vvNew, x)|
  {
    hide Buckets;
    var r := Swapped(s, id, t, shuffled, pos, nb);
    var out := shuffled[pos];
    forall x | x in r.mapInfo
      ensures r.mapInfo[x].refCount == |Buckets(r.vvNew, x)|
    {
      SwappedBuckets(s.vvNew, id, out, nb, x);
      assert x == out ==> Buckets(r.vvNew, x) == {nb};
    }
  }

  lemma SwappedTried(h: Hasher, s: State, id: int, shuffled: seq<int>, pos: int, nb: int)
    requires TriedOk(h, s) && id in s.mapInfo && !s.mapInfo[id].inTried && 0 <= nb < |s.vvNew| && 0 <= pos < |shuffled|
    requires multiset(shuffled) == multiset(s.vvTried[h.TriedBucket(s.mapInfo[id].service)])
    requires shuffled[pos] in s.mapInfo
    ensures TriedOk(h, Swapped(s, id, h.TriedBucket(s.mapInfo[id].service), shuffled, pos, nb))
  {
    var t := h.TriedBucket(s.mapInfo[id].service);
    ShuffleKeeps(s.vvTried[t], shuffled);
    var r := Swapped(s, id, t, shuffled, pos, nb);
    var out := shuffled[pos];
    assert out in s.vvTried[t] && id !in shuffled;
    assert forall x :: x in r.vvTried[t] ==> x == id || (x in s.vvTried[t] && x != out);
    forall x | x in s.vvTried[t] && x != out
      ensures x in r.vvTried[t]
    {
      assert x in shuffled;
      var i :| 0 <= i < |shuffled| && shuffled[i] == x;
      assert r.vvTried[t][i] == x;
    }
    assert r.vvTried[t][pos] == id;
    assert NoDup(r.vvTried[t]);
  }

  lemma SwappedCounts(s: State, id: int, t: int, shuffled: seq<int>, pos: int, nb: int)
    requires CountsOk(s) && 0 <= t < |s.vvTried| && 0 <= pos < |shuffled| && 0 <= nb < |s.vvNew|
    requires id in s.mapInfo && !s.mapInfo[id].inTried
    requires shuffled[pos] in s.mapInfo && s.mapInfo[shuffled[pos]].inTried
    ensures CountsOk(Swapped(s, id, t, shuffled, pos, nb))
  {
    var m := Swapped(s, id, t, shuffled, pos, nb).mapInfo;
    var out := shuffled[pos];
    assert NewIds(m) == (NewIds(s.mapInfo) - {id}) + {out} && TriedIds(m) == (TriedIds(s.mapInfo) - {out}) + {id};
  }

  lemma SwappedTimes(s: State, id: int, t: int, shuffled: seq<int>, pos: int, nb: int)
    requires TimesOk(s) && 0 <= t < |s.vvTried| && 0 <= pos < |shuffled| && 0 <= nb < |s.vvNew|
    requires id in s.mapInfo && shuffled[pos] in s.mapInfo && s.mapInfo[id].lastSuccess != 0
    ensures TimesOk(Swapped(s, id, t, shuffled, pos, nb))
  {
  }

  lemma ClearedAbs(s: State, id: int, mid: State)
    requires AddrOk(s) && id in s.mapInfo
    requires mid == s.(mapInfo := s.mapInfo[id := AsTried(s.mapInfo[id])], vvNew := Cleared(s.vvNew, id))
    ensures AddrOk(mid) && s.mapInfo[id].service.ip in Abs(s) && Abs(mid) == ToTried(Abs(s), s.mapInfo[id].service.ip)
  {
    hide AddrOk, Abs, Buckets, Cleared;
    FrameAddr(s, mid);
    forall x | x in s.mapInfo
      ensures EntryOf(mid, x).buckets == if x == id then {} else EntryOf(s, x).buckets
    {
      BucketsCleared(s.vvNew, id, x);
    }
    AbsUpdate(s, mid, id);
  }

  lemma ReturnedAbs(mid: State, out: int, nb: int, r: State)
    requires AddrOk(mid) && out in mid.mapInfo && 0 <= nb < |mid.vvNew| && Buckets(mid.vvNew, out) == {}
    requires r.mapInfo == mid.mapInfo[out := AsNew(mid.mapInfo[out])] && r.vvNew == mid.vvNew[nb := mid.vvNew[nb] + {out}]
    requires r.mapAddr == mid.mapAddr && r.nIdCount == mid.nIdCount
    ensures var v := mid.mapInfo[out].service.ip;
            && v in Abs(mid)
            && Abs(r) == Abs(mid)[v := Abs(mid)[v].(tried := false, buckets := {nb})]
  {
    hide AddrOk, Abs, Buckets;
    FrameAddr(mid, r);
    forall x | x in mid.mapInfo
      ensures EntryOf(r, x).buckets == EntryOf(mid, x).buckets + (if x == out then {nb} else {})
    {
      BucketsInsert(mid.vvNew, out, nb, x);
    }
    AbsUpdate(mid, r, out);
    assert EntryOf(r, out) == EntryOf(mid, out).(tried := false, buckets := {nb});
  }

  lemma SwappedAbs(s: State, id: int, t: int, shuffled: seq<int>, pos: int, nb: int)
    requires AddrOk(s) && 0 <= t < |s.vvTried| && 0 <= pos < |shuffled| && 0 <= nb < |s.vvNew|
    requires id in s.mapInfo && shuffled[pos] in s.mapInfo && id != shuffled[pos] && Buckets(s.vvNew, shuffled[pos]) == {}
    ensures var a, v := s.mapInfo[id].service.ip, s.mapInfo[shuffled[pos]].service.ip;
            && a in Abs(s) && v in ToTried(Abs(s), a)
            && Abs(Swapped(s, id, t, shuffled, pos, nb))
               == ToTried(Abs(s), a)[v := ToTried(Abs(s), a)[v].(tried := false, buckets := {nb})]
  {
    hide AddrOk, Abs, Buckets, ToTried, Cleared;
    var out := shuffled[pos];
    var mid := s.(mapInfo := s.mapInfo[id := AsTried(s.mapInfo[id])], vvNew := Cleared(s.vvNew, id));
    ClearedAbs(s, id, mid);
    BucketsCleared(s.vvNew, id, out);
    ReturnedAbs(mid, out, nb, Swapped(s, id, t, shuffled, pos, nb));
  }

  // id takes the slot of a tried id, which returns to new bucket nb.
  lemma SwapInv(h: Hasher, s: State, id: int, shuffled: seq<int>, pos: int, nb: int)
    requires Inv(h, s) && id in s.mapInfo && !s.mapInfo[id].inTried && s.mapInfo[id].lastSuccess != 0
    requires multiset(shuffled) == multiset(s.vvTried[h.TriedBucket(s.mapInfo[id].service)])
    requires 0 <= pos < |shuffled| && shuffled[pos] in s.mapInfo && s.mapInfo[shuffled[pos]].inTried
    requires 0 <= nb < NEW_BUCKET_COUNT && |Cleared(s.vvNew, id)[nb]| < NEW_BUCKET_SIZE
    ensures Inv(h, Swapped(s, id, h.TriedBucket(s.mapInfo[id].service), shuffled, pos, nb))
    ensures var a, v := s.mapInfo[id].service.ip, s.mapInfo[shuffled[pos]].service.ip;
            && a in Abs(s) && v in InTried(h, Abs(s), h.TriedBucket(s.mapInfo[id].service))
            && Abs(Swapped(s, id, h.TriedBucket(s.mapInfo[id].service), shuffled, pos, nb))
               == ToTried(Abs(s), a)[v := ToTried(Abs(s), a)[v].(tried := false, buckets := {nb})]
  {
    hide AddrOk, RandomOk, NewOk, CountsOk, TimesOk, Abs;
    BookEntry(s, id);
    BookEntry(s, shuffled[pos]);
    InvParts(h, s, NONE);
    IdParts(h, s, NONE, id);
    IdParts(h, s, NONE, shuffled[pos]);
    var t := h.TriedBucket(s.mapInfo[id].service);
    var r := Swapped(s, id, t, shuffled, pos, nb);
    var out := shuffled[pos];
    SwappedNew(s, id, t, shuffled, pos, nb);
    SwappedTried(h, s, id, shuffled, pos, nb);
    SwappedCounts(s, id, t, shuffled, pos, nb);
    SwappedTimes(s, id, t, shuffled, pos, nb);
    FrameAddr(s, r);
    FrameRandom(s.mapInfo, s.vRandom, id, AsTried(s.mapInfo[id]));
    FrameRandom(s.mapInfo[id := AsTried(s.mapInfo[id])], s.vRandom, out, AsNew(s.mapInfo[out]));
    ShuffleKeeps(s.vvTried[t], shuffled);
    assert |Buckets(s.vvNew, out)| == 0;
    SwappedAbs(s, id, t, shuffled, pos, nb);
    assert out in s.vvTried[t];
  }
}
