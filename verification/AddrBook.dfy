/** The address manager seen from outside: which addresses are known, what is recorded about
    each, and in which buckets it sits. No ids, no positions, no reference counts.

    Every operation of the class in AddrMan.dfy is proved to be one of the steps defined here. */
module AddrBook {
  import opened BitOps
  import opened Numbers

  const TRIED_BUCKET_COUNT := 64
  const TRIED_BUCKET_SIZE := 64
  const NEW_BUCKET_COUNT := 256
  const NEW_BUCKET_SIZE := 64
  const NEW_BUCKETS_PER_ADDRESS := 4

  type Key = seq<bv8>

  datatype NetAddr = NetAddr(bytes: seq<bv8>)

  datatype Service = Service(ip: NetAddr, port: bv16)

  // What a peer announces: a service, its flags and the time it was last seen.
  datatype Address = Address(service: Service, services: bv64, nTime: int)

  // The keyed bucket hashes. The hash functions themselves are foreign.
  datatype Hasher = Hasher(key: Key, triedHash: (Key, Service) -> nat, newHash: (Key, Service, NetAddr) -> nat)
  {
    function TriedBucket(s: Service): (b: nat)
      ensures b < TRIED_BUCKET_COUNT
    {
      triedHash(key, s) % TRIED_BUCKET_COUNT
    }

    function NewBucket(s: Service, source: NetAddr): (b: nat)
      ensures b < NEW_BUCKET_COUNT
    {
      newHash(key, s, source) % NEW_BUCKET_COUNT
    }
  }

  // What is recorded about one address, and where it is kept.
  datatype Entry = Entry(service: Service, services: bv64, nTime: int, source: NetAddr, lastSuccess: int,
                         lastTry: int, attempts: int, tried: bool, buckets: set<int>)

  type Book = map<NetAddr, Entry>

  // Assignment of a 64-bit value to the 32-bit field nTime.
  function U32(x: int): (r: int)
    ensures 0 <= r < 0x1_0000_0000 && (x - r) % 0x1_0000_0000 == 0
  {
    x % 0x1_0000_0000
  }

  // The addresses of new bucket b.
  function InBucket(book: Book, b: int): set<NetAddr> {
    set a | a in book && b in book[a].buckets
  }

  // The addresses of tried bucket b.
  function InTried(h: Hasher, book: Book, b: int): set<NetAddr> {
    set a | a in book && book[a].tried && h.TriedBucket(book[a].service) == b
  }

  ghost predicate EntryOk(a: NetAddr, e: Entry) {
    && e.service.ip == a
    && 0 <= e.lastTry && 0 <= e.lastSuccess
    && (forall b :: b in e.buckets ==> 0 <= b < NEW_BUCKET_COUNT)
    && (if e.tried then e.buckets == {} && e.lastSuccess != 0 else 1 <= |e.buckets| <= NEW_BUCKETS_PER_ADDRESS)
  }

  // The invariant of every reachable book.
  ghost predicate BookInv(h: Hasher, book: Book) {
    && (forall a :: a in book ==> EntryOk(a, book[a]))
    && Caps(h, book)
  }

  // No bucket is over-full.
  ghost predicate Caps(h: Hasher, book: Book) {
    && (forall b {:trigger InBucket(book, b)} :: |InBucket(book, b)| <= NEW_BUCKET_SIZE)
    && (forall b {:trigger InTried(h, book, b)} :: |InTried(h, book, b)| <= TRIED_BUCKET_SIZE)
  }

  // ---------- the steps ----------

  // An entry bad enough to be dropped.
  predicate IsTerrible(e: Entry, now: int) {
    if e.lastTry != 0 && e.lastTry >= now - 60 then false
    else if e.nTime > now + 10 * 60 then true
    else if e.nTime == 0 || now - e.nTime > 30 * 86400 then true
    else if e.lastSuccess == 0 && e.attempts >= 3 then true
    else now - e.lastSuccess > 7 * 86400 && e.attempts >= 10
  }

  function AddServices(x: bv64, y: bv64): bv64 { x | y }

  // A repeated announcement updates the time (at most once per interval) and adds service flags.
  function Refresh(e: Entry, addr: Address, penalty: int, now: int): Entry {
    var interval := if now - addr.nTime < 24 * 60 * 60 then 60 * 60 else 24 * 60 * 60;
    var t := if addr.nTime != 0 && (e.nTime == 0 || e.nTime < addr.nTime - interval - penalty)
             then U32(Max(0, addr.nTime - penalty)) else e.nTime;
    e.(nTime := t, services := AddServices(e.services, addr.services))
  }

  // The announcement says nothing the (refreshed) entry does not already know.
  predicate NoNews(e: Entry, addr: Address) {
    addr.nTime == 0 || (e.nTime != 0 && addr.nTime <= e.nTime)
  }

  function FreshEntry(addr: Address, source: NetAddr, penalty: int): Entry {
    Entry(addr.service, addr.services, U32(Max(0, addr.nTime - penalty)), source, 0, 0, 0, false, {})
  }

  // Take v out of new bucket b; an entry left in no bucket is forgotten.
  function Drop(book: Book, v: NetAddr, b: int): Book
    requires v in book
  {
    if book[v].buckets == {b} then book - {v} else book[v := book[v].(buckets := book[v].buckets - {b})]
  }

  function Put(book: Book, a: NetAddr, b: int): Book
    requires a in book
  {
    book[a := book[a].(buckets := book[a].buckets + {b})]
  }

  // v may be dropped from full bucket b: a terrible entry if the bucket holds one.
  ghost predicate Droppable(book: Book, v: NetAddr, b: int, now: int) {
    && v in InBucket(book, b)
    && ((exists w :: w in InBucket(book, b) && IsTerrible(book[w], now)) ==> IsTerrible(book[v], now))
  }

  // Put a into new bucket b, making room when the bucket is full.
  ghost predicate PlaceStep(book: Book, post: Book, a: NetAddr, b: int, now: int)
    requires a in book
  {
    if b in book[a].buckets then post == book
    else if |InBucket(book, b)| != NEW_BUCKET_SIZE then post == Put(book, a, b)
    else exists v :: Droppable(book, v, b, now) && post == Put(Drop(book, v, b), a, b)
  }

  // The book Add places into: the refreshed or fresh entry is recorded, the bucket is still to be chosen.
  function AddMid(book: Book, addr: Address, source: NetAddr, penalty: int, now: int): Book {
    var a := addr.service.ip;
    book[a := if a in book then Refresh(book[a], addr, penalty, now) else FreshEntry(addr, source, penalty)]
  }

  // Whether a repeated announcement earns the entry another reference: of 2^n draws for an entry with n, one does.
  predicate Grants(e: Entry, addr: Address, dice: int) {
    !NoNews(e, addr) && !e.tried && |e.buckets| != NEW_BUCKETS_PER_ADDRESS && dice == 0
  }

  ghost predicate AddStep(h: Hasher, routable: bool, book: Book, post: Book, addr: Address, source: NetAddr, penalty: int,
                          now: int, isNew: bool, dice: int)
  {
    var a := addr.service.ip;
    var b := h.NewBucket(if a in book then book[a].service else addr.service, source);
    var mid := AddMid(book, addr, source, penalty, now);
    if !routable then post == book && !isNew
    else if a in book then
      && !isNew && 0 <= dice < Pow2(|mid[a].buckets|)
      && if Grants(mid[a], addr, dice) then PlaceStep(mid, post, a, b, now) else post == mid
    else
      isNew && PlaceStep(mid, post, a, b, now)
  }

  function Succeeded(e: Entry, time: int): Entry {
    e.(lastSuccess := time, lastTry := time, nTime := U32(time), attempts := 0)
  }

  // Tried entry v goes back to the new table: to its own bucket if that has room, else to bucket origin.
  function SendBack(h: Hasher, book: Book, v: NetAddr, origin: int): Book
    requires v in book
  {
    var own := h.NewBucket(book[v].service, book[v].source);
    book[v := book[v].(tried := false, buckets := {if |InBucket(book, own)| < NEW_BUCKET_SIZE then own else origin})]
  }

  predicate SameService(book: Book, svc: Service) {
    svc.ip in book && book[svc.ip].service == svc
  }

  // The book after a new entry was marked good and taken out of the new table.
  function GoodMid(book: Book, svc: Service, time: int): Book
    requires svc.ip in book
  {
    book[svc.ip := Succeeded(book[svc.ip], time).(tried := true, buckets := {})]
  }

  ghost predicate GoodStep(h: Hasher, book: Book, post: Book, svc: Service, time: int) {
    var a := svc.ip;
    if !SameService(book, svc) then post == book
    else if book[a].tried then post == book[a := Succeeded(book[a], time)]
    else
      var mid := GoodMid(book, svc, time);
      var t := h.TriedBucket(svc);
      if |InTried(h, book, t)| < TRIED_BUCKET_SIZE then post == mid
      else exists v, o :: v in InTried(h, book, t) && o in book[a].buckets && post == SendBack(h, mid, v, o)
  }

  ghost predicate AttemptStep(book: Book, post: Book, svc: Service, time: int) {
    if !SameService(book, svc) then post == book
    else post == book[svc.ip := book[svc.ip].(lastTry := time, attempts := book[svc.ip].attempts + 1)]
  }

  ghost predicate ConnectedStep(book: Book, post: Book, svc: Service, time: int) {
    if SameService(book, svc) && time - book[svc.ip].nTime > 20 * 60
    then post == book[svc.ip := book[svc.ip].(nTime := U32(time))]
    else post == book
  }

  datatype Op =
    | Add(routable: bool, addr: Address, source: NetAddr, penalty: int, now: int)
    | Good(svc: Service, time: int)
    | Attempt(svc: Service, time: int)
    | Connected(svc: Service, time: int)
    | GetAddr

  // Clock readings are positive.
  predicate OpOk(op: Op) {
    match op
    case Good(_, time) => 0 < time
    case Attempt(_, time) => 0 < time
    case _ => true
  }

  ghost predicate Step(h: Hasher, book: Book, op: Op, post: Book) {
    match op
    case Add(routable, addr, source, penalty, now) =>
      exists isNew, dice :: AddStep(h, routable, book, post, addr, source, penalty, now, isNew, dice)
    case Good(svc, time) => GoodStep(h, book, post, svc, time)
    case Attempt(svc, time) => AttemptStep(book, post, svc, time)
    case Connected(svc, time) => ConnectedStep(book, post, svc, time)
    case GetAddr => post == book
  }

  // books[i] is the book after the first i operations.
  ghost predicate IsRun(h: Hasher, books: seq<Book>, ops: seq<Op>) {
    && |books| == |ops| + 1
    && forall i :: 0 <= i < |ops| ==> OpOk(ops[i]) && Step(h, books[i], ops[i], books[i + 1])
  }

  // ---------- what every step keeps ----------

  lemma CardMono<T>(x: set<T>, y: set<T>)
    requires x <= y
    ensures |x| <= |y|
  {
    assert y == x + (y - x);
  }

  lemma CardAdd<T>(x: set<T>, y: set<T>, v: T)
    requires x <= y + {v}
    ensures |x| <= |y| + 1
  {
    CardMono(x, y + {v});
    if v in y { assert y + {v} == y; }
  }

  // BookInv, but a may be in no bucket yet.
  ghost predicate BookInvBut(h: Hasher, book: Book, a: NetAddr) {
    && (forall x :: x in book && x != a ==> EntryOk(x, book[x]))
    && a in book && !book[a].tried && book[a].service.ip == a
    && 0 <= book[a].lastTry && 0 <= book[a].lastSuccess
    && (forall b :: b in book[a].buckets ==> 0 <= b < NEW_BUCKET_COUNT)
    && |book[a].buckets| <= NEW_BUCKETS_PER_ADDRESS
    && Caps(h, book)
  }

  lemma PutKeeps(h: Hasher, book: Book, a: NetAddr, b: int)
    requires BookInvBut(h, book, a) && 0 <= b < NEW_BUCKET_COUNT && b !in book[a].buckets
    requires |InBucket(book, b)| < NEW_BUCKET_SIZE && |book[a].buckets| < NEW_BUCKETS_PER_ADDRESS
    ensures BookInv(h, Put(book, a, b))
  {
    var post := Put(book, a, b);
    forall c
      ensures |InBucket(post, c)| <= NEW_BUCKET_SIZE && |InTried(h, post, c)| <= TRIED_BUCKET_SIZE
    {
      assert InTried(h, post, c) == InTried(h, book, c);
      if c == b {
        CardAdd(InBucket(post, c), InBucket(book, c), a);
      } else {
        assert InBucket(post, c) == InBucket(book, c);
      }
    }
  }

  lemma DropKeeps(h: Hasher, book: Book, a: NetAddr, v: NetAddr, b: int)
    requires BookInvBut(h, book, a) && v in InBucket(book, b) && v != a
    ensures BookInvBut(h, Drop(book, v, b), a)
    ensures |InBucket(Drop(book, v, b), b)| < |InBucket(book, b)|
    ensures Drop(book, v, b)[a] == book[a]
  {
    var post := Drop(book, v, b);
    if book[v].buckets != {b} {
      assert book[v].buckets == (book[v].buckets - {b}) + {b};
      assert v in post && EntryOk(v, post[v]);
    }
    assert InBucket(post, b) == InBucket(book, b) - {v};
    forall c
      ensures |InBucket(post, c)| <= NEW_BUCKET_SIZE && |InTried(h, post, c)| <= TRIED_BUCKET_SIZE
    {
      CardMono(InBucket(post, c), InBucket(book, c));
      CardMono(InTried(h, post, c), InTried(h, book, c));
    }
  }

  lemma PlaceKeeps(h: Hasher, book: Book, post: Book, a: NetAddr, b: int, now: int)
    requires BookInvBut(h, book, a) && 0 <= b < NEW_BUCKET_COUNT
    requires b !in book[a].buckets ==> |book[a].buckets| < NEW_BUCKETS_PER_ADDRESS
    requires PlaceStep(book, post, a, b, now)
    ensures BookInv(h, post)
  {
    if b in book[a].buckets {
      CardMono({b}, book[a].buckets);
    } else if |InBucket(book, b)| != NEW_BUCKET_SIZE {
      PutKeeps(h, book, a, b);
    } else {
      var v :| Droppable(book, v, b, now) && post == Put(Drop(book, v, b), a, b);
      DropKeeps(h, book, a, v, b);
      PutKeeps(h, Drop(book, v, b), a, b);
    }
  }

  // Placing an entry forgets at most one other address, and never a tried one.
  lemma PlaceFrame(book: Book, post: Book, a: NetAddr, b: int, now: int)
    requires a in book && PlaceStep(book, post, a, b, now)
    requires forall x :: x in book && book[x].tried ==> book[x].buckets == {}
    ensures a in post && post[a] == book[a].(buckets := book[a].buckets + {b})
    ensures post.Keys <= book.Keys
    ensures forall x :: x in book && book[x].tried ==> x in post && post[x].tried
    ensures exists v :: v in book.Keys && book.Keys <= post.Keys + {v} 
  {
    if b in book[a].buckets {
      assert book[a].buckets + {b} == book[a].buckets;
      assert a in book.Keys && book.Keys <= post.Keys + {a};
    } else if |InBucket(book, b)| != NEW_BUCKET_SIZE {
      assert a in book.Keys && book.Keys <= post.Keys + {a};
    } else {
      var v :| Droppable(book, v, b, now) && post == Put(Drop(book, v, b), a, b);
      assert v in book.Keys && book.Keys <= post.Keys + {v};
    }
  }

  // Recording something at a that moves it to no other bucket.
  lemma TouchCaps(h: Hasher, book: Book, a: NetAddr, e: Entry)
    requires Caps(h, book)
    requires if a in book then e.buckets == book[a].buckets && e.tried == book[a].tried && e.service == book[a].service
             else e.buckets == {} && !e.tried
    ensures Caps(h, book[a := e])
  {
    var post := book[a := e];
    forall c
      ensures |InBucket(post, c)| <= NEW_BUCKET_SIZE && |InTried(h, post, c)| <= TRIED_BUCKET_SIZE
    {
      assert InBucket(post, c) == InBucket(book, c) && InTried(h, post, c) == InTried(h, book, c);
    }
  }

  lemma TouchKeeps(h: Hasher, book: Book, a: NetAddr, e: Entry)
    requires BookInv(h, book) && a in book && EntryOk(a, e)
    requires e.buckets == book[a].buckets && e.tried == book[a].tried && e.service == book[a].service
    ensures BookInv(h, book[a := e])
  {
    TouchCaps(h, book, a, e);
  }

  lemma AddMidKeeps(h: Hasher, book: Book, addr: Address, source: NetAddr, penalty: int, now: int)
    requires BookInv(h, book)
    ensures addr.service.ip in book ==> BookInv(h, AddMid(book, addr, source, penalty, now))
    ensures (addr.service.ip in book && book[addr.service.ip].tried)
            || BookInvBut(h, AddMid(book, addr, source, penalty, now), addr.service.ip)
  {
    var a := addr.service.ip;
    if a in book {
      assert EntryOk(a, book[a]);
      TouchKeeps(h, book, a, Refresh(book[a], addr, penalty, now));
    } else {
      TouchCaps(h, book, a, FreshEntry(addr, source, penalty));
    }
  }

  lemma AddKeeps(h: Hasher, routable: bool, book: Book, post: Book, addr: Address, source: NetAddr, penalty: int, now: int,
                 isNew: bool, dice: int)
    requires BookInv(h, book) && AddStep(h, routable, book, post, addr, source, penalty, now, isNew, dice)
    ensures BookInv(h, post)
    ensures forall x :: x in book && book[x].tried ==> x in post && post[x].tried
    ensures isNew <==> routable && addr.service.ip !in book
    ensures isNew ==> addr.service.ip in post
  {
    var a := addr.service.ip;
    if routable {
      var mid := AddMid(book, addr, source, penalty, now);
      AddMidKeeps(h, book, addr, source, penalty, now);
      if post != mid || a !in book {
        var b := h.NewBucket(if a in book then book[a].service else addr.service, source);
        PlaceKeeps(h, mid, post, a, b, now);
        PlaceFrame(mid, post, a, b, now);
      }
    }
  }

  lemma GoodMidBuckets(book: Book, svc: Service, time: int, c: int)
    requires svc.ip in book
    ensures InBucket(GoodMid(book, svc, time), c) == InBucket(book, c) - {svc.ip}
    ensures |InBucket(GoodMid(book, svc, time), c)| <= |InBucket(book, c)|
    ensures c in book[svc.ip].buckets ==> |InBucket(GoodMid(book, svc, time), c)| < |InBucket(book, c)|
  {
    CardMono(InBucket(book, c) - {svc.ip}, InBucket(book, c));
  }

  lemma SendBackBuckets(h: Hasher, mid: Book, v: NetAddr, o: int, c: int)
    requires v in mid && mid[v].tried && mid[v].buckets == {}
    requires |InBucket(mid, o)| < NEW_BUCKET_SIZE && |InBucket(mid, c)| <= NEW_BUCKET_SIZE
    ensures |InBucket(SendBack(h, mid, v, o), c)| <= NEW_BUCKET_SIZE
  {
    var post := SendBack(h, mid, v, o);
    if c in post[v].buckets {
      CardAdd(InBucket(post, c), InBucket(mid, c), v);
    } else {
      assert InBucket(post, c) == InBucket(mid, c);
    }
  }

  lemma GoodMidTried(h: Hasher, book: Book, svc: Service, time: int, c: int)
    requires SameService(book, svc) && !book[svc.ip].tried
    ensures InTried(h, GoodMid(book, svc, time), c) == InTried(h, book, c) + (if c == h.TriedBucket(svc) then {svc.ip} else {})
  {
  }

  lemma SendBackLeaves(h: Hasher, mid: Book, v: NetAddr, o: int, c: int)
    requires v in mid
    ensures InTried(h, SendBack(h, mid, v, o), c) == InTried(h, mid, c) - {v}
  {
  }

  lemma SendBackTried(h: Hasher, book: Book, svc: Service, time: int, v: NetAddr, o: int, c: int)
    requires SameService(book, svc) && !book[svc.ip].tried
    requires v in InTried(h, book, h.TriedBucket(svc))
    ensures |InTried(h, SendBack(h, GoodMid(book, svc, time), v, o), c)| == |InTried(h, book, c)|
  {
    hide SendBack;
    GoodMidTried(h, book, svc, time, c);
    SendBackLeaves(h, GoodMid(book, svc, time), v, o, c);
    if c == h.TriedBucket(svc) {
      assert svc.ip !in InTried(h, book, c);
    } else {
      assert v !in InTried(h, book, c);
    }
  }

  lemma SwapCaps(h: Hasher, book: Book, svc: Service, time: int, v: NetAddr, o: int)
    requires Caps(h, book) && SameService(book, svc) && !book[svc.ip].tried
    requires v in InTried(h, book, h.TriedBucket(svc)) && o in book[svc.ip].buckets && book[v].buckets == {}
    ensures Caps(h, SendBack(h, GoodMid(book, svc, time), v, o))
  {
    hide SendBack, InBucket, InTried, Caps, GoodMid;
    SwapFacts(h, book, svc, time, v, o);
    var mid := GoodMid(book, svc, time);
    var post := SendBack(h, mid, v, o);
    GoodMidBuckets(book, svc, time, o);
    CapsAt(h, book, o);
    forall c
      ensures |InTried(h, post, c)| <= TRIED_BUCKET_SIZE && |InBucket(post, c)| <= NEW_BUCKET_SIZE
    {
      CapsAt(h, book, c);
      SendBackTried(h, book, svc, time, v, o, c);
      GoodMidBuckets(book, svc, time, c);
      SendBackBuckets(h, mid, v, o, c);
    }
    CapsAll(h, post);
  }

  lemma CapsAt(h: Hasher, book: Book, b: int)
    requires Caps(h, book)
    ensures |InBucket(book, b)| <= NEW_BUCKET_SIZE && |InTried(h, book, b)| <= TRIED_BUCKET_SIZE
  {
    hide InBucket, InTried;
  }

  lemma CapsAll(h: Hasher, book: Book)
    requires forall b :: |InTried(h, book, b)| <= TRIED_BUCKET_SIZE && |InBucket(book, b)| <= NEW_BUCKET_SIZE
    ensures Caps(h, book)
  {
    hide InBucket, InTried;
  }

  lemma SwapFacts(h: Hasher, book: Book, svc: Service, time: int, v: NetAddr, o: int)
    requires SameService(book, svc) && !book[svc.ip].tried && v in InTried(h, book, h.TriedBucket(svc))
    requires o in book[svc.ip].buckets && book[v].buckets == {}
    ensures svc.ip in InBucket(book, o)
    ensures var mid := GoodMid(book, svc, time); v in mid && mid[v].tried && mid[v].buckets == {}
  {
  }

  // Good on a new entry whose tried bucket is full: v is sent back.
  lemma SwapKeeps(h: Hasher, book: Book, svc: Service, time: int, v: NetAddr, o: int)
    requires BookInv(h, book) && SameService(book, svc) && !book[svc.ip].tried && 0 < time
    requires v in InTried(h, book, h.TriedBucket(svc)) && o in book[svc.ip].buckets
    ensures BookInv(h, SendBack(h, GoodMid(book, svc, time), v, o))
  {
    hide Caps, InBucket;
    var post := SendBack(h, GoodMid(book, svc, time), v, o);
    assert EntryOk(svc.ip, book[svc.ip]) && EntryOk(v, book[v]);
    SwapCaps(h, book, svc, time, v, o);
    forall x | x in post
      ensures EntryOk(x, post[x])
    {
      assert EntryOk(x, book[x]);
    }
  }

  // Good on a new entry whose tried bucket has room.
  lemma MoveKeeps(h: Hasher, book: Book, svc: Service, time: int)
    requires BookInv(h, book) && SameService(book, svc) && !book[svc.ip].tried && 0 < time
    requires |InTried(h, book, h.TriedBucket(svc))| < TRIED_BUCKET_SIZE
    ensures BookInv(h, GoodMid(book, svc, time))
  {
    var post := GoodMid(book, svc, time);
    assert EntryOk(svc.ip, book[svc.ip]);
    forall c
      ensures |InTried(h, post, c)| <= TRIED_BUCKET_SIZE && |InBucket(post, c)| <= NEW_BUCKET_SIZE
    {
      assert |InBucket(book, c)| <= NEW_BUCKET_SIZE && |InTried(h, book, c)| <= TRIED_BUCKET_SIZE;
      GoodMidBuckets(book, svc, time, c);
      if c == h.TriedBucket(svc) {
        CardAdd(InTried(h, post, c), InTried(h, book, c), svc.ip);
      } else {
        assert InTried(h, post, c) == InTried(h, book, c);
      }
    }
    assert Caps(h, post);
  }

  lemma GoodKeeps(h: Hasher, book: Book, post: Book, svc: Service, time: int)
    requires BookInv(h, book) && GoodStep(h, book, post, svc, time) && 0 < time
    ensures BookInv(h, post)
    ensures post.Keys == book.Keys
  {
    var a := svc.ip;
    if SameService(book, svc) {
      if book[a].tried {
        assert EntryOk(a, book[a]);
        TouchKeeps(h, book, a, Succeeded(book[a], time));
      } else if |InTried(h, book, h.TriedBucket(svc))| < TRIED_BUCKET_SIZE {
        MoveKeeps(h, book, svc, time);
      } else {
        var v, o :| v in InTried(h, book, h.TriedBucket(svc)) && o in book[a].buckets
                    && post == SendBack(h, GoodMid(book, svc, time), v, o);
        SwapKeeps(h, book, svc, time, v, o);
      }
    }
  }

  // One operation keeps the invariant and never forgets a tried address.
  lemma StepKeeps(h: Hasher, book: Book, op: Op, post: Book)
    requires BookInv(h, book) && OpOk(op) && Step(h, book, op, post)
    ensures BookInv(h, post)
    ensures forall x :: x in book && book[x].tried ==> x in post
    ensures !op.Add? ==> post.Keys == book.Keys
  {
    match op
    case Add(routable, addr, source, penalty, now) =>
      var isNew, dice :| AddStep(h, routable, book, post, addr, source, penalty, now, isNew, dice);
      AddKeeps(h, routable, book, post, addr, source, penalty, now, isNew, dice);
    case Good(svc, time) =>
      GoodKeeps(h, book, post, svc, time);
    case Attempt(svc, time) =>
      if SameService(book, svc) {
        assert EntryOk(svc.ip, book[svc.ip]);
        TouchKeeps(h, book, svc.ip, book[svc.ip].(lastTry := time, attempts := book[svc.ip].attempts + 1));
      }
    case Connected(svc, time) =>
      if SameService(book, svc) {
        assert EntryOk(svc.ip, book[svc.ip]);
        TouchKeeps(h, book, svc.ip, book[svc.ip].(nTime := U32(time)));
      }
    case GetAddr =>
  }

  // ---------- what a repeated announcement records ----------

  // Every flag known or announced is known afterwards, and no other.
  lemma FlagsAddUp(x: bv64, y: bv64, flags: bv64)
    ensures AddServices(x, y) & flags == 0 <==> x & flags == 0 && y & flags == 0
  {
    hide AddServices;
    AndOverOr(x, y, flags);
    OrZero(x & flags, y & flags, AddServices(x, y) & flags);
  }

  lemma AndOverOr(x: bv64, y: bv64, flags: bv64)
    ensures AddServices(x, y) & flags == (x & flags) | (y & flags)
  {
  }

  lemma OrZero(x: bv64, y: bv64, z: bv64)
    requires z == x | y
    ensures z == 0 <==> x == 0 && y == 0
  {
    if z == 0 {
      assert (x | y) & x == x && (x | y) & y == y;
    }
  }

  // A known address announced again: the time moves if it was behind by more than an hour, or a day for a peer not
  // seen today, and the penalty; another reference comes exactly with news, below four of them, if the draw is 0.
  lemma KnownRecord(h: Hasher, book: Book, post: Book, addr: Address, source: NetAddr, penalty: int, now: int, dice: int)
    requires BookInv(h, book) && addr.service.ip in book && 0 <= penalty && 0 <= addr.nTime < 0x1_0000_0000
    requires AddStep(h, true, book, post, addr, source, penalty, now, false, dice)
    ensures addr.service.ip in post
    ensures var e, p := book[addr.service.ip], post[addr.service.ip];
            var behind := e.nTime == 0 || addr.nTime - e.nTime > penalty + if now - addr.nTime < 86400 then 3600 else 86400;
            && p.nTime == (if addr.nTime == 0 || !behind then e.nTime else if addr.nTime < penalty then 0 else addr.nTime - penalty)
            && p.services == AddServices(e.services, addr.services)
            && p.service == e.service && p.source == e.source && p.tried == e.tried
            && p.lastTry == e.lastTry && p.lastSuccess == e.lastSuccess && p.attempts == e.attempts
            && p.buckets == if addr.nTime != 0 && (p.nTime == 0 || addr.nTime > p.nTime) && !e.tried && |e.buckets| < 4 && dice == 0
                            then e.buckets + {h.newHash(h.key, e.service, source) % 256} else e.buckets
  {
    var a := addr.service.ip;
    assert EntryOk(a, book[a]);
    var mid := AddMid(book, addr, source, penalty, now);
    AddMidKeeps(h, book, addr, source, penalty, now);
    RefreshIs(book[a], addr, penalty, now);
    if Grants(mid[a], addr, dice) {
      PlaceFrame(mid, post, a, h.NewBucket(book[a].service, source), now);
    }
  }

  lemma RefreshIs(e: Entry, addr: Address, penalty: int, now: int)
    requires 0 <= penalty && 0 <= addr.nTime < 0x1_0000_0000
    ensures var p := Refresh(e, addr, penalty, now);
            var behind := e.nTime == 0 || addr.nTime - e.nTime > penalty + if now - addr.nTime < 86400 then 3600 else 86400;
            && p.nTime == (if addr.nTime == 0 || !behind then e.nTime else if addr.nTime < penalty then 0 else addr.nTime - penalty)
            && p == e.(nTime := p.nTime, services := AddServices(e.services, addr.services))
  {
  }

  // ---------- who is terrible ----------

  // Terrible, in seconds: not tried in the last minute, and from more than ten minutes ahead, not seen for thirty days,
  // never reached in three tries, or not reached for a week and in ten tries.
  lemma TerribleIs(e: Entry, now: int)
    ensures IsTerrible(e, now) <==>
              && (e.lastTry == 0 || e.lastTry < now - 60)
              && (|| e.nTime == 0 || e.nTime > now + 600 || e.nTime < now - 2592000
                  || (e.lastSuccess == 0 && e.attempts >= 3) || (e.lastSuccess < now - 604800 && e.attempts >= 10))
  {
  }

  // books[i] is the book after the first i of the given attempts at one service.
  ghost predicate Attempted(books: seq<Book>, svc: Service, times: seq<int>) {
    && |books| == |times| + 1
    && forall i :: 0 <= i < |times| ==> AttemptStep(books[i], books[i + 1], svc, times[i])
  }

  // Attempts add up; of their times the last is kept.
  lemma {:induction false} AttemptsAddUp(books: seq<Book>, svc: Service, times: seq<int>)
    requires Attempted(books, svc, times) && SameService(books[0], svc)
    ensures var e, k := books[0][svc.ip], |times|;
            books[k] == books[0][svc.ip := e.(attempts := e.attempts + k, lastTry := if k == 0 then e.lastTry else times[k - 1])]
  {
    var k := |times|;
    if k == 0 {
      assert books[0] == books[0][svc.ip := books[0][svc.ip]];
    } else {
      AttemptsAddUp(books[..k], svc, times[..k - 1]);
      assert AttemptStep(books[k - 1], books[k], svc, times[k - 1]);
    }
  }

  // What the first announcement of an address records.
  lemma FirstRecord(h: Hasher, book: Book, post: Book, addr: Address, source: NetAddr, penalty: int, now: int, dice: int)
    requires BookInv(h, book) && AddStep(h, true, book, post, addr, source, penalty, now, true, dice)
    requires 0 <= addr.nTime - penalty < 0x1_0000_0000
    ensures addr.service.ip in post
    ensures var e := post[addr.service.ip];
            && e.service == addr.service && e.services == addr.services && e.nTime == addr.nTime - penalty && e.source == source
            && e.lastTry == 0 && e.lastSuccess == 0 && e.attempts == 0 && !e.tried
            && |e.buckets| == 1 && h.newHash(h.key, addr.service, source) % 256 in e.buckets
  {
    var a := addr.service.ip;
    var mid := AddMid(book, addr, source, penalty, now);
    AddMidKeeps(h, book, addr, source, penalty, now);
    PlaceFrame(mid, post, a, h.NewBucket(addr.service, source), now);
  }

  // An address announced once and tried k times without success, the last time over a minute ago, is terrible exactly
  // if k is at least 3, while the time announced is in the window; outside the window it always is.
  lemma NeverReached(h: Hasher, book: Book, books: seq<Book>, addr: Address, source: NetAddr, penalty: int, now0: int,
                     dice: int, times: seq<int>, now: int)
    requires BookInv(h, book) && Attempted(books, addr.service, times)
    requires AddStep(h, true, book, books[0], addr, source, penalty, now0, true, dice)
    requires 0 < addr.nTime - penalty < 0x1_0000_0000 && (times != [] ==> now - times[|times| - 1] > 60)
    ensures addr.service.ip in books[|times|]
    ensures IsTerrible(books[|times|][addr.service.ip], now) <==>
              |times| >= 3 || addr.nTime - penalty - now > 10 * 60 || now - (addr.nTime - penalty) > 30 * 86400
  {
    FirstRecord(h, book, books[0], addr, source, penalty, now0, dice);
    AttemptsAddUp(books, addr.service, times);
  }

  // What Good records: success, try and time are now, the failures are forgotten, and the entry is tried.
  lemma GoodRecord(h: Hasher, book: Book, post: Book, svc: Service, time: int)
    requires SameService(book, svc) && GoodStep(h, book, post, svc, time) && 0 <= time < 0x1_0000_0000
    ensures SameService(post, svc)
    ensures var e := post[svc.ip];
            && e.lastSuccess == e.lastTry == e.nTime == time && e.attempts == 0 && e.tried
            && e.source == book[svc.ip].source && e.services == book[svc.ip].services
            && e.buckets == if book[svc.ip].tried then book[svc.ip].buckets else {}
  {
  }

  // The tried addresses whose hash puts them into one bucket with svc.
  ghost function TriedBeside(h: Hasher, book: Book, svc: Service): set<NetAddr> {
    set a | a in book && book[a].tried && h.triedHash(h.key, book[a].service) % 64 == h.triedHash(h.key, svc) % 64
  }

  // Good on an entry not yet tried: with 64 tried ones beside it exactly one of those is sent back, to the bucket of its
  // own service and source unless 64 others are there, else to a bucket of the entry; nothing happens to anyone else.
  lemma GoodEvicts(h: Hasher, book: Book, post: Book, svc: Service, time: int)
    requires SameService(book, svc) && !book[svc.ip].tried && GoodStep(h, book, post, svc, time)
    ensures |TriedBeside(h, book, svc)| < 64 ==> post == book[svc.ip := post[svc.ip]]
    ensures |TriedBeside(h, book, svc)| >= 64 ==>
              exists v ::
                && v in TriedBeside(h, book, svc) && v in post && v != svc.ip
                && post == book[svc.ip := post[svc.ip]][v := post[v]]
                && post[v] == book[v].(tried := false, buckets := post[v].buckets)
                && var own := h.newHash(h.key, book[v].service, book[v].source) % 256;
                   if |InBucket(book, own) - {svc.ip}| < 64 then post[v].buckets == {own}
                   else exists o :: o in book[svc.ip].buckets && post[v].buckets == {o}
  {
    hide GoodMid;
    var t := h.TriedBucket(svc);
    assert InTried(h, book, t) == TriedBeside(h, book, svc);
    GoodMidIs(book, svc, time);
    var mid := GoodMid(book, svc, time);
    if |InTried(h, book, t)| >= TRIED_BUCKET_SIZE {
      var v, o :| v in InTried(h, book, t) && o in book[svc.ip].buckets && post == SendBack(h, mid, v, o);
      GoodMidBuckets(book, svc, time, h.NewBucket(book[v].service, book[v].source));
      assert v in TriedBeside(h, book, svc) && v in post && v != svc.ip;
    }
  }

  lemma GoodMidIs(book: Book, svc: Service, time: int)
    requires svc.ip in book
    ensures svc.ip in GoodMid(book, svc, time) && GoodMid(book, svc, time) == book[svc.ip := GoodMid(book, svc, time)[svc.ip]]
  {
  }

  // After a success, and k failures since of which the last is over a minute ago, it is terrible exactly if a week has
  // passed and k is at least 10, or thirty days have passed.
  lemma ReachedBefore(h: Hasher, book: Book, books: seq<Book>, svc: Service, good: int, times: seq<int>, now: int)
    requires Attempted(books, svc, times) && (times != [] ==> now - times[|times| - 1] > 60)
    requires SameService(book, svc) && GoodStep(h, book, books[0], svc, good)
    requires 0 < good < 0x1_0000_0000 && now - good > 60
    ensures svc.ip in books[|times|]
    ensures IsTerrible(books[|times|][svc.ip], now) <==>
              now - good > 30 * 86400 || (now - good > 7 * 86400 && |times| >= 10)
  {
    GoodRecord(h, book, books[0], svc, good);
    AttemptsAddUp(books, svc, times);
  }

  // Nothing tried within the last minute is.
  lemma JustTried(book: Book, post: Book, svc: Service, time: int, now: int)
    requires SameService(book, svc) && AttemptStep(book, post, svc, time) && 0 < time && now - time <= 60
    ensures svc.ip in post && !IsTerrible(post[svc.ip], now)
  {
  }

  // The addresses lying in the first n new buckets, and those in the first n tried buckets.
  function NewUpTo(book: Book, n: nat): set<NetAddr> {
    if n == 0 then {} else NewUpTo(book, n - 1) + InBucket(book, n - 1)
  }

  function TriedUpTo(h: Hasher, book: Book, n: nat): set<NetAddr> {
    if n == 0 then {} else TriedUpTo(h, book, n - 1) + InTried(h, book, n - 1)
  }

  lemma Member<T>(s: set<T>) returns (x: T)
    requires |s| > 0
    ensures x in s
  {
    x :| x in s;
  }

  lemma UnionCard<T>(x: set<T>, y: set<T>)
    ensures |x + y| <= |x| + |y|
  {
    assert |x + y| == |x| + |y| - |x * y|;
  }

  lemma {:induction false} UpToBounds(h: Hasher, book: Book, n: nat)
    requires Caps(h, book)
    ensures |NewUpTo(book, n)| <= n * NEW_BUCKET_SIZE && |TriedUpTo(h, book, n)| <= n * TRIED_BUCKET_SIZE
  {
    hide InBucket, InTried;
    if n > 0 {
      UpToBounds(h, book, n - 1);
      UnionCard(NewUpTo(book, n - 1), InBucket(book, n - 1));
      UnionCard(TriedUpTo(h, book, n - 1), InTried(h, book, n - 1));
    }
  }

  lemma {:induction false} UpToCovers(h: Hasher, book: Book, n: nat, b: nat, a: NetAddr)
    requires b < n
    ensures a in InBucket(book, b) ==> a in NewUpTo(book, n)
    ensures a in InTried(h, book, b) ==> a in TriedUpTo(h, book, n)
  {
    if b < n - 1 {
      UpToCovers(h, book, n - 1, b, a);
    }
  }

  // 64 * 64 tried slots and 256 * 64 new slots bound the memory the manager can use.
  lemma SizeBound(h: Hasher, book: Book)
    requires BookInv(h, book)
    ensures |book| <= TRIED_BUCKET_COUNT * TRIED_BUCKET_SIZE + NEW_BUCKET_COUNT * NEW_BUCKET_SIZE == 20480
  {
    UpToBounds(h, book, TRIED_BUCKET_COUNT);
    UpToBounds(h, book, NEW_BUCKET_COUNT);
    var t, n := TriedUpTo(h, book, TRIED_BUCKET_COUNT), NewUpTo(book, NEW_BUCKET_COUNT);
    forall a | a in book.Keys
      ensures a in t + n
    {
      assert EntryOk(a, book[a]);
      if book[a].tried {
        UpToCovers(h, book, TRIED_BUCKET_COUNT, h.TriedBucket(book[a].service), a);
      } else {
        var b := Member(book[a].buckets);
        UpToCovers(h, book, NEW_BUCKET_COUNT, b, a);
      }
    }
    CardMono(book.Keys, t + n);
    UnionCard(t, n);
  }

  // Safety of every run that starts with an empty manager.
  lemma {:induction false} RunKeeps(h: Hasher, books: seq<Book>, ops: seq<Op>, i: nat)
    requires IsRun(h, books, ops) && books[0] == map[] && i <= |ops|
    ensures BookInv(h, books[i]) && |books[i]| <= 20480
  {
    if i == 0 {
      forall b
        ensures InBucket(books[0], b) == {} && InTried(h, books[0], b) == {}
      {
      }
    } else {
      RunKeeps(h, books, ops, i - 1);
      StepKeeps(h, books[i - 1], ops[i - 1], books[i]);
    }
    SizeBound(h, books[i]);
  }

  // An address that is forgotten during a run was not in the tried table just before.
  lemma ForgottenWasNew(h: Hasher, books: seq<Book>, ops: seq<Op>, i: nat, a: NetAddr)
    requires IsRun(h, books, ops) && books[0] == map[] && i < |ops|
    requires a in books[i] && a !in books[i + 1]
    ensures !books[i][a].tried && ops[i].Add?
  {
    RunKeeps(h, books, ops, i);
    StepKeeps(h, books[i], ops[i], books[i + 1]);
  }
}
